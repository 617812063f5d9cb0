/**
 The sortby and fields parameters: parsed from comma-separated text, where a leading sign
 gives the direction or excludes a field, and printed back for GET requests.
 */
module SortAndFields {
  import opened Strings

  datatype Sort = Sort(field: string, descending: bool)
  datatype Fields = Fields(included: seq<string>, excluded: seq<string>)

  function ParseSort(part: string): Sort {
    if part != "" && part[0] == '-' then Sort(part[1..], true)
    else if part != "" && part[0] == '+' then Sort(part[1..], false)
    else Sort(part, false)
  }

  function PrintSort(s: Sort): string {
    (if s.descending then "-" else "+") + s.field
  }

  function ParseSorts(parts: seq<string>): seq<Sort> {
    seq(|parts|, i requires 0 <= i < |parts| => ParseSort(parts[i]))
  }

  function PrintedParts(sorts: seq<Sort>): seq<string> {
    seq(|sorts|, i requires 0 <= i < |sorts| => PrintSort(sorts[i]))
  }

  function ParseSortby(text: string): seq<Sort> {
    ParseSorts(Split(text, ','))
  }

  function PrintSortby(sorts: seq<Sort>): string {
    Join(PrintedParts(sorts), ',')
  }

  // A leading sign gives the direction and is no part of the field; without one it ascends.
  lemma SignGivesDirection(field: string)
    ensures ParseSort("-" + field) == Sort(field, true) && ParseSort("+" + field) == Sort(field, false)
    ensures field == "" || (field[0] != '-' && field[0] != '+') ==> ParseSort(field) == Sort(field, false)
  {
    assert ("-" + field)[1..] == field && ("+" + field)[1..] == field;
  }

  // Any sort order is read back from its print, when there is one and no field holds a comma.
  lemma PrintedSortbyIsRead(sorts: seq<Sort>)
    requires sorts != [] && forall s <- sorts :: ',' !in s.field
    ensures ParseSortby(PrintSortby(sorts)) == sorts
  {
    var printed := PrintedParts(sorts);
    forall i | 0 <= i < |printed| ensures ',' !in printed[i] && ParseSort(printed[i]) == sorts[i] {
      assert ',' !in sorts[i].field;
      SignGivesDirection(sorts[i].field);
    }
    SplitJoin(printed, ',');
  }

  // A text without signs asks for ascending order of its parts.
  lemma UnsignedSortby(parts: seq<string>)
    requires parts != [] && forall part <- parts :: part != "" && part[0] !in "+-" && ',' !in part
    ensures ParseSortby(Join(parts, ',')) == seq(|parts|, i requires 0 <= i < |parts| => Sort(parts[i], false))
  {
    SplitJoin(parts, ',');
    forall i | 0 <= i < |parts| ensures ParseSort(parts[i]) == Sort(parts[i], false) {
      SignGivesDirection(parts[i]);
    }
  }

  // Printing a parsed sortby and parsing it again gives the same sort order.
  lemma SortbyRoundTrip(text: string)
    ensures ParseSortby(PrintSortby(ParseSortby(text))) == ParseSortby(text)
  {
    var sorts := ParseSortby(text);
    var printed := PrintedParts(sorts);
    forall i | 0 <= i < |printed| ensures ',' !in printed[i] && ParseSort(printed[i]) == sorts[i] {
      var part := Split(text, ',')[i];
      assert ',' !in part;
      assert printed[i][1..] == sorts[i].field;
    }
    SplitJoin(printed, ',');
  }

  // The loop over fields: excluded ones start with a minus sign.
  function FieldsOf(fields: seq<string>): Fields {
    if fields == [] then Fields([], [])
    else
      var before := FieldsOf(fields[..|fields| - 1]);
      var s := ParseSort(fields[|fields| - 1]);
      if s.descending then before.(excluded := before.excluded + [s.field])
      else before.(included := before.included + [s.field])
  }

  method FieldsToDict(fields: seq<string>) returns (r: Fields)
    ensures r == FieldsOf(fields)
  {
    var includes, excludes: seq<string> := [], [];
    for i := 0 to |fields|
      invariant Fields(includes, excludes) == FieldsOf(fields[..i])
    {
      assert fields[..i + 1][..i] == fields[..i];
      var field := fields[i];
      if field != "" && field[0] == '-' {
        excludes := excludes + [field[1..]];
      } else if field != "" && field[0] == '+' {
        includes := includes + [field[1..]];
      } else {
        includes := includes + [field];
      }
    }
    assert fields[..|fields|] == fields;
    return Fields(includes, excludes);
  }

  function Signed(sign: string, fields: seq<string>): seq<string> {
    seq(|fields|, i requires 0 <= i < |fields| => sign + fields[i])
  }

  function ParseFields(text: string): Fields {
    FieldsOf(Split(text, ','))
  }

  function PrintFields(f: Fields): string {
    Join(Signed("+", f.included) + Signed("-", f.excluded), ',')
  }

  lemma {:induction false} FieldsHaveNoCommas(fields: seq<string>)
    requires forall f <- fields :: ',' !in f
    ensures var r := FieldsOf(fields);
            && (forall f <- r.included :: ',' !in f) && (forall f <- r.excluded :: ',' !in f)
            && |r.included| + |r.excluded| == |fields|
    decreases |fields|
  {
    if fields != [] {
      FieldsHaveNoCommas(fields[..|fields| - 1]);
      var last := fields[|fields| - 1];
      assert last in fields;
      if last != "" {
        assert forall c <- last[1..] :: c in last;
      }
    }
  }

  lemma {:induction false} FieldsOfAppend(fields: seq<string>, more: seq<string>)
    ensures FieldsOf(fields + more) ==
            Fields(FieldsOf(fields).included + FieldsOf(more).included,
                   FieldsOf(fields).excluded + FieldsOf(more).excluded)
    decreases |more|
  {
    if more == [] {
      assert fields + more == fields;
    } else {
      assert (fields + more)[..|fields + more| - 1] == fields + more[..|more| - 1];
      FieldsOfAppend(fields, more[..|more| - 1]);
    }
  }

  lemma {:induction false} FieldsOfSigned(fields: seq<string>)
    ensures FieldsOf(Signed("+", fields)) == Fields(fields, [])
    ensures FieldsOf(Signed("-", fields)) == Fields([], fields)
    decreases |fields|
  {
    if fields != [] {
      var n := |fields| - 1;
      FieldsOfSigned(fields[..n]);
      assert Signed("+", fields)[..n] == Signed("+", fields[..n]);
      assert Signed("-", fields)[..n] == Signed("-", fields[..n]);
      assert ("+" + fields[n])[1..] == fields[n] && ("-" + fields[n])[1..] == fields[n];
      assert fields == fields[..n] + [fields[n]];
    }
  }

  // Fields without a sign are included.
  lemma {:induction false} UnsignedAreIncluded(fields: seq<string>)
    requires forall f <- fields :: f == "" || f[0] !in "+-"
    ensures FieldsOf(fields) == Fields(fields, [])
    decreases |fields|
  {
    if fields != [] {
      var n := |fields| - 1;
      UnsignedAreIncluded(fields[..n]);
      SignGivesDirection(fields[n]);
      assert fields == fields[..n] + [fields[n]];
    }
  }

  lemma PrintedFieldsSplit(f: Fields)
    requires (forall x <- f.included :: ',' !in x) && (forall x <- f.excluded :: ',' !in x)
    requires |f.included| + |f.excluded| > 0
    ensures Split(PrintFields(f), ',') == Signed("+", f.included) + Signed("-", f.excluded)
  {
    var parts := Signed("+", f.included) + Signed("-", f.excluded);
    forall i | 0 <= i < |parts| ensures ',' !in parts[i] {
      NoCommaSigned("+", f.included, i);
      NoCommaSigned("-", f.excluded, i - |f.included|);
    }
    SplitJoin(parts, ',');
  }

  lemma NoCommaSigned(sign: string, fields: seq<string>, i: int)
    requires ',' !in sign && forall x <- fields :: ',' !in x
    ensures 0 <= i < |fields| ==> ',' !in Signed(sign, fields)[i]
  {
  }

  lemma PrintedFieldsParse(f: Fields)
    ensures FieldsOf(Signed("+", f.included) + Signed("-", f.excluded)) == f
  {
    FieldsOfAppend(Signed("+", f.included), Signed("-", f.excluded));
    FieldsOfSigned(f.included);
    FieldsOfSigned(f.excluded);
    assert f.included + [] == f.included && [] + f.excluded == f.excluded;
  }

  // Any two lists are read back from their print, when there is a field and none holds a comma.
  lemma PrintedFieldsAreRead(f: Fields)
    requires (forall x <- f.included :: ',' !in x) && (forall x <- f.excluded :: ',' !in x)
    requires |f.included| + |f.excluded| > 0
    ensures ParseFields(PrintFields(f)) == f
  {
    PrintedFieldsSplit(f);
    PrintedFieldsParse(f);
  }

  // Printing the parsed fields and parsing them again gives the same lists.
  lemma FieldsRoundTrip(text: string)
    ensures ParseFields(PrintFields(ParseFields(text))) == ParseFields(text)
  {
    FieldsHaveNoCommas(Split(text, ','));
    PrintedFieldsSplit(ParseFields(text));
    PrintedFieldsParse(ParseFields(text));
  }
}
