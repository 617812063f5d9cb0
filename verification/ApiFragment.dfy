/**
 The key of a flattened API-connection row ends in "<connection>.<field path>", and the
 connection may itself contain dots (a URL, say). Splitting looks for the last known
 field name instead of the first dot.
 */
module ApiFragment {
  import opened Wrappers
  import opened Strings

  const API_CONFIG_FIELDS: seq<string> := [
    "enable", "key", "prefix_id", "tags", "model_ids", "connection_type",
    "provider", "auth_type", "headers", "azure", "api_version", "extra_params"
  ]

  datatype Split = Split(key: string, path: seq<string>)

  // str.isdigit, for ASCII digits.
  predicate IsDigits(s: string) {
    s != "" && forall c <- s :: '0' <= c <= '9'
  }

  lemma DigitsAre(s: string)
    ensures IsDigits(s) <==> s != "" && forall c <- s :: c in "0123456789"
  {
    forall c: char ensures '0' <= c <= '9' <==> c in "0123456789" {
      assert "0123456789" == ['0', '1', '2', '3', '4', '5', '6', '7', '8', '9'];
    }
  }

  function BeforeDot(s: string): (first: string)
    ensures '.' !in first && first <= s
    ensures first == s <==> '.' !in s
    ensures first != s ==> StartsAt(s, ".", |first|)
  {
    if s == "" || s[0] == '.' then "" else [s[0]] + BeforeDot(s[1..])
  }

  // A dot and the field name start at position i.
  predicate Marks(field: string, fragment: string, i: nat) {
    i < |fragment| && fragment[i] == '.' && StartsAt(fragment, field, i + 1)
  }

  predicate MarkerAt(fields: seq<string>, fragment: string, i: nat) {
    exists field <- fields :: Marks(field, fragment, i)
  }

  lemma MarksIsStartsAt(field: string, fragment: string, i: nat)
    ensures Marks(field, fragment, i) <==> StartsAt(fragment, "." + field, i)
  {
    var n := i + 1 + |field|;
    if n <= |fragment| {
      var here := fragment[i..n];
      assert here == [fragment[i]] + fragment[i + 1..n];
      if here == "." + field {
        assert here[0] == '.' && here[1..] == field;
      }
    }
  }

  // What rfind finds is the field's last marker.
  lemma RFindIsLast(field: string, fragment: string)
    ensures var i := RFind(fragment, "." + field);
            && (i >= 0 ==> Marks(field, fragment, i))
            && forall j: nat :: Marks(field, fragment, j) ==> j <= i
  {
    forall j: nat ensures Marks(field, fragment, j) <==> StartsAt(fragment, "." + field, j) {
      MarksIsStartsAt(field, fragment, j);
    }
  }

  // The last marker is at i.
  ghost predicate LastMarker(fields: seq<string>, fragment: string, i: nat) {
    MarkerAt(fields, fragment, i) && forall j: nat :: i < j ==> !MarkerAt(fields, fragment, j)
  }

  function LastMarkerBelow(fields: seq<string>, fragment: string, bound: nat): (m: Option<nat>)
    ensures m.Some? ==> m.value < bound && m.value < |fragment| && fragment[m.value] == '.'
  {
    if bound == 0 then None
    else if MarkerAt(fields, fragment, bound - 1) then Some(bound - 1)
    else LastMarkerBelow(fields, fragment, bound - 1)
  }

  lemma {:induction false} LastMarkerBelowIs(fields: seq<string>, fragment: string, bound: nat)
    ensures var m := LastMarkerBelow(fields, fragment, bound);
            && (m.Some? ==> MarkerAt(fields, fragment, m.value))
            && forall j: nat :: j < bound && MarkerAt(fields, fragment, j) ==> m.Some? && j <= m.value
  {
    if bound > 0 {
      LastMarkerBelowIs(fields, fragment, bound - 1);
    }
  }

  // The dot at which the fragment is cut into connection and field path.
  function Cut(fields: seq<string>, fragment: string): (c: Option<nat>)
    ensures c.Some? ==> 0 < c.value < |fragment| && fragment[c.value] == '.'
  {
    var first := BeforeDot(fragment);
    if IsDigits(first) && |first| + 1 < |fragment| then Some(|first|)
    else
      var last := LastMarkerBelow(fields, fragment, |fragment|);
      if last.None? || last.value == 0 then None else last
  }

  function SplitFragment(fields: seq<string>, fragment: string): Option<Split> {
    match Cut(fields, fragment)
    case None => None
    case Some(c) => Some(Split(fragment[..c], Strings.Split(fragment[c + 1..], '.')))
  }

  // The loop of the source: one rfind per known field, keeping the largest position.
  method SplitApiConfigFragment(fields: seq<string>, fragment: string) returns (r: Option<Split>)
    ensures r == SplitFragment(fields, fragment)
  {
    if fragment == "" {
      return None;
    }
    var first := BeforeDot(fragment);
    if IsDigits(first) && |first| + 1 < |fragment| {
      assert first == fragment[..|first|];
      return Some(Split(first, Strings.Split(fragment[|first| + 1..], '.')));
    }
    var found: Option<nat> := None;
    for n := 0 to |fields|
      invariant LastAmong(fields, fragment, n, found)
    {
      var marker := "." + fields[n];
      var index := RFind(fragment, marker);
      LastAmongNext(fields, fragment, n, found);
      if index != -1 && (found.None? || index > found.value) {
        found := Some(index);
      }
    }
    LastMarkerIs(fields, fragment, found);
    CutAtLast(fields, fragment);
    if found.Some? && found.value > 0 {
      return Some(Split(fragment[..found.value], Strings.Split(fragment[found.value + 1..], '.')));
    }
    return None;
  }

  // The largest position at which one of the first n field names is marked.
  ghost predicate LastAmong(fields: seq<string>, fragment: string, n: nat, found: Option<nat>)
    requires n <= |fields|
  {
    && (found.Some? ==> found.value < |fragment| && MarkerAt(fields, fragment, found.value))
    && forall k: nat, j: nat :: k < n && Marks(fields[k], fragment, j) ==> found.Some? && j <= found.value
  }

  lemma LastAmongNext(fields: seq<string>, fragment: string, n: nat, found: Option<nat>)
    requires n < |fields| && LastAmong(fields, fragment, n, found)
    ensures var i := RFind(fragment, "." + fields[n]);
            LastAmong(fields, fragment, n + 1,
                      if i != -1 && (found.None? || i > found.value) then Some(i) else found)
  {
    RFindIsLast(fields[n], fragment);
  }

  lemma CutAtLast(fields: seq<string>, fragment: string)
    requires !(IsDigits(BeforeDot(fragment)) && |BeforeDot(fragment)| + 1 < |fragment|)
    ensures var last := LastMarkerBelow(fields, fragment, |fragment|);
            SplitFragment(fields, fragment) ==
            if last.None? || last.value == 0 then None
            else Some(Split(fragment[..last.value], Strings.Split(fragment[last.value + 1..], '.')))
  {
  }

  lemma LastMarkerIs(fields: seq<string>, fragment: string, found: Option<nat>)
    requires LastAmong(fields, fragment, |fields|, found)
    ensures LastMarkerBelow(fields, fragment, |fragment|) == found
  {
    LastMarkerBelowIs(fields, fragment, |fragment|);
    forall j: nat | MarkerAt(fields, fragment, j) ensures found.Some? && j <= found.value {
      var k: nat :| k < |fields| && Marks(fields[k], fragment, j);
    }
    if found.Some? {
      LastMarkerIff(fields, fragment, found.value);
    }
  }

  // Nothing of the key is lost: the two parts, joined again, are the fragment.
  lemma SplitIsLossless(fields: seq<string>, fragment: string)
    requires SplitFragment(fields, fragment).Some?
    ensures var s := SplitFragment(fields, fragment).value;
            && s.key != "" && s.path != []
            && s.key + "." + Join(s.path, '.') == fragment
            && forall part <- s.path :: '.' !in part
  {
    var c := Cut(fields, fragment).value;
    JoinSplit(fragment[c + 1..], '.');
    GlueAtDot(fragment, c);
  }

  lemma GlueAtDot(s: string, i: nat)
    requires i < |s| && s[i] == '.'
    ensures s[..i] + "." + s[i + 1..] == s
  {
  }

  // Splitting recovers the connection and the field path it was printed from exactly when
  // the connection is a plain index, or when it does not start with an index and the field
  // path holds the last marker at its very start.
  lemma SplitInvertsPrinting(fields: seq<string>, key: string, path: seq<string>)
    requires forall field <- fields :: field != ""
    requires path != [] && forall part <- path :: '.' !in part
    ensures var fragment := key + "." + Join(path, '.');
            SplitFragment(fields, fragment) == Some(Split(key, path)) <==>
              if IsDigits(BeforeDot(key)) then '.' !in key && path != [""]
              else key != "" && LastMarker(fields, fragment, |key|)
  {
    var joined := Join(path, '.');
    var fragment := key + "." + joined;
    SplitJoin(path, '.');
    CutOfPrint(fields, key, joined);
    assert fragment[..|key|] == key && fragment[|key| + 1..] == joined;
    assert joined == "" <==> path == [""];
    if SplitFragment(fields, fragment) == Some(Split(key, path)) {
      var c := Cut(fields, fragment).value;
      assert |fragment[..c]| == c;
    }
  }

  // A connection of decimal digits is read back with any path, whatever names are known.
  lemma PrintedIndexIsRead(fields: seq<string>, key: string, path: seq<string>)
    requires forall field <- fields :: field != ""
    requires path != [] && path != [""] && forall part <- path :: '.' !in part
    requires key != "" && forall c <- key :: c in "0123456789"
    ensures SplitFragment(fields, key + "." + Join(path, '.')) == Some(Split(key, path))
  {
    DigitsAre(key);
    DigitsHaveNoDot(key);
    SplitInvertsPrinting(fields, key, path);
  }

  lemma DigitsHaveNoDot(key: string)
    requires IsDigits(key)
    ensures '.' !in key && BeforeDot(key) == key
  {
  }

  // A field path may itself hold a marker: in "u.headers.keyring" the last one is ".key", so
  // "headers" goes to the connection.
  lemma LaterMarkerWins()
    ensures SplitFragment(API_CONFIG_FIELDS, "u" + "." + Join(["headers", "keyring"], '.')) ==
            Some(Split("u.headers", ["keyring"]))
  {
    assert ["headers", "keyring"][1..] == ["keyring"];
    assert "u" + "." + ("headers" + "." + "keyring") == "u.headers" + "." + "keyring";
    assert API_CONFIG_FIELDS[1] == "key";
    assert "key" in API_CONFIG_FIELDS && "key" <= "keyring";
    NameMarkerWins(API_CONFIG_FIELDS, "key", "u.headers", "keyring");
  }

  lemma FieldsAreNotEmpty()
    ensures forall field <- API_CONFIG_FIELDS :: field != ""
  {
  }

  // A connection that does not start with a digit, ahead of a field that starts with a known name
  // and holds no dot.
  lemma NameMarkerWins(fields: seq<string>, name: string, key: string, field: string)
    requires name in fields && name <= field && '.' !in field
    requires key != "" && !('0' <= key[0] <= '9')
    ensures SplitFragment(fields, key + "." + field) == Some(Split(key, [field]))
  {
    var s := key + "." + field;
    NameMarks(name, key, field);
    NoLaterMarker(fields, key, field);
    BeforeDotOfPrint(key, field);
    FirstIsNoDigit(key);
    LastMarkerIff(fields, s, |key|);
    CutAtLast(fields, s);
    SplitOnePart(field, '.');
    assert s[..|key|] == key && s[|key| + 1..] == field;
  }

  // Each of the twelve known names is read back as the field of any such connection.
  lemma KnownNamesAreRead(key: string, name: string)
    requires key != "" && !('0' <= key[0] <= '9')
    requires || name in ["enable", "key", "prefix_id", "tags", "model_ids", "connection_type"]
             || name in ["provider", "auth_type", "headers", "azure", "api_version", "extra_params"]
    ensures SplitFragment(API_CONFIG_FIELDS, key + "." + name) == Some(Split(key, [name]))
  {
    NamesHaveNoDot(name);
    NameMarkerWins(API_CONFIG_FIELDS, name, key, name);
  }

  lemma NamesHaveNoDot(name: string)
    requires || name in ["enable", "key", "prefix_id", "tags", "model_ids", "connection_type"]
             || name in ["provider", "auth_type", "headers", "azure", "api_version", "extra_params"]
    ensures '.' !in name && name in API_CONFIG_FIELDS
  {
    assert API_CONFIG_FIELDS ==
           ["enable", "key", "prefix_id", "tags", "model_ids", "connection_type"] +
           ["provider", "auth_type", "headers", "azure", "api_version", "extra_params"];
  }

  lemma FirstIsNoDigit(key: string)
    requires key != "" && !('0' <= key[0] <= '9')
    ensures !IsDigits(BeforeDot(key))
  {
    if key[0] != '.' {
      assert BeforeDot(key)[0] == key[0] && BeforeDot(key)[0] in BeforeDot(key);
    }
  }

  lemma NoLaterMarker(fields: seq<string>, key: string, field: string)
    requires '.' !in field
    ensures forall j: nat :: |key| < j ==> !MarkerAt(fields, key + "." + field, j)
  {
    var s := key + "." + field;
    forall j: nat | |key| < j ensures !MarkerAt(fields, s, j) {
      if j < |s| {
        NoLaterDot(key, field, j);
      }
    }
  }

  lemma NameMarks(name: string, key: string, field: string)
    requires name <= field
    ensures Marks(name, key + "." + field, |key|)
  {
    assert (key + "." + field)[|key| + 1..|key| + 1 + |name|] == field[..|name|] == name;
  }

  lemma NoLaterDot(key: string, field: string, j: nat)
    requires '.' !in field && |key| < j < |key + "." + field|
    ensures (key + "." + field)[j] != '.'
  {
    assert (key + "." + field)[j] == field[j - |key| - 1];
  }

  lemma CutOfPrint(fields: seq<string>, key: string, rest: string)
    requires forall field <- fields :: field != ""
    ensures var fragment := key + "." + rest;
            Cut(fields, fragment) == Some(|key|) <==>
              if IsDigits(BeforeDot(key)) then '.' !in key && rest != ""
              else key != "" && LastMarker(fields, fragment, |key|)
  {
    var fragment := key + "." + rest;
    BeforeDotOfPrint(key, rest);
    LastMarkerIff(fields, fragment, |key|);
    if rest == "" {
      MarkerNeedsRoom(fields, fragment, |key|);
    }
  }

  lemma LastMarkerIff(fields: seq<string>, fragment: string, i: nat)
    ensures LastMarker(fields, fragment, i) <==> LastMarkerBelow(fields, fragment, |fragment|) == Some(i)
  {
    LastMarkerBelowIs(fields, fragment, |fragment|);
    assert forall j: nat :: MarkerAt(fields, fragment, j) ==> j < |fragment|;
  }

  lemma MarkerNeedsRoom(fields: seq<string>, fragment: string, i: nat)
    requires forall field <- fields :: field != ""
    requires |fragment| <= i + 1
    ensures !MarkerAt(fields, fragment, i)
  {
  }

  lemma {:induction false} BeforeDotOfPrint(key: string, rest: string)
    ensures BeforeDot(key + "." + rest) == BeforeDot(key)
  {
    var s := key + "." + rest;
    if key == "" {
      assert s[0] == '.';
    } else {
      assert s[0] == key[0] && s[1..] == key[1..] + "." + rest;
      BeforeDotOfPrint(key[1..], rest);
    }
  }
}
