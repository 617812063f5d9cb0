/**
 The "query" parameter given as a list of strings: each is JSON, or a condition such as
 "cloud_cover<=10", found by trying the operators in a fixed order. All of them are merged
 into one dictionary.
 */
module QueryList {
  import opened Wrappers
  import opened Strings
  import opened JsonTrees
  import opened DictMerge

  datatype Operator = Operator(symbol: string, name: string)

  // The order matters: each symbol comes before the shorter ones inside it.
  const OPS := [
    Operator(">=", "gte"), Operator("<=", "lte"), Operator("=", "eq"),
    Operator("<>", "neq"), Operator(">", "gt"), Operator("<", "lt")
  ]

  datatype Condition = Condition(param: string, op: string, value: string)

  // ---- str.split by a string ----

  function FindFrom(s: string, sep: string, i: nat): (j: Option<nat>)
    ensures j.Some? ==> i <= j.value && StartsAt(s, sep, j.value)
    ensures j.Some? ==> forall k: nat :: i <= k < j.value ==> !StartsAt(s, sep, k)
    ensures j.None? ==> forall k: nat :: i <= k ==> !StartsAt(s, sep, k)
    decreases |s| - i
  {
    if i > |s| then None
    else if StartsAt(s, sep, i) then Some(i)
    else FindFrom(s, sep, i + 1)
  }

  function SplitOn(s: string, sep: string): seq<string>
    requires sep != ""
    decreases |s|
  {
    var i := FindFrom(s, sep, 0);
    if i.None? then [s] else [s[..i.value]] + SplitOn(s[i.value + |sep|..], sep)
  }

  // The text is cut at the first place where the separator starts, and on after it; without one
  // it stays whole.
  lemma SplitAtFirst(before: string, sep: string, rest: string)
    requires sep != ""
    requires forall i: nat :: i < |before| ==> !StartsAt(before + sep + rest, sep, i)
    ensures SplitOn(before + sep + rest, sep) == [before] + SplitOn(rest, sep)
  {
    var s := before + sep + rest;
    assert s[|before|..|before| + |sep|] == sep;
    assert StartsAt(s, sep, |before|);
    var i := FindFrom(s, sep, 0);
    assert i.Some? && i.value == |before|;
    assert s[|before| + |sep|..] == rest && s[..|before|] == before;
  }

  lemma SplitNowhere(s: string, sep: string)
    requires sep != "" && forall i: nat :: i + |sep| <= |s| ==> !StartsAt(s, sep, i)
    ensures SplitOn(s, sep) == [s]
  {
  }

  // The first operator that splits the text into exactly two parts.
  function ParseWith(ops: seq<Operator>, q: string): Option<Condition>
    requires forall op <- ops :: op.symbol != ""
  {
    if ops == [] then None
    else
      var parts := SplitOn(q, ops[0].symbol);
      if |parts| == 2 then Some(Condition(parts[0], ops[0].name, parts[1])) else ParseWith(ops[1..], q)
  }

  // ---- Parsing undoes printing ----

  predicate IsOpChar(c: char) {
    c == '<' || c == '>' || c == '='
  }

  predicate Plain(s: string) {
    forall c <- s :: !IsOpChar(c)
  }

  predicate AllOpChars(s: string) {
    forall c <- s :: IsOpChar(c)
  }

  lemma CharOf(param: string, op: string, value: string, i: nat)
    requires i < |param + op + value|
    ensures i < |param| ==> (param + op + value)[i] in param
    ensures i >= |param| + |op| ==> (param + op + value)[i] in value
  {
    var s := param + op + value;
    if i < |param| {
      assert s[i] == param[i];
    } else if i >= |param| + |op| {
      assert s[i] == value[i - |param| - |op|];
    }
  }

  // Between plain texts, a separator of operator characters can only start inside the operator.
  lemma SeparatorIsInside(param: string, op: string, value: string, sep: string, i: nat)
    requires Plain(param) && Plain(value) && AllOpChars(sep) && sep != ""
    requires StartsAt(param + op + value, sep, i)
    ensures |param| <= i && StartsAt(op, sep, i - |param|)
  {
    var s := param + op + value;
    var n := |sep|;
    assert s[i] == sep[0] && s[i + n - 1] == sep[n - 1];
    CharOf(param, op, value, i);
    CharOf(param, op, value, i + n - 1);
    assert op[i - |param|..i - |param| + n] == s[i..i + n];
  }

  lemma AbsentSeparator(param: string, op: string, value: string, sep: string)
    requires Plain(param) && Plain(value) && AllOpChars(sep) && sep != ""
    requires forall i: nat :: !StartsAt(op, sep, i)
    ensures SplitOn(param + op + value, sep) == [param + op + value]
  {
    var s := param + op + value;
    var i := FindFrom(s, sep, 0);
    if i.Some? {
      SeparatorIsInside(param, op, value, sep, i.value);
    }
  }

  lemma OwnSeparator(param: string, op: string, value: string)
    requires Plain(param) && Plain(value) && AllOpChars(op) && op != ""
    ensures SplitOn(param + op + value, op) == [param, value]
  {
    var s := param + op + value;
    assert StartsAt(s, op, |param|);
    var i := FindFrom(s, op, 0);
    SeparatorIsInside(param, op, value, op, i.value);
    assert i.value == |param|;
    assert s[..i.value] == param && s[i.value + |op|..] == value;
    var rest := FindFrom(value, op, 0);
    if rest.Some? {
      FirstChar(value, op, rest.value);
    }
  }

  lemma FirstChar(s: string, sep: string, i: nat)
    requires StartsAt(s, sep, i) && sep != ""
    ensures i < |s| && s[i] == sep[0] && s[i] in s
  {
    assert s[i..i + |sep|][0] == s[i];
  }

  lemma WholeText(s: string, sep: string, i: nat)
    requires StartsAt(s, sep, i) && |s| <= |sep|
    ensures s == sep
  {
    assert s[i..i + |sep|] == s;
  }

  // Operator n is not found inside an operator that comes after it.
  predicate InOrder(ops: seq<Operator>) {
    forall n, m :: 0 <= n < m < |ops| ==> !Occurs(ops[m].symbol, ops[n].symbol)
  }

  predicate Occurs(s: string, sep: string) {
    exists i :: 0 <= i <= |s| && StartsAt(s, sep, i)
  }

  lemma OpsAreInOrder()
    ensures InOrder(OPS) && forall op <- OPS :: op.symbol != "" && AllOpChars(op.symbol)
  {
    forall n, m | 0 <= n < m < |OPS| ensures !Occurs(OPS[m].symbol, OPS[n].symbol) {
      SymbolsClash(n, m);
      NotInside(OPS[m].symbol, OPS[n].symbol);
    }
  }

  // No one-character symbol is part of a later one, and no two are the same.
  lemma SymbolsClash(n: nat, m: nat)
    requires n < m < |OPS|
    ensures var s, sep := OPS[m].symbol, OPS[n].symbol;
            sep != "" && |s| <= 2 && s != sep && (|sep| == 1 ==> sep[0] !in s)
  {
  }

  // A text of one or two characters holds no other text of its length, no longer one, and a
  // single character only if it is one of its own.
  lemma NotInside(s: string, sep: string)
    requires sep != "" && |s| <= 2 && s != sep
    requires |sep| == 1 ==> sep[0] !in s
    ensures !Occurs(s, sep)
  {
    forall i | 0 <= i <= |s| ensures !StartsAt(s, sep, i) {
      if StartsAt(s, sep, i) {
        if |sep| == 1 {
          FirstChar(s, sep, i);
        } else {
          WholeText(s, sep, i);
        }
      }
    }
  }

  lemma {:induction false} ParseFindsOperator(ops: seq<Operator>, n: nat, param: string, value: string)
    requires InOrder(ops) && forall op <- ops :: op.symbol != "" && AllOpChars(op.symbol)
    requires n < |ops| && Plain(param) && Plain(value)
    ensures ParseWith(ops, param + ops[n].symbol + value) == Some(Condition(param, ops[n].name, value))
    decreases n
  {
    if n == 0 {
      OwnSeparator(param, ops[0].symbol, value);
    } else {
      assert !Occurs(ops[n].symbol, ops[0].symbol);
      AbsentSeparator(param, ops[n].symbol, value, ops[0].symbol);
      assert ops[1..][n - 1] == ops[n];
      ParseFindsOperator(ops[1..], n - 1, param, value);
    }
  }

  // The operator that is taken, whatever the text: the first one that splits it into two parts.
  ghost predicate Takes(ops: seq<Operator>, q: string, n: nat)
    requires forall op <- ops :: op.symbol != ""
  {
    n < |ops| && |SplitOn(q, ops[n].symbol)| == 2 && forall m :: 0 <= m < n ==> |SplitOn(q, ops[m].symbol)| != 2
  }

  lemma {:induction false} ParseTakesFirst(ops: seq<Operator>, q: string, n: nat)
    requires forall op <- ops :: op.symbol != ""
    ensures Takes(ops, q, n) ==>
              ParseWith(ops, q) ==
              Some(Condition(SplitOn(q, ops[n].symbol)[0], ops[n].name, SplitOn(q, ops[n].symbol)[1]))
    ensures ParseWith(ops, q).None? <==> forall op <- ops :: |SplitOn(q, op.symbol)| != 2
  {
    if ops != [] {
      if Takes(ops, q, n) && n > 0 {
        assert forall m :: 0 <= m < n - 1 ==> ops[1..][m] == ops[m + 1];
        assert Takes(ops[1..], q, n - 1);
      }
      ParseTakesFirst(ops[1..], q, if n > 0 then n - 1 else 0);
      assert forall op :: op in ops <==> op == ops[0] || op in ops[1..];
    }
  }

  // The six operators and their names.
  lemma SixConditionsAreRead(param: string, value: string)
    requires Plain(param) && Plain(value)
    ensures forall op <- OPS :: op.symbol != ""
    ensures ParseWith(OPS, param + ">=" + value) == Some(Condition(param, "gte", value))
    ensures ParseWith(OPS, param + "<=" + value) == Some(Condition(param, "lte", value))
    ensures ParseWith(OPS, param + "=" + value) == Some(Condition(param, "eq", value))
    ensures ParseWith(OPS, param + "<>" + value) == Some(Condition(param, "neq", value))
    ensures ParseWith(OPS, param + ">" + value) == Some(Condition(param, "gt", value))
    ensures ParseWith(OPS, param + "<" + value) == Some(Condition(param, "lt", value))
  {
    ParsingUndoesPrinting(0, param, value);
    ParsingUndoesPrinting(1, param, value);
    ParsingUndoesPrinting(2, param, value);
    ParsingUndoesPrinting(3, param, value);
    ParsingUndoesPrinting(4, param, value);
    ParsingUndoesPrinting(5, param, value);
  }

  // Parameter, operator and value are read back exactly, for each of the six operators.
  lemma ParsingUndoesPrinting(n: nat, param: string, value: string)
    requires n < |OPS| && Plain(param) && Plain(value)
    ensures forall op <- OPS :: op.symbol != ""
    ensures ParseWith(OPS, param + OPS[n].symbol + value) == Some(Condition(param, OPS[n].name, value))
  {
    OpsAreInOrder();
    ParseFindsOperator(OPS, n, param, value);
  }

  // ---- Folding the list ----

  datatype Result = Ok(query: Json) | Error

  // json.loads, and float for the "gsd" parameter; None where they raise.
  datatype Decoders = Decoders(json: string -> Option<Json>, number: string -> Option<string>)

  function AsDict(c: Condition, value: string): Json {
    Dict(map[c.param := Dict(map[c.op := Leaf(value)])])
  }

  // One list entry merged into the query.
  function Merged(d: Decoders, ops: seq<Operator>, query: Json, q: string): Result
    requires query.Dict? && forall op <- ops :: op.symbol != ""
  {
    match d.json(q)
    case Some(j) => if j.Dict? then Ok(Merge(query, j, true)) else Error
    case None =>
      match ParseWith(ops, q)
      case None => Ok(query)
      case Some(c) =>
        if c.param != "gsd" then Ok(Merge(query, AsDict(c, c.value), true))
        else if d.number(c.value).None? then Error
        else Ok(Merge(query, AsDict(c, d.number(c.value).value), true))
  }

  function QueryOf(d: Decoders, ops: seq<Operator>, qs: seq<string>): (r: Result)
    requires forall op <- ops :: op.symbol != ""
    ensures r.Ok? ==> r.query.Dict?
  {
    if qs == [] then Ok(EMPTY)
    else
      var before := QueryOf(d, ops, qs[..|qs| - 1]);
      if before.Error? then Error else
        var r := Merged(d, ops, before.query, qs[|qs| - 1]);
        r
  }

  // The loop over the operators.
  method ParseCondition(ops: seq<Operator>, q: string) returns (c: Option<Condition>)
    requires forall op <- ops :: op.symbol != ""
    ensures c == ParseWith(ops, q)
  {
    for n := 0 to |ops|
      invariant ParseWith(ops[n..], q) == ParseWith(ops, q)
    {
      assert ops[n..][0] == ops[n] && ops[n..][1..] == ops[n + 1..];
      var parts := SplitOn(q, ops[n].symbol);
      if |parts| == 2 {
        return Some(Condition(parts[0], ops[n].name, parts[1]));
      }
    }
    return None;
  }

  // One turn of the loop over the list.
  method MergeEntry(d: Decoders, ops: seq<Operator>, query: Json, q: string) returns (r: Result)
    requires query.Dict? && forall op <- ops :: op.symbol != ""
    ensures r == Merged(d, ops, query, q)
  {
    var decoded := d.json(q);
    if decoded.Some? {
      if decoded.value.Leaf? {
        return Error;
      }
      var merged := DictMerge.DictMerge(query, decoded.value, true);
      return Ok(merged);
    }
    var c := ParseCondition(ops, q);
    if c.None? {
      return Ok(query);
    }
    var value := c.value.value;
    if c.value.param == "gsd" {
      if d.number(value).None? {
        return Error;
      }
      value := d.number(value).value;
    }
    var merged := DictMerge.DictMerge(query, AsDict(c.value, value), true);
    return Ok(merged);
  }

  method FormatQuery(d: Decoders, ops: seq<Operator>, qs: seq<string>) returns (r: Result)
    requires forall op <- ops :: op.symbol != ""
    ensures r == QueryOf(d, ops, qs)
  {
    var query := EMPTY;
    for i := 0 to |qs|
      invariant query.Dict? && QueryOf(d, ops, qs[..i]) == Ok(query)
    {
      QueryNext(d, ops, qs, i);
      var merged := MergeEntry(d, ops, query, qs[i]);
      if merged.Error? {
        ErrorStays(d, ops, qs, i + 1);
        return Error;
      }
      query := merged.query;
    }
    assert qs[..|qs|] == qs;
    return Ok(query);
  }

  lemma QueryNext(d: Decoders, ops: seq<Operator>, qs: seq<string>, n: nat)
    requires n < |qs| && forall op <- ops :: op.symbol != ""
    ensures var before := QueryOf(d, ops, qs[..n]);
            QueryOf(d, ops, qs[..n + 1]) == if before.Error? then Error else Merged(d, ops, before.query, qs[n])
  {
    assert qs[..n + 1][..n] == qs[..n];
  }

  lemma {:induction false} ErrorStays(d: Decoders, ops: seq<Operator>, qs: seq<string>, n: nat)
    requires forall op <- ops :: op.symbol != ""
    requires n <= |qs| && QueryOf(d, ops, qs[..n]).Error?
    ensures QueryOf(d, ops, qs).Error?
    decreases |qs| - n
  {
    if n == |qs| {
      assert qs[..n] == qs;
    } else {
      assert qs[..n + 1][..n] == qs[..n];
      ErrorStays(d, ops, qs, n + 1);
    }
  }

  // A list with one entry more. A JSON entry must be a dictionary, whose entries then win at every
  // path; a text that no operator splits in two is passed over.
  lemma OneEntryMore(d: Decoders, ops: seq<Operator>, qs: seq<string>, q: string, at: Path)
    requires forall op <- ops :: op.symbol != ""
    ensures var before, after := QueryOf(d, ops, qs), QueryOf(d, ops, qs + [q]);
            && (before.Error? ==> after.Error?)
            && (before.Ok? && d.json(q).Some? && d.json(q).value.Leaf? ==> after.Error?)
            && (before.Ok? && d.json(q).Some? && d.json(q).value.Dict? ==>
                  && after.Ok?
                  && At(after.query, at) ==
                     if At(d.json(q).value, at) != Absent then At(d.json(q).value, at)
                     else if LeafAbove(d.json(q).value, at) then Absent
                     else At(before.query, at))
            && (d.json(q).None? && (forall op <- ops :: |SplitOn(q, op.symbol)| != 2) ==> after == before)
  {
    var before := QueryOf(d, ops, qs);
    assert (qs + [q])[..|qs|] == qs;
    ParseTakesFirst(ops, q, 0);
    if before.Ok? && d.json(q).Some? && d.json(q).value.Dict? {
      MergeAtEveryPath(before.query, d.json(q).value, at);
    }
  }

  // ---- Every condition is kept, the last value wins ----

  // The value as the query holds it: a number for "gsd", if it is one, and the text otherwise.
  function ValueOf(d: Decoders, c: Condition): Option<string> {
    if c.param == "gsd" then d.number(c.value) else Some(c.value)
  }

  // The value last given for a parameter and operator.
  function LastValue(d: Decoders, cs: seq<Condition>, param: string, op: string): Option<string> {
    if cs == [] then None
    else
      var c := cs[|cs| - 1];
      if c.param == param && c.op == op then ValueOf(d, c) else LastValue(d, cs[..|cs| - 1], param, op)
  }

  // The list entries are printed conditions, and none of them is JSON.
  ghost predicate Prints(d: Decoders, ops: seq<Operator>, qs: seq<string>, cs: seq<Condition>) {
    |qs| == |cs| && forall i :: 0 <= i < |qs| ==> d.json(qs[i]).None? && IsPrinted(ops, qs[i], cs[i])
  }

  ghost predicate HaveValues(d: Decoders, cs: seq<Condition>) {
    forall c <- cs :: ValueOf(d, c).Some?
  }

  ghost predicate IsPrinted(ops: seq<Operator>, q: string, c: Condition) {
    && Plain(c.param) && Plain(c.value)
    && exists op <- ops :: c.op == op.name && q == c.param + op.symbol + c.value
  }

  lemma AtTwo(t: Json, param: string, op: string)
    requires t.Dict?
    ensures At(t, [param, op]) ==
            if param in t.fields && t.fields[param].Dict? && op in t.fields[param].fields
            then At(t.fields[param].fields[op], []) else Absent
  {
    assert [param, op][1..] == [op] && [op][1..] == [];
  }

  lemma MergeCondition(query: Json, c: Condition, value: string, param: string, op: string)
    requires query.Dict? && forall k <- query.fields :: query.fields[k].Dict?
    ensures var r := Merge(query, AsDict(c, value), true);
            && (forall k <- r.fields :: r.fields[k].Dict?)
            && At(r, [param, op]) ==
               if c.param == param && c.op == op then LeafHere(value) else At(query, [param, op])
  {
    var r := Merge(query, AsDict(c, value), true);
    AtTwo(r, param, op);
    AtTwo(query, param, op);
    var one := Dict(map[c.op := Leaf(value)]);
    if c.param in query.fields {
      assert r.fields[c.param] == Merge(query.fields[c.param], one, true);
    } else {
      assert r.fields[c.param] == one;
    }
  }

  // A printed condition is merged with its value, and fails without one.
  lemma PrintedIsMerged(d: Decoders, ops: seq<Operator>, query: Json, q: string, c: Condition)
    requires query.Dict? && InOrder(ops) && forall o <- ops :: o.symbol != "" && AllOpChars(o.symbol)
    requires d.json(q).None? && IsPrinted(ops, q, c)
    ensures Merged(d, ops, query, q) ==
            if ValueOf(d, c).None? then Error else Ok(Merge(query, AsDict(c, ValueOf(d, c).value), true))
  {
    var o :| o in ops && c.op == o.name && q == c.param + o.symbol + c.value;
    var m :| 0 <= m < |ops| && ops[m] == o;
    ParseFindsOperator(ops, m, c.param, c.value);
  }

  // The query holds the value last given for the parameter and operator, and nothing there if
  // none was given.
  ghost predicate HoldsLast(d: Decoders, r: Result, cs: seq<Condition>, param: string, op: string) {
    && r.Ok? && r.query.Dict? && (forall k <- r.query.fields :: r.query.fields[k].Dict?)
    && At(r.query, [param, op]) ==
       match LastValue(d, cs, param, op) case None => Absent case Some(v) => LeafHere(v)
  }

  lemma HoldsLastNext(d: Decoders, query: Json, cs: seq<Condition>, c: Condition, param: string, op: string)
    requires HoldsLast(d, Ok(query), cs, param, op) && ValueOf(d, c).Some?
    ensures HoldsLast(d, Ok(Merge(query, AsDict(c, ValueOf(d, c).value), true)), cs + [c], param, op)
  {
    MergeCondition(query, c, ValueOf(d, c).value, param, op);
    assert (cs + [c])[..|cs|] == cs;
  }

  lemma PrintsInit(d: Decoders, ops: seq<Operator>, qs: seq<string>, cs: seq<Condition>)
    requires Prints(d, ops, qs, cs) && qs != []
    ensures Prints(d, ops, qs[..|qs| - 1], cs[..|cs| - 1])
  {
  }

  // What is known of a list: it holds the last values, or fails for want of one.
  ghost predicate FitsConditions(d: Decoders, r: Result, cs: seq<Condition>, param: string, op: string) {
    if HaveValues(d, cs) then HoldsLast(d, r, cs, param, op) else r.Error?
  }

  lemma FitsNext(d: Decoders, ops: seq<Operator>, query: Json, cs: seq<Condition>, q: string, c: Condition,
                 param: string, op: string)
    requires InOrder(ops) && forall o <- ops :: o.symbol != "" && AllOpChars(o.symbol)
    requires HaveValues(d, cs) && HoldsLast(d, Ok(query), cs, param, op) && d.json(q).None? && IsPrinted(ops, q, c)
    ensures FitsConditions(d, Merged(d, ops, query, q), cs + [c], param, op)
  {
    PrintedIsMerged(d, ops, query, q, c);
    if ValueOf(d, c).Some? {
      HoldsLastNext(d, query, cs, c, param, op);
    } else {
      assert (cs + [c])[|cs|] == c;
    }
  }

  lemma {:induction false} FoldKeepsConditions(d: Decoders, ops: seq<Operator>, qs: seq<string>, cs: seq<Condition>,
                                               param: string, op: string)
    requires InOrder(ops) && (forall o <- ops :: o.symbol != "" && AllOpChars(o.symbol)) && Prints(d, ops, qs, cs)
    ensures FitsConditions(d, QueryOf(d, ops, qs), cs, param, op)
    decreases |qs|
  {
    if qs == [] {
      assert At(EMPTY, [param, op]) == Absent;
    } else {
      var n := |qs| - 1;
      PrintsInit(d, ops, qs, cs);
      FoldKeepsConditions(d, ops, qs[..n], cs[..n], param, op);
      QueryNext(d, ops, qs, n);
      assert qs[..n + 1] == qs && cs == cs[..n] + [cs[n]];
      if HaveValues(d, cs[..n]) {
        FitsNext(d, ops, QueryOf(d, ops, qs[..n]).query, cs[..n], qs[n], cs[n], param, op);
      }
    }
  }

  // Each parameter and operator in the list is kept, with the value given last; the list fails
  // exactly when a "gsd" value is no number.
  lemma QueryKeepsConditions(d: Decoders, qs: seq<string>, cs: seq<Condition>, param: string, op: string)
    requires Prints(d, OPS, qs, cs)
    ensures forall o <- OPS :: o.symbol != ""
    ensures if HaveValues(d, cs) then HoldsLast(d, QueryOf(d, OPS, qs), cs, param, op) else QueryOf(d, OPS, qs).Error?
  {
    OpsAreInOrder();
    FoldKeepsConditions(d, OPS, qs, cs, param, op);
  }
}
