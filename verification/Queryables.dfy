/**
 Merging the queryables of several collections: a key whose definitions differ is dropped,
 by a loop that removes it from both sides before adding the second side to the first.
 */
module Queryables {
  import opened Wrappers

  type Key = string
  type Definition = string

  datatype Schema = Schema(properties: map<Key, Definition>, additional: bool)

  // One more collection merged in.
  function Merged(m: map<Key, Definition>, r: map<Key, Definition>): map<Key, Definition> {
    map k | k in m.Keys + r.Keys && !(k in m && k in r && m[k] != r[k]) :: if k in r then r[k] else m[k]
  }

  function MergedAll(first: map<Key, Definition>, rest: seq<map<Key, Definition>>): map<Key, Definition> {
    if rest == [] then first else Merged(MergedAll(first, rest[..|rest| - 1]), rest[|rest| - 1])
  }

  // The flag that the loop combines is never stored in the result.
  function MergedSchemas(first: Schema, rest: seq<Schema>): Schema {
    Schema(MergedAll(first.properties, Properties(rest)), first.additional)
  }

  // The inner loop and the update: keys defined differently are popped from both sides.
  method MergeOne(response: map<Key, Definition>, resp: map<Key, Definition>) returns (r: map<Key, Definition>)
    ensures r == Merged(response, resp)
  {
    var left, right := response, resp;
    var common := resp.Keys * response.Keys;
    var todo := common;
    while todo != {}
      invariant todo <= common
      invariant left == map k | k in response && (k in common - todo ==> response[k] == resp[k]) :: response[k]
      invariant right == map k | k in resp && (k in common - todo ==> response[k] == resp[k]) :: resp[k]
    {
      var k :| k in todo;
      if right[k] != left[k] {
        right := right - {k};
        left := left - {k};
      }
      todo := todo - {k};
    }
    r := left + right;
  }

  method MergeQueryables(first: Schema, rest: seq<Schema>) returns (merged: Schema)
    ensures merged == MergedSchemas(first, rest)
  {
    var response := first.properties;
    var additional := first.additional;
    for i := 0 to |rest|
      invariant response == MergedAll(first.properties, Properties(rest)[..i])
    {
      additional := additional && rest[i].additional;
      response := MergeOne(response, rest[i].properties);
      assert Properties(rest)[..i + 1][..i] == Properties(rest)[..i];
    }
    assert Properties(rest)[..|rest|] == Properties(rest);
    return Schema(response, first.additional);
  }

  function Properties(schemas: seq<Schema>): (r: seq<map<Key, Definition>>)
    ensures |r| == |schemas| && forall i :: 0 <= i < |r| ==> r[i] == schemas[i].properties
  {
    seq(|schemas|, i requires 0 <= i < |schemas| => schemas[i].properties)
  }

  // ---- One key at a time ----

  function Get(m: map<Key, Definition>, k: Key): Option<Definition> {
    if k in m then Some(m[k]) else None
  }

  // A definition meets what was kept for its key so far.
  function Meet(kept: Option<Definition>, d: Option<Definition>): Option<Definition> {
    if d.None? then kept else if kept.None? || kept == d then d else None
  }

  // What is kept of the key's own definitions, in order.
  function Kept(ds: seq<Option<Definition>>): Option<Definition> {
    if ds == [] then None else Meet(Kept(ds[..|ds| - 1]), ds[|ds| - 1])
  }

  function DefinitionsOf(k: Key, first: map<Key, Definition>, rest: seq<map<Key, Definition>>)
    : seq<Option<Definition>>
  {
    if rest == [] then [Get(first, k)]
    else DefinitionsOf(k, first, rest[..|rest| - 1]) + [Get(rest[|rest| - 1], k)]
  }

  // The outcome for a key depends on that key's definitions alone.
  lemma {:induction false} KeysAreIndependent(k: Key, first: map<Key, Definition>, rest: seq<map<Key, Definition>>)
    ensures Get(MergedAll(first, rest), k) == Kept(DefinitionsOf(k, first, rest))
    decreases |rest|
  {
    if rest == [] {
      assert [Get(first, k)][..0] == [];
    } else {
      KeysAreIndependent(k, first, rest[..|rest| - 1]);
      var init := DefinitionsOf(k, first, rest[..|rest| - 1]);
      assert DefinitionsOf(k, first, rest)[..|init|] == init;
    }
  }

  // ---- The documented rule, and when it holds ----

  ghost predicate Unanimous(ds: seq<Option<Definition>>, d: Definition) {
    Some(d) in ds && forall e <- ds :: e.None? || e == Some(d)
  }

  // Documented: a key is kept when all its definitions agree, and dropped otherwise.
  ghost predicate AsDocumented(ds: seq<Option<Definition>>) {
    forall d :: Kept(ds) == Some(d) <==> Unanimous(ds, d)
  }

  // ---- What the fold computes ----

  // The definitions that are given, in order.
  function Given(ds: seq<Option<Definition>>): seq<Definition> {
    if ds == [] then []
    else
      var init, last := Given(ds[..|ds| - 1]), ds[|ds| - 1];
      if last.Some? then init + [last.value] else init
  }

  // How many definitions at the end differ, each from the one before it.
  function Changes(es: seq<Definition>): nat {
    var n := |es|;
    if n < 2 || es[n - 1] == es[n - 2] then 0 else 1 + Changes(es[..n - 1])
  }

  predicate Agree(es: seq<Definition>) {
    forall i, j :: 0 <= i < |es| && 0 <= j < |es| ==> es[i] == es[j]
  }

  // The last definition is kept after an even number of changes, and the key is dropped after
  // an odd one.
  lemma {:induction false} KeptIs(ds: seq<Option<Definition>>)
    ensures var es := Given(ds);
            Kept(ds) == if es != [] && Changes(es) % 2 == 0 then Some(es[|es| - 1]) else None
    decreases |ds|
  {
    if ds != [] {
      var init, last := ds[..|ds| - 1], ds[|ds| - 1];
      KeptIs(init);
      if last.Some? {
        ChangesNext(Given(init), last.value);
      }
    }
  }

  lemma ChangesNext(es: seq<Definition>, e: Definition)
    ensures Changes(es + [e]) == if es == [] || es[|es| - 1] == e then 0 else 1 + Changes(es)
  {
    assert (es + [e])[..|es|] == es;
  }

  lemma {:induction false} AgreeingDoNotChange(es: seq<Definition>)
    requires Agree(es)
    ensures Changes(es) == 0
  {
  }

  lemma {:induction false} GivenAre(ds: seq<Option<Definition>>, d: Definition)
    ensures d in Given(ds) <==> Some(d) in ds
    decreases |ds|
  {
    if ds != [] {
      GivenAre(ds[..|ds| - 1], d);
      assert ds == ds[..|ds| - 1] + [ds[|ds| - 1]];
    }
  }

  lemma UnanimousIs(ds: seq<Option<Definition>>, d: Definition)
    ensures Unanimous(ds, d) <==> d in Given(ds) && Agree(Given(ds))
  {
    var es := Given(ds);
    forall e ensures e in es <==> Some(e) in ds {
      GivenAre(ds, e);
    }
    if d in es && Agree(es) {
      forall e | e in ds ensures e.None? || e == Some(d) {
        assert e.Some? ==> e.value in es;
      }
    }
    if Unanimous(ds, d) {
      forall i | 0 <= i < |es| ensures es[i] == d {
        assert es[i] in es;
      }
    }
  }

  // The rule holds exactly when all given definitions agree or the changes at the end are odd.
  lemma DocumentedIff(ds: seq<Option<Definition>>)
    ensures AsDocumented(ds) <==> Agree(Given(ds)) || Changes(Given(ds)) % 2 == 1
  {
    var es := Given(ds);
    KeptIs(ds);
    forall d ensures Unanimous(ds, d) <==> d in es && Agree(es) {
      UnanimousIs(ds, d);
    }
    if Agree(es) {
      AgreeingDoNotChange(es);
    }
    assert es != [] ==> es[|es| - 1] in es;
  }

  // The i-th and the j-th collection define the key, and no other one does.
  ghost predicate TwoDefine(ds: seq<Option<Definition>>, i: nat, j: nat) {
    && i < j < |ds| && ds[i].Some? && ds[j].Some?
    && forall n :: 0 <= n < |ds| && n != i && n != j ==> ds[n].None?
  }

  lemma {:induction false} NoneGiven(ds: seq<Option<Definition>>)
    requires forall d <- ds :: d.None?
    ensures Given(ds) == []
    decreases |ds|
  {
    if ds != [] {
      NoneGiven(ds[..|ds| - 1]);
      assert ds[|ds| - 1] in ds;
    }
  }

  lemma {:induction false} OneGiven(ds: seq<Option<Definition>>, i: nat)
    requires i < |ds| && ds[i].Some? && forall n :: 0 <= n < |ds| && n != i ==> ds[n].None?
    ensures Given(ds) == [ds[i].value]
    decreases |ds|
  {
    var n := |ds| - 1;
    if i == n {
      NoneGiven(ds[..n]);
    } else {
      OneGiven(ds[..n], i);
    }
  }

  lemma {:induction false} TwoGiven(ds: seq<Option<Definition>>, i: nat, j: nat)
    requires TwoDefine(ds, i, j)
    ensures Given(ds) == [ds[i].value, ds[j].value]
    decreases |ds|
  {
    var n := |ds| - 1;
    if j == n {
      OneGiven(ds[..n], i);
    } else {
      TwoGiven(ds[..n], i, j);
    }
  }

  // A key with two definitions that differ is dropped, among any number of collections.
  lemma TwoDifferentAreDropped(k: Key, first: map<Key, Definition>, rest: seq<map<Key, Definition>>, i: nat, j: nat)
    requires var ds := DefinitionsOf(k, first, rest); TwoDefine(ds, i, j) && ds[i] != ds[j]
    ensures k !in MergedAll(first, rest)
  {
    KeysAreIndependent(k, first, rest);
    TwoAreDropped(DefinitionsOf(k, first, rest), i, j);
  }

  lemma TwoAreDropped(ds: seq<Option<Definition>>, i: nat, j: nat)
    requires TwoDefine(ds, i, j) && ds[i] != ds[j]
    ensures Kept(ds).None?
  {
    var d, e := ds[i].value, ds[j].value;
    TwoGiven(ds, i, j);
    assert [d] + [e] == [d, e];
    ChangesNext([d], e);
    assert Changes([d]) == 0;
    KeptIs(ds);
  }

  // Three collections, the second one disagreeing with the first: the third brings the key back.
  lemma ThirdBringsItBack(k: Key, d: Definition, e: Definition)
    requires d != e
    ensures MergedAll(map[k := d], [map[k := e], map[k := d]]) == map[k := d]
  {
    var first, rest := map[k := d], [map[k := e], map[k := d]];
    assert rest[..1] == [map[k := e]] && rest[..1][..0] == [];
    assert Merged(first, rest[0]) == map[];
    assert MergedAll(first, rest[..1]) == map[];
    assert Merged(map[], rest[1]) == map[k := d];
  }

  // ---- The flag for additional properties ----

  // Documented: false if any collection forbids additional properties.
  predicate AllAllow(first: Schema, rest: seq<Schema>) {
    first.additional && forall s <- rest :: s.additional
  }

  // The result's flag is as documented exactly when a later collection does not forbid what
  // the first one allows.
  lemma FlagAsDocumentedIff(first: Schema, rest: seq<Schema>)
    ensures (MergedSchemas(first, rest).additional <==> AllAllow(first, rest)) <==>
            (first.additional ==> forall s <- rest :: s.additional)
  {
  }

  // The second of two collections forbids them; the result allows them.
  lemma FlagIsNotCombined()
    ensures var first, second := Schema(map[], true), Schema(map[], false);
            MergedSchemas(first, [second]).additional && !AllAllow(first, [second])
  {
    var second := Schema(map[], false);
    assert second in [second];
  }
}
