/**
 The walk that spread a nested configuration over dotted rows, keeping values at known keys
 whole, and the theorem that the startup repair undoes it for a dictionary it spread.
 */
module ConfigFlatten {
  import opened Wrappers
  import opened JsonTrees
  import opened Strings
  import opened ConfigRepair
  import opened ConfigStartup

  // The row key that the walk gives to the value at q.
  function WalkKey(prefix: string, q: Path): string
    requires q != []
    decreases |q|
  {
    if |q| == 1 then Under(prefix, q[0]) else WalkKey(Under(prefix, q[0]), q[1..])
  }

  function ValueAt(t: Json, q: Path): Option<Json> {
    if q == [] then Some(t)
    else if t.Dict? && q[0] in t.fields then ValueAt(t.fields[q[0]], q[1..])
    else None
  }

  // The walk makes a row of the value at q: the first one on the way that is no dictionary or
  // stands at a known key.
  ghost predicate StopsAt(t: Json, prefix: string, known: set<string>, q: Path)
    decreases |q|
  {
    && q != [] && t.Dict? && q[0] in t.fields
    && var path, value := Under(prefix, q[0]), t.fields[q[0]];
       if path in known || !value.Dict? then |q| == 1 else StopsAt(value, path, known, q[1..])
  }

  // Below the given top-level keys, every value at which the walk stops has its row key among
  // the rows, and every row holds such a value with that key.
  ghost predicate WalkedRows(t: Json, keys: set<string>, prefix: string, known: set<string>, rows: Store) {
    && (forall q :: q != [] && q[0] in keys && StopsAt(t, prefix, known, q) ==> WalkKey(prefix, q) in rows)
    && (forall k <- rows :: exists q :: RowIsAt(t, keys, prefix, known, rows, k, q))
  }

  ghost predicate RowIsAt(t: Json, keys: set<string>, prefix: string, known: set<string>, rows: Store,
                          k: string, q: Path)
    requires k in rows
  {
    q != [] && q[0] in keys && StopsAt(t, prefix, known, q) && k == WalkKey(prefix, q) && ValueAt(t, q) == Some(rows[k])
  }

  method WalkBlob(data: Json, prefix: string, known: set<string>) returns (rows: Store)
    requires data.Dict?
    ensures WalkedRows(data, data.fields.Keys, prefix, known, rows)
    decreases data
  {
    rows := map[];
    var todo := data.fields.Keys;
    while todo != {}
      invariant todo <= data.fields.Keys
      invariant WalkedRows(data, data.fields.Keys - todo, prefix, known, rows)
    {
      var key :| key in todo;
      var value := data.fields[key];
      var path := Under(prefix, key);
      ghost var before, done := rows, data.fields.Keys - todo;
      if path in known || !value.Dict? {
        rows := rows[path := value];
        RowAdded(data, done, prefix, known, before, key);
      } else {
        var below := WalkBlob(value, path, known);
        rows := rows + below;
        RowsBelowAdded(data, done, prefix, known, before, key, below);
      }
      todo := todo - {key};
      assert data.fields.Keys - todo == done + {key};
    }
    assert data.fields.Keys - todo == data.fields.Keys;
  }

  lemma RowAdded(t: Json, done: set<string>, prefix: string, known: set<string>, rows: Store, key: string)
    requires t.Dict? && WalkedRows(t, done, prefix, known, rows)
    requires key in t.fields && (Under(prefix, key) in known || !t.fields[key].Dict?)
    ensures WalkedRows(t, done + {key}, prefix, known, rows[Under(prefix, key) := t.fields[key]])
  {
    var here, rows' := [key], rows[Under(prefix, key) := t.fields[key]];
    assert here[1..] == [];
    forall q | q != [] && q[0] in done + {key} && StopsAt(t, prefix, known, q) ensures WalkKey(prefix, q) in rows' {
      assert q[0] == key ==> q == here;
    }
    forall k | k in rows' ensures exists q :: RowIsAt(t, done + {key}, prefix, known, rows', k, q) {
      if k == Under(prefix, key) {
        assert RowIsAt(t, done + {key}, prefix, known, rows', k, here);
      } else {
        var q :| RowIsAt(t, done, prefix, known, rows, k, q);
        assert RowIsAt(t, done + {key}, prefix, known, rows', k, q);
      }
    }
  }

  // A path below a key is the same from either level.
  lemma WalkBelow(t: Json, prefix: string, known: set<string>, key: string, q: Path)
    requires t.Dict? && key in t.fields && t.fields[key].Dict? && Under(prefix, key) !in known && q != []
    ensures WalkKey(prefix, [key] + q) == WalkKey(Under(prefix, key), q)
    ensures StopsAt(t, prefix, known, [key] + q) <==> StopsAt(t.fields[key], Under(prefix, key), known, q)
    ensures ValueAt(t, [key] + q) == ValueAt(t.fields[key], q)
  {
    assert ([key] + q)[1..] == q;
  }

  lemma ValueBelowHasItsKey(t: Json, prefix: string, known: set<string>, key: string, below: Store, q: Path)
    requires t.Dict? && key in t.fields && t.fields[key].Dict? && Under(prefix, key) !in known
    requires WalkedRows(t.fields[key], t.fields[key].fields.Keys, Under(prefix, key), known, below)
    requires q != [] && q[0] == key && StopsAt(t, prefix, known, q)
    ensures WalkKey(prefix, q) in below
  {
    var r := q[1..];
    assert StopsAt(t.fields[key], Under(prefix, key), known, r);
    assert q == [key] + r;
    WalkBelow(t, prefix, known, key, r);
  }

  lemma RowsBelowAdded(t: Json, done: set<string>, prefix: string, known: set<string>, rows: Store, key: string,
                       below: Store)
    requires t.Dict? && WalkedRows(t, done, prefix, known, rows)
    requires key in t.fields && t.fields[key].Dict? && Under(prefix, key) !in known
    requires WalkedRows(t.fields[key], t.fields[key].fields.Keys, Under(prefix, key), known, below)
    ensures WalkedRows(t, done + {key}, prefix, known, rows + below)
  {
    var child, path := t.fields[key], Under(prefix, key);
    forall q | q != [] && q[0] in done + {key} && StopsAt(t, prefix, known, q)
      ensures WalkKey(prefix, q) in rows + below
    {
      if q[0] == key {
        ValueBelowHasItsKey(t, prefix, known, key, below, q);
      }
    }
    forall k | k in rows + below ensures exists q :: RowIsAt(t, done + {key}, prefix, known, rows + below, k, q) {
      if k in below {
        var r :| RowIsAt(child, child.fields.Keys, path, known, below, k, r);
        WalkBelow(t, prefix, known, key, r);
        assert ([key] + r)[0] == key;
        assert RowIsAt(t, done + {key}, prefix, known, rows + below, k, [key] + r);
      } else {
        var q :| RowIsAt(t, done, prefix, known, rows, k, q);
        assert RowIsAt(t, done + {key}, prefix, known, rows + below, k, q);
      }
    }
  }

  // ---- When no value overwrites another ----

  // No two of the values have the same row key.
  ghost predicate KeysApart(t: Json, prefix: string, known: set<string>) {
    forall q, r :: StopsAt(t, prefix, known, q) && StopsAt(t, prefix, known, r) && q != r ==>
                     WalkKey(prefix, q) != WalkKey(prefix, r)
  }

  // Then every value has its own row.
  lemma EveryValueHasItsRow(t: Json, prefix: string, known: set<string>, rows: Store, q: Path)
    requires t.Dict? && WalkedRows(t, t.fields.Keys, prefix, known, rows) && KeysApart(t, prefix, known)
    requires StopsAt(t, prefix, known, q)
    ensures WalkKey(prefix, q) in rows && Some(rows[WalkKey(prefix, q)]) == ValueAt(t, q)
  {
    var k := WalkKey(prefix, q);
    var r :| RowIsAt(t, t.fields.Keys, prefix, known, rows, k, r);
  }

  // Below a prefix, the walk joins the path with dots.
  lemma {:induction false} WalkKeyIsPrinted(prefix: string, q: Path)
    requires q != [] && prefix != ""
    ensures WalkKey(prefix, q) == Printed(prefix, q)
    decreases |q|
  {
    if |q| > 1 {
      WalkKeyIsPrinted(Under(prefix, q[0]), q[1..]);
    }
  }

  // At the top there is no prefix; a top-level key that is not empty acts as one.
  lemma WalkKeyAtTop(q: Path)
    requires q != [] && q[0] != ""
    ensures WalkKey("", q) == Join(q, '.')
  {
    if |q| > 1 {
      WalkKeyIsPrinted(q[0], q[1..]);
    }
  }

  lemma {:induction false} StopsInside(t: Json, prefix: string, known: set<string>, q: Path)
    requires StopsAt(t, prefix, known, q)
    ensures At(t, q) != Absent
    decreases |q|
  {
    if |q| > 1 {
      StopsInside(t.fields[q[0]], Under(prefix, q[0]), known, q[1..]);
    }
  }

  // Without dots in keys, and without an empty key at the top, all row keys are apart.
  lemma DotFreeIsApart(t: Json, prefix: string, known: set<string>)
    requires t.Dict? && DotFree(t) && (prefix == "" ==> "" !in t.fields)
    ensures KeysApart(t, prefix, known)
  {
    forall q, r | StopsAt(t, prefix, known, q) && StopsAt(t, prefix, known, r) && q != r
      ensures WalkKey(prefix, q) != WalkKey(prefix, r)
    {
      DotFreeKeySplits(t, prefix, known, q);
      DotFreeKeySplits(t, prefix, known, r);
    }
  }

  // The path can be read off the row key.
  lemma DotFreeKeySplits(t: Json, prefix: string, known: set<string>, q: Path)
    requires DotFree(t) && StopsAt(t, prefix, known, q) && (prefix == "" ==> "" !in t.fields)
    ensures var key := WalkKey(prefix, q);
            if prefix == "" then Strings.Split(key, '.') == q
            else |key| > |prefix| && Strings.Split(key[|prefix| + 1..], '.') == q
  {
    StopsInside(t, prefix, known, q);
    DotFreePath(t, q);
    SplitJoin(q, '.');
    if prefix == "" {
      WalkKeyAtTop(q);
    } else {
      WalkKeyIsPrinted(prefix, q);
      assert Printed(prefix, q)[|prefix| + 1..] == Join(q, '.');
    }
  }

  // Where no key below the prefix is known, the walk stops exactly at the leaves.
  lemma {:induction false} StopsAtLeaves(t: Json, prefix: string, known: set<string>, q: Path)
    requires t.Dict? && prefix != "" && forall k <- known :: !HasPrefix(prefix, k)
    ensures StopsAt(t, prefix, known, q) <==> At(t, q).LeafHere?
    ensures StopsAt(t, prefix, known, q) ==> ValueAt(t, q) == Some(Leaf(At(t, q).text))
    decreases |q|
  {
    if q != [] && q[0] in t.fields {
      var path := Under(prefix, q[0]);
      assert HasPrefix(prefix, path);
      if t.fields[q[0]].Dict? {
        assert HasPrefix(prefix, path + ".") && forall k <- known :: HasPrefix(path, k) ==> HasPrefix(prefix, k);
        StopsAtLeaves(t.fields[q[0]], path, known, q[1..]);
      } else if |q| == 1 {
        assert q[1..] == [];
      }
    }
  }

  // Rows that the repair can read are apart, dots in connection keys included.
  lemma ReadableIsApart(f: Family, t: Json, prefix: string, known: set<string>)
    requires t.Dict? && prefix != "" && Readable(f, prefix, t) && forall k <- known :: !HasPrefix(prefix, k)
    ensures KeysApart(t, prefix, known)
  {
    forall q, r | StopsAt(t, prefix, known, q) && StopsAt(t, prefix, known, r) && q != r
      ensures WalkKey(prefix, q) != WalkKey(prefix, r)
    {
      StopsAtLeaves(t, prefix, known, q);
      StopsAtLeaves(t, prefix, known, r);
      WalkKeyIsPrinted(prefix, q);
      WalkKeyIsPrinted(prefix, r);
      assert TargetPath(f, Printed(prefix, q)) == Some(q) && TargetPath(f, Printed(prefix, r)) == Some(r);
    }
  }

  // ---- The round trip ----

  // The store holds the rows of t, spread under a prefix of family f, next to others that are
  // not f's.
  ghost predicate Spilled(f: Family, prefix: string, known: set<string>, t: Json, rows: Store, others: Store) {
    && prefix in Prefixes(f) && prefix != "" && (forall k <- known :: !HasPrefix(prefix, k))
    && t.Dict? && NoEmptyDicts(t) && Readable(f, prefix, t)
    && WalkedRows(t, t.fields.Keys, prefix, known, rows)
    && (forall k <- others :: !Owns(f, k)) && Current(others, f) == EMPTY
  }

  lemma RowIsOwned(f: Family, prefix: string, known: set<string>, t: Json, rows: Store, others: Store, k: string)
    requires Spilled(f, prefix, known, t, rows, others) && k in rows
    ensures Owns(f, k)
  {
    var q :| RowIsAt(t, t.fields.Keys, prefix, known, rows, k, q);
    StopsAtLeaves(t, prefix, known, q);
    WalkKeyIsPrinted(prefix, q);
    assert TargetPath(f, Printed(prefix, q)) == Some(q);
  }

  lemma RowsAreSpread(f: Family, prefix: string, known: set<string>, t: Json, rows: Store, others: Store)
    requires Spilled(f, prefix, known, t, rows, others)
    ensures Spread(f, prefix, t, others + rows)
  {
    ReadableIsApart(f, t, prefix, known);
    forall q | At(t, q).LeafHere?
      ensures Printed(prefix, q) in rows && rows[Printed(prefix, q)] == Leaf(At(t, q).text)
    {
      StopsAtLeaves(t, prefix, known, q);
      WalkKeyIsPrinted(prefix, q);
      EveryValueHasItsRow(t, prefix, known, rows, q);
    }
    forall k | k in rows ensures exists q :: At(t, q).LeafHere? && k == Printed(prefix, q) {
      var q :| RowIsAt(t, t.fields.Keys, prefix, known, rows, k, q);
      StopsAtLeaves(t, prefix, known, q);
      WalkKeyIsPrinted(prefix, q);
    }
  }

  // Flattening one family's dictionary and repairing the whole store restores the dictionary
  // exactly and leaves no flattened row of it; to every other key the repair does what it
  // does without those rows. The other families may hold any rows, and rows may come in any
  // order.
  lemma RepairUndoesFlattening(fams: seq<Family>, i: nat, prefix: string, known: set<string>, t: Json, rows: Store,
                               others: Store, listings: seq<seq<string>>)
    requires Unambiguous(fams) && i < |fams| && Spilled(fams[i], prefix, known, t, rows, others)
    requires ListsAll(fams, others + rows, listings)
    ensures var without := listings[i := []];
            && ListsAll(fams, others, without)
            && RepairAll(fams, others + rows, listings) == RepairAll(fams, others, without)[fams[i].key := t]
  {
    var s, without := others + rows, listings[i := []];
    ListedWithout(fams, i, prefix, known, t, rows, others, listings);
    var after, bare := RepairAll(fams, s, listings), RepairAll(fams, others, without);
    RestoredKey(fams, i, prefix, known, t, rows, others, listings);
    forall k | k != fams[i].key
      ensures k in after <==> k in bare
      ensures k in after ==> after[k] == bare[k]
    {
      OtherKeyUnmoved(fams, i, prefix, known, t, rows, others, listings, k);
    }
    assert after == bare[fams[i].key := t];
  }

  // No row of the flattened dictionary is left.
  lemma NoFlattenedRowIsLeft(fams: seq<Family>, i: nat, prefix: string, known: set<string>, t: Json, rows: Store,
                             others: Store, listings: seq<seq<string>>, k: string)
    requires Unambiguous(fams) && i < |fams| && Spilled(fams[i], prefix, known, t, rows, others)
    requires ListsAll(fams, others + rows, listings)
    ensures Owns(fams[i], k) ==> k !in RepairAll(fams, others + rows, listings)
  {
    if Owns(fams[i], k) {
      OneOwner(fams, i, i, k);
      var without := listings[i := []];
      RepairUndoesFlattening(fams, i, prefix, known, t, rows, others, listings);
      if k in RepairAll(fams, others, without) {
        RepairAddsNoRow(fams, others, without, k);
        var f :| f in fams && k == f.key;
        var j :| 0 <= j < |fams| && fams[j] == f;
        OneOwner(fams, i, j, k);
      }
    }
  }

  // Family j's own key and rows are not among the flattened rows of family i.
  lemma OthersOwn(fams: seq<Family>, i: nat, j: nat, prefix: string, known: set<string>, t: Json, rows: Store,
                  others: Store, k: string)
    requires Unambiguous(fams) && i < |fams| && j < |fams| && Spilled(fams[i], prefix, known, t, rows, others)
    requires k in rows
    ensures k != fams[j].key && (Owns(fams[j], k) ==> j == i) && k !in others
  {
    RowIsOwned(fams[i], prefix, known, t, rows, others, k);
    OneOwner(fams, i, j, k);
  }

  lemma ListedWithout(fams: seq<Family>, i: nat, prefix: string, known: set<string>, t: Json, rows: Store,
                      others: Store, listings: seq<seq<string>>)
    requires Unambiguous(fams) && i < |fams| && Spilled(fams[i], prefix, known, t, rows, others)
    requires ListsAll(fams, others + rows, listings)
    ensures ListsAll(fams, others, listings[i := []])
  {
    var without := listings[i := []];
    forall j | 0 <= j < |fams| ensures Lists(fams[j], others, without[j]) {
      if j != i {
        assert Lists(fams[j], others + rows, listings[j]);
        forall k | k in listings[j] && Owns(fams[j], k) ensures k in others {
          if k in rows {
            OthersOwn(fams, i, j, prefix, known, t, rows, others, k);
          }
        }
      }
    }
  }

  lemma RestoredKey(fams: seq<Family>, i: nat, prefix: string, known: set<string>, t: Json, rows: Store,
                    others: Store, listings: seq<seq<string>>)
    requires Unambiguous(fams) && i < |fams| && Spilled(fams[i], prefix, known, t, rows, others)
    requires ListsAll(fams, others + rows, listings)
    ensures var after := RepairAll(fams, others + rows, listings); fams[i].key in after && after[fams[i].key] == t
  {
    var s, f := others + rows, fams[i];
    if f.key in rows {
      OthersOwn(fams, i, i, prefix, known, t, rows, others, f.key);
    }
    assert Current(s, f) == EMPTY;
    RowsAreSpread(f, prefix, known, t, rows, others);
    RepairRestoresTree(f, prefix, t, s, listings[i]);
    assert RepairFamily(f, s, listings[i]).0[f.key] == t;
    KeyAfterRepair(fams, s, listings, i);
  }

  // A family other than i fares as if the flattened rows were not there.
  lemma OtherFamilyUnmoved(fams: seq<Family>, i: nat, j: nat, prefix: string, known: set<string>, t: Json, rows: Store,
                           others: Store, listings: seq<seq<string>>)
    requires Unambiguous(fams) && i < |fams| && j < |fams| && j != i
    requires Spilled(fams[i], prefix, known, t, rows, others)
    requires ListsAll(fams, others + rows, listings) && ListsAll(fams, others, listings[i := []])
    ensures Current(others + rows, fams[j]) == Current(others, fams[j])
    ensures Outcome(fams, others + rows, listings, j) == Outcome(fams, others, listings[i := []], j)
  {
    var s, f := others + rows, fams[j];
    if f.key in rows {
      OthersOwn(fams, i, j, prefix, known, t, rows, others, f.key);
    }
    forall k | k in listings[j] && Owns(f, k) ensures k in others && s[k] == others[k] {
      assert Lists(f, s, listings[j]);
      if k in rows {
        OthersOwn(fams, i, j, prefix, known, t, rows, others, k);
      }
    }
    VisitRowsReadsOwnRows(f, s, others, Current(s, f), listings[j]);
  }

  lemma OtherKeyUnmoved(fams: seq<Family>, i: nat, prefix: string, known: set<string>, t: Json, rows: Store,
                        others: Store, listings: seq<seq<string>>, k: string)
    requires Unambiguous(fams) && i < |fams| && Spilled(fams[i], prefix, known, t, rows, others)
    requires ListsAll(fams, others + rows, listings) && ListsAll(fams, others, listings[i := []])
    requires k != fams[i].key
    ensures var after, bare := RepairAll(fams, others + rows, listings), RepairAll(fams, others, listings[i := []]);
            (k in after <==> k in bare) && (k in after ==> after[k] == bare[k])
  {
    var s, without := others + rows, listings[i := []];
    RepairAllByKey(fams, s, listings, k);
    RepairAllByKey(fams, others, without, k);
    forall j: nat | j < |fams| && j != i
      ensures Current(s, fams[j]) == Current(others, fams[j])
      ensures Outcome(fams, s, listings, j) == Outcome(fams, others, without, j)
    {
      OtherFamilyUnmoved(fams, i, j, prefix, known, t, rows, others, listings);
    }
    if k in rows {
      FlattenedRowGoes(fams, i, prefix, known, t, rows, others, listings, k);
    } else {
      assert Owns(fams[i], k) ==> k !in s;
    }
  }

  lemma FlattenedRowGoes(fams: seq<Family>, i: nat, prefix: string, known: set<string>, t: Json, rows: Store,
                         others: Store, listings: seq<seq<string>>, k: string)
    requires Unambiguous(fams) && i < |fams| && Spilled(fams[i], prefix, known, t, rows, others)
    requires ListsAll(fams, others + rows, listings) && ListsAll(fams, others, listings[i := []])
    requires k in rows
    ensures k !in RepairAll(fams, others + rows, listings) && k !in RepairAll(fams, others, listings[i := []])
  {
    var s, f := others + rows, fams[i];
    RowIsOwned(f, prefix, known, t, rows, others, k);
    OthersOwn(fams, i, i, prefix, known, t, rows, others, k);
    if f.key in rows {
      OthersOwn(fams, i, i, prefix, known, t, rows, others, f.key);
    }
    RowsAreSpread(f, prefix, known, t, rows, others);
    RepairRestoresTree(f, prefix, t, s, listings[i]);
    VisitRowsAssignsAll(f, s, EMPTY, listings[i]);
    RepairAllByKey(fams, s, listings, k);
    if k in RepairAll(fams, others, listings[i := []]) {
      RepairAddsNoRow(fams, others, listings[i := []], k);
      var g :| g in fams && k == g.key;
      var j :| 0 <= j < |fams| && fams[j] == g;
      OthersOwn(fams, i, j, prefix, known, t, rows, others, k);
    }
  }
}
