/**
 The per-key configuration store at startup: moving rows from one dotted prefix to another,
 rebuilding dictionary values whose entries a migration had spread over dotted rows, and
 seeding missing keys with defaults.

 A family is one dictionary-valued key with the older names its rows may still carry. The
 order in which the database returns rows is arbitrary, and a pattern query may return rows
 it should not, or the same row twice: a `listing` is any such answer.
 */
module ConfigRepair {
  import opened Wrappers
  import opened Sequences
  import opened JsonTrees
  import opened Strings
  import opened ApiFragment

  type Store = map<string, Json>

  // connectionFields: the field names known for API-connection keys, None for other keys.
  datatype Family = Family(key: string, aliases: seq<string>, connectionFields: Option<seq<string>>)

  function Prefixes(f: Family): seq<string> {
    [f.key] + f.aliases
  }

  // What follows the first prefix, with its dot, that the row's key starts with.
  function FragmentAfter(prefixes: seq<string>, rowKey: string): Option<string> {
    if prefixes == [] then None
    else if prefixes[0] + "." <= rowKey then Some(rowKey[|prefixes[0]| + 1..])
    else FragmentAfter(prefixes[1..], rowKey)
  }

  predicate Owns(f: Family, rowKey: string) {
    FragmentAfter(Prefixes(f), rowKey).Some?
  }

  // Where in the family's dictionary a row belongs, if that can be told from its key.
  function TargetPath(f: Family, rowKey: string): (path: Option<Path>)
    ensures path.Some? ==> Owns(f, rowKey) && path.value != []
    ensures path.Some? && f.connectionFields.Some? ==> |path.value| >= 2
  {
    match FragmentAfter(Prefixes(f), rowKey)
    case None => None
    case Some(fragment) =>
      if f.connectionFields.None? then Some(Strings.Split(fragment, '.'))
      else
        match SplitFragment(f.connectionFields.value, fragment)
        case None => None
        case Some(s) => Some([s.key] + s.path)
  }

  // A connection whose stored entry is not a dictionary is left alone.
  predicate Blocked(f: Family, t: Json, path: Path)
    requires t.Dict? && path != []
  {
    f.connectionFields.Some? && path[0] in t.fields && !t.fields[path[0]].Dict?
  }

  predicate Applies(f: Family, t: Json, rowKey: string)
    requires t.Dict?
  {
    TargetPath(f, rowKey).Some? && !Blocked(f, t, TargetPath(f, rowKey).value)
  }

  // The dictionary the repair starts from.
  function Current(s: Store, f: Family): (t: Json)
    ensures t.Dict?
  {
    if f.key in s && s[f.key].Dict? then s[f.key] else EMPTY
  }

  // A possible answer of the row query for f.
  ghost predicate Lists(f: Family, s: Store, listing: seq<string>) {
    && (forall k <- listing :: Owns(f, k) ==> k in s)
    && (forall k <- s :: Owns(f, k) ==> k in listing)
  }

  datatype Progress = Progress(tree: Json, orphans: seq<string>)

  function VisitRow(f: Family, s: Store, p: Progress, rowKey: string): (p': Progress)
    requires p.tree.Dict? && (Owns(f, rowKey) ==> rowKey in s)
    ensures p'.tree.Dict?
  {
    if Applies(f, p.tree, rowKey) then
      Progress(Assign(p.tree, TargetPath(f, rowKey).value, s[rowKey]), p.orphans + [rowKey])
    else p
  }

  function VisitRows(f: Family, s: Store, start: Json, listing: seq<string>): (p: Progress)
    requires start.Dict? && forall k <- listing :: Owns(f, k) ==> k in s
    ensures p.tree.Dict?
  {
    if listing == [] then Progress(start, [])
    else
      var n := |listing| - 1;
      VisitRow(f, s, VisitRows(f, s, start, listing[..n]), listing[n])
  }

  // The rows that a listing contributes, as paths and values.
  function AppliedRows(f: Family, s: Store, start: Json, listing: seq<string>): (rows: seq<Row>)
    requires start.Dict? && forall k <- listing :: Owns(f, k) ==> k in s
    ensures forall row <- rows :: row.path != []
  {
    if listing == [] then []
    else
      var n := |listing| - 1;
      var init := AppliedRows(f, s, start, listing[..n]);
      if Applies(f, start, listing[n]) then init + [Row(TargetPath(f, listing[n]).value, s[listing[n]])] else init
  }

  predicate IsRowOf(f: Family, s: Store, start: Json, listing: seq<string>, k: string, row: Row)
    requires start.Dict? && forall j <- listing :: Owns(f, j) ==> j in s
  {
    k in listing && Applies(f, start, k) && row == Row(TargetPath(f, k).value, s[k])
  }

  lemma {:induction false} AppliedRowsAre(f: Family, s: Store, start: Json, listing: seq<string>, row: Row)
    requires start.Dict? && forall k <- listing :: Owns(f, k) ==> k in s
    ensures row in AppliedRows(f, s, start, listing) <==> exists k :: IsRowOf(f, s, start, listing, k, row)
    decreases |listing|
  {
    if listing != [] {
      var n := |listing| - 1;
      AppliedRowsAre(f, s, start, listing[..n], row);
      IsRowOfOneMore(f, s, start, listing, row);
    }
  }

  lemma IsRowOfOneMore(f: Family, s: Store, start: Json, listing: seq<string>, row: Row)
    requires start.Dict? && listing != [] && forall k <- listing :: Owns(f, k) ==> k in s
    ensures var n := |listing| - 1;
            (exists k :: IsRowOf(f, s, start, listing, k, row)) <==>
              || (exists k :: IsRowOf(f, s, start, listing[..n], k, row))
              || (Applies(f, start, listing[n]) && row == Row(TargetPath(f, listing[n]).value, s[listing[n]]))
  {
    var n := |listing| - 1;
    assert listing == listing[..n] + [listing[n]];
    if k :| IsRowOf(f, s, start, listing[..n], k, row) {
      assert IsRowOf(f, s, start, listing, k, row);
    }
    if Applies(f, start, listing[n]) && row == Row(TargetPath(f, listing[n]).value, s[listing[n]]) {
      assert IsRowOf(f, s, start, listing, listing[n], row);
    }
    if k :| IsRowOf(f, s, start, listing, k, row) && k != listing[n] {
      assert IsRowOf(f, s, start, listing[..n], k, row);
    }
  }

  // The loop assigns the applicable rows in order. Whether a row applies does not change
  // while the loop runs, so it can be read off the starting dictionary.
  lemma {:induction false} VisitRowsAssignsAll(f: Family, s: Store, start: Json, listing: seq<string>)
    requires start.Dict? && forall k <- listing :: Owns(f, k) ==> k in s
    ensures var p := VisitRows(f, s, start, listing);
            && p.tree == AssignAll(start, AppliedRows(f, s, start, listing))
            && (forall k :: k in p.orphans <==> k in listing && Applies(f, start, k))
            && (forall k :: Applies(f, p.tree, k) <==> Applies(f, start, k))
    decreases |listing|
  {
    if listing != [] {
      var n := |listing| - 1;
      var k, p := listing[n], VisitRows(f, s, start, listing[..n]);
      VisitRowsAssignsAll(f, s, start, listing[..n]);
      assert listing == listing[..n] + [k];
      VisitKeepsApplies(f, s, p, k);
      OrphansAfterVisit(f, s, p, k);
      if Applies(f, start, k) {
        AssignAllNext(start, AppliedRows(f, s, start, listing[..n]), Row(TargetPath(f, k).value, s[k]));
      }
    }
  }

  lemma VisitKeepsApplies(f: Family, s: Store, p: Progress, rowKey: string)
    requires p.tree.Dict? && (Owns(f, rowKey) ==> rowKey in s)
    ensures forall k :: Applies(f, VisitRow(f, s, p, rowKey).tree, k) <==> Applies(f, p.tree, k)
  {
    if Applies(f, p.tree, rowKey) {
      forall k ensures Applies(f, VisitRow(f, s, p, rowKey).tree, k) <==> Applies(f, p.tree, k) {
        AssignKeepsApplies(f, p.tree, rowKey, s[rowKey], k);
      }
    }
  }

  lemma OrphansAfterVisit(f: Family, s: Store, p: Progress, rowKey: string)
    requires p.tree.Dict? && (Owns(f, rowKey) ==> rowKey in s)
    ensures forall k :: k in VisitRow(f, s, p, rowKey).orphans <==>
                          k in p.orphans || (k == rowKey && Applies(f, p.tree, k))
  {
  }

  lemma AssignAllNext(t: Json, rows: seq<Row>, row: Row)
    requires t.Dict? && row.path != [] && forall r <- rows :: r.path != []
    ensures AssignAll(t, rows + [row]) == Assign(AssignAll(t, rows), row.path, row.value)
  {
    assert (rows + [row])[..|rows|] == rows;
  }

  // Assigning one row changes for no row whether it applies.
  lemma AssignKeepsApplies(f: Family, t: Json, rowKey: string, value: Json, k: string)
    requires t.Dict? && Applies(f, t, rowKey)
    ensures Applies(f, Assign(t, TargetPath(f, rowKey).value, value), k) <==> Applies(f, t, k)
  {
  }

  lemma VisitRowsNext(f: Family, s: Store, start: Json, listing: seq<string>, n: nat)
    requires start.Dict? && (forall k <- listing :: Owns(f, k) ==> k in s) && n < |listing|
    ensures VisitRows(f, s, start, listing[..n + 1]) == VisitRow(f, s, VisitRows(f, s, start, listing[..n]), listing[n])
  {
    assert listing[..n + 1][..n] == listing[..n];
  }

  // One family: rewrite its dictionary if any row applied.
  function RepairFamily(f: Family, s: Store, listing: seq<string>): (r: (Store, seq<string>))
    requires forall k <- listing :: Owns(f, k) ==> k in s
  {
    var p := VisitRows(f, s, Current(s, f), listing);
    if p.orphans == [] then (s, []) else (s[f.key := p.tree], p.orphans)
  }

  // No prefix of any family can be read as another one, and no key twice.
  ghost predicate Unambiguous(fams: seq<Family>) {
    && (forall i, j, p, q :: 0 <= i < j < |fams| && p in Prefixes(fams[i]) && q in Prefixes(fams[j]) ==>
                               Distinct(p, q))
    && (forall f, p, q :: f in fams && p in Prefixes(f) && q in Prefixes(f) && p != q ==> Distinct(p, q))
  }

  ghost predicate Distinct(p: string, q: string) {
    !(p + "." <= q + ".") && !(q + "." <= p + ".")
  }

  // ---- One family: what the rebuilt dictionary holds ----

  lemma RepairFamilyIsOverlay(f: Family, s: Store, listing: seq<string>, q: Path)
    requires Lists(f, s, listing)
    requires PrefixFree(AppliedRows(f, s, Current(s, f), listing))
    ensures var p := VisitRows(f, s, Current(s, f), listing);
            Overlaid(Current(s, f), AppliedRows(f, s, Current(s, f), listing), p.tree, q)
  {
    VisitRowsAssignsAll(f, s, Current(s, f), listing);
    AssignAllAtEveryPath(Current(s, f), AppliedRows(f, s, Current(s, f), listing), q);
  }

  // Any two answers of the row query lead to the same dictionary and the same row deletions.
  lemma ListingDoesNotMatter(f: Family, s: Store, listing: seq<string>, listing': seq<string>)
    requires Lists(f, s, listing) && Lists(f, s, listing')
    requires PrefixFree(AppliedRows(f, s, Current(s, f), listing))
    ensures RepairFamily(f, s, listing).0 == RepairFamily(f, s, listing').0
    ensures forall k :: k in RepairFamily(f, s, listing).1 <==> k in RepairFamily(f, s, listing').1
  {
    var start := Current(s, f);
    VisitRowsAssignsAll(f, s, start, listing);
    VisitRowsAssignsAll(f, s, start, listing');
    var p, p' := VisitRows(f, s, start, listing), VisitRows(f, s, start, listing');
    forall k ensures k in p.orphans <==> k in p'.orphans {
      if Owns(f, k) {
        assert k in listing <==> k in s;
        assert k in listing' <==> k in s;
      }
    }
    var rows, rows' := AppliedRows(f, s, start, listing), AppliedRows(f, s, start, listing');
    forall r: Row ensures r in rows <==> r in rows' {
      AppliedRowsAre(f, s, start, listing, r);
      AppliedRowsAre(f, s, start, listing', r);
      forall k ensures IsRowOf(f, s, start, listing, k, r) <==> IsRowOf(f, s, start, listing', k, r) {
      }
    }
    OrderDoesNotMatter(start, rows, rows');
    SameMembersBothEmpty(p.orphans, p'.orphans);
  }

  lemma SameMembersBothEmpty(a: seq<string>, b: seq<string>)
    requires forall k :: k in a <==> k in b
    ensures a == [] <==> b == []
  {
    if a != [] {
      assert a[0] in b;
    }
    if b != [] {
      assert b[0] in a;
    }
  }

  // ---- Flattening, and the round trip ----

  function Under(prefix: string, key: string): string {
    if prefix == "" then key else prefix + "." + key
  }

  function Printed(prefix: string, q: Path): string {
    prefix + "." + Join(q, '.')
  }

  ghost predicate NoEmptyDicts(t: Json) {
    t.Dict? ==> t.fields != map[] && forall k <- t.fields :: NoEmptyDicts(t.fields[k])
  }

  lemma {:induction false} LeafBelow(t: Json, q: Path) returns (r: Path)
    requires NoEmptyDicts(t) && At(t, q) == DictHere
    ensures q <= r && q != r && At(t, r).LeafHere?
    decreases t, |q|
  {
    if q != [] {
      var below := LeafBelow(t.fields[q[0]], q[1..]);
      r := [q[0]] + below;
      assert r[1..] == below;
    } else {
      var k :| k in t.fields;
      var child := t.fields[k];
      if child.Dict? {
        var below := LeafBelow(child, []);
        r := [k] + below;
        assert r[1..] == below;
      } else {
        r := [k];
        assert r[1..] == [];
      }
    }
  }

  // The family's rows in s are exactly the leaves of t, printed after the prefix.
  ghost predicate Spread(f: Family, prefix: string, t: Json, s: Store) {
    && (forall q :: At(t, q).LeafHere? ==>
          Printed(prefix, q) in s && s[Printed(prefix, q)] == Leaf(At(t, q).text))
    && (forall k <- s :: Owns(f, k) ==> exists q :: At(t, q).LeafHere? && k == Printed(prefix, q))
  }

  // Every leaf's row key can be read back to the leaf's path.
  ghost predicate Readable(f: Family, prefix: string, t: Json) {
    forall q :: At(t, q).LeafHere? ==> TargetPath(f, Printed(prefix, q)) == Some(q)
  }

  // Rebuilding from the spread rows restores the dictionary, whatever the row order, and
  // marks every one of its rows for deletion.
  lemma RepairRestoresTree(f: Family, prefix: string, t: Json, s: Store, listing: seq<string>)
    requires t.Dict? && NoEmptyDicts(t) && Current(s, f) == EMPTY
    requires Readable(f, prefix, t) && Spread(f, prefix, t, s) && Lists(f, s, listing)
    ensures RepairFamily(f, s, listing).0 == s[f.key := t]
    ensures forall k <- s :: Owns(f, k) ==> k in RepairFamily(f, s, listing).1
  {
    var rows := AppliedRows(f, s, EMPTY, listing);
    var p := VisitRows(f, s, EMPTY, listing);
    VisitRowsAssignsAll(f, s, EMPTY, listing);
    forall row: Row ensures row in rows <==> At(t, row.path).LeafHere? && row.value == Leaf(At(t, row.path).text) {
      RowsAreLeaves(f, prefix, t, s, listing, row);
    }
    LeavesArePrefixFree(t, rows);
    forall q ensures At(p.tree, q) == At(t, q) {
      RepairFamilyIsOverlay(f, s, listing, q);
      OverlayOfLeaves(t, rows, p.tree, q);
    }
    SameEverywhere(p.tree, t);
    var leaf := LeafBelow(t, []);
    assert TargetPath(f, Printed(prefix, leaf)) == Some(leaf);
    assert Printed(prefix, leaf) in p.orphans;
  }

  lemma RowsAreLeaves(f: Family, prefix: string, t: Json, s: Store, listing: seq<string>, row: Row)
    requires Readable(f, prefix, t) && Spread(f, prefix, t, s) && Lists(f, s, listing)
    ensures row in AppliedRows(f, s, EMPTY, listing) <==>
            At(t, row.path).LeafHere? && row.value == Leaf(At(t, row.path).text)
  {
    AppliedRowsAre(f, s, EMPTY, listing, row);
    if row in AppliedRows(f, s, EMPTY, listing) {
      var k :| IsRowOf(f, s, EMPTY, listing, k, row);
      var q :| At(t, q).LeafHere? && k == Printed(prefix, q);
      assert TargetPath(f, k) == Some(q);
    }
    if At(t, row.path).LeafHere? && row.value == Leaf(At(t, row.path).text) {
      assert TargetPath(f, Printed(prefix, row.path)) == Some(row.path);
      assert IsRowOf(f, s, EMPTY, listing, Printed(prefix, row.path), row);
    }
  }

  lemma {:induction false} LeafEndsThePath(t: Json, p: Path, q: Path)
    requires At(t, p).LeafHere? && p <= q
    ensures q == p || At(t, q) == Absent
  {
    if p != [] {
      LeafEndsThePath(t.fields[p[0]], p[1..], q[1..]);
      assert q == [q[0]] + q[1..] && p == [p[0]] + p[1..];
    } else {
      assert At(t, q) == Absent || q == [];
    }
  }

  lemma LeavesArePrefixFree(t: Json, rows: seq<Row>)
    requires forall row <- rows :: At(t, row.path).LeafHere? && row.value == Leaf(At(t, row.path).text)
    ensures PrefixFree(rows)
  {
    forall r, s | r in rows && s in rows && r.path <= s.path ensures r == s {
      LeafEndsThePath(t, r.path, s.path);
    }
  }

  lemma {:induction false} DictsAbove(t: Json, p: Path, q: Path)
    requires At(t, q) != Absent && p <= q && p != q
    ensures At(t, p) == DictHere
  {
    if p != [] {
      assert p[1..] != q[1..] by { assert p == [p[0]] + p[1..] && q == [q[0]] + q[1..]; }
      DictsAbove(t.fields[p[0]], p[1..], q[1..]);
    }
  }

  lemma OverlayOfLeaves(t: Json, rows: seq<Row>, after: Json, q: Path)
    requires t.Dict? && NoEmptyDicts(t) && after.Dict?
    requires forall row: Row :: row in rows <==> At(t, row.path).LeafHere? && row.value == Leaf(At(t, row.path).text)
    requires Overlaid(EMPTY, rows, after, q)
    ensures At(after, q) == At(t, q)
  {
    if At(t, q).LeafHere? {
      var row := Row(q, Leaf(At(t, q).text));
      assert row in rows;
      assert q[|q|..] == [];
    } else if At(t, q) == DictHere {
      if q != [] {
        var leaf := LeafBelow(t, q);
        var row := Row(leaf, Leaf(At(t, leaf).text));
        assert row in rows;
      }
    } else if row :| row in rows && !Apart(row.path, q) {
      if q <= row.path {
        DictsAbove(t, q, row.path);
        assert false;
      } else {
        assert q[|row.path|..] != [];
      }
    }
  }

  // Dot-free keys make every row key readable, except for API connections.
  lemma DotFreeIsReadable(f: Family, prefix: string, t: Json)
    requires f.connectionFields.None? && prefix in Prefixes(f) && Unambiguous([f])
    requires t.Dict? && DotFree(t)
    ensures Readable(f, prefix, t)
  {
    forall q | At(t, q).LeafHere? ensures TargetPath(f, Printed(prefix, q)) == Some(q) {
      DotFreePath(t, q);
      SplitJoin(q, '.');
      assert f in [f];
      FragmentAfterPrefix(Prefixes(f), prefix, Join(q, '.'));
    }
  }

  // Connection keys may hold dots: their rows are readable when each leaf sits at least one
  // level below its connection, its field path has no dotted keys, and the fragment splits
  // where it was printed.
  lemma SplittableIsReadable(f: Family, fields: seq<string>, prefix: string, t: Json)
    requires f.connectionFields == Some(fields) && prefix in Prefixes(f) && Unambiguous([f])
    requires forall field <- fields :: field != ""
    requires t.Dict?
    requires forall q :: At(t, q).LeafHere? ==>
                           |q| >= 2 && SplitsWherePrinted(fields, q[0], q[1..])
    ensures Readable(f, prefix, t)
  {
    assert f in [f];
    forall q | At(t, q).LeafHere? ensures TargetPath(f, Printed(prefix, q)) == Some(q) {
      PathIsReadable(f, fields, prefix, q);
    }
  }

  lemma PathIsReadable(f: Family, fields: seq<string>, prefix: string, q: Path)
    requires f.connectionFields == Some(fields) && prefix in Prefixes(f)
    requires forall p, p' :: p in Prefixes(f) && p' in Prefixes(f) && p != p' ==> Distinct(p, p')
    requires forall field <- fields :: field != ""
    requires |q| >= 2 && SplitsWherePrinted(fields, q[0], q[1..])
    ensures TargetPath(f, Printed(prefix, q)) == Some(q)
  {
    var fragment := Join(q, '.');
    FragmentAfterPrefix(Prefixes(f), prefix, fragment);
    SplitOfJoined(fields, q);
    ConnectionTarget(f, fields, Printed(prefix, q), fragment, Split(q[0], q[1..]));
    assert [q[0]] + q[1..] == q;
  }

  lemma ConnectionTarget(f: Family, fields: seq<string>, rowKey: string, fragment: string, split: Split)
    requires f.connectionFields == Some(fields) && FragmentAfter(Prefixes(f), rowKey) == Some(fragment)
    requires SplitFragment(fields, fragment) == Some(split)
    ensures TargetPath(f, rowKey) == Some([split.key] + split.path)
  {
  }

  lemma SplitOfJoined(fields: seq<string>, q: Path)
    requires forall field <- fields :: field != ""
    requires |q| >= 2 && SplitsWherePrinted(fields, q[0], q[1..])
    ensures SplitFragment(fields, Join(q, '.')) == Some(Split(q[0], q[1..]))
  {
    assert Join(q, '.') == q[0] + "." + Join(q[1..], '.');
    SplitInvertsPrinting(fields, q[0], q[1..]);
  }

  ghost predicate SplitsWherePrinted(fields: seq<string>, key: string, path: Path) {
    && path != [] && (forall part <- path :: '.' !in part)
    && if IsDigits(BeforeDot(key)) then '.' !in key && path != [""]
       else key != "" && LastMarker(fields, key + "." + Join(path, '.'), |key|)
  }

  ghost predicate DotFree(t: Json) {
    t.Dict? ==> forall k <- t.fields :: '.' !in k && DotFree(t.fields[k])
  }

  lemma {:induction false} DotFreePath(t: Json, q: Path)
    requires DotFree(t) && At(t, q) != Absent
    ensures forall part <- q :: '.' !in part
  {
    if q != [] {
      DotFreePath(t.fields[q[0]], q[1..]);
      assert q == [q[0]] + q[1..];
    }
  }

  lemma {:induction false} FragmentAfterPrefix(prefixes: seq<string>, prefix: string, rest: string)
    requires prefix in prefixes
    requires forall p, q :: p in prefixes && q in prefixes && p != q ==> Distinct(p, q)
    ensures FragmentAfter(prefixes, prefix + "." + rest) == Some(rest)
    decreases |prefixes|
  {
    var key := prefix + "." + rest;
    if prefixes[0] == prefix {
      assert prefix + "." <= key && key[|prefix| + 1..] == rest;
    } else {
      assert prefixes[0] in prefixes;
      assert Distinct(prefixes[0], prefix);
      PrefixesClash(prefixes[0] + ".", prefix + ".", key);
      FragmentAfterPrefix(prefixes[1..], prefix, rest);
    }
  }

  lemma PrefixesClash(p: string, q: string, s: string)
    requires q <= s && !(p <= q) && !(q <= p)
    ensures !(p <= s)
  {
  }
}
