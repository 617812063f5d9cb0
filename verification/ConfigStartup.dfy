/**
 The whole startup of the configuration store: rename, repair every family, seed defaults.
 `ConfigTable` updates the rows in place as the source does; the functions beside it say
 what each operation makes of the rows, and the lemmas are about them.
 */
module ConfigStartup {
  import opened Sequences
  import opened JsonTrees
  import opened ConfigRepair

  // ---- Repairing all families ----

  ghost predicate ListsAll(fams: seq<Family>, s: Store, listings: seq<seq<string>>) {
    |listings| == |fams| && forall i :: 0 <= i < |fams| ==> Lists(fams[i], s, listings[i])
  }

  // The store and the rows marked for deletion after the first n families.
  function RepairFamilies(fams: seq<Family>, s: Store, listings: seq<seq<string>>, n: nat)
    : (r: (Store, seq<string>))
    requires ListsAll(fams, s, listings) && n <= |fams|
    ensures s.Keys <= r.0.Keys
  {
    if n == 0 then (s, [])
    else
      var (before, orphans) := RepairFamilies(fams, s, listings, n - 1);
      var (after, more) := RepairFamily(fams[n - 1], before, listings[n - 1]);
      (after, orphans + more)
  }

  function Without(s: Store, gone: seq<string>): Store {
    map k | k in s && k !in gone :: s[k]
  }

  function RepairAll(fams: seq<Family>, s: Store, listings: seq<seq<string>>): Store
    requires ListsAll(fams, s, listings)
  {
    var (after, orphans) := RepairFamilies(fams, s, listings, |fams|);
    Without(after, orphans)
  }

  lemma {:induction false} OwnerHasPrefix(prefixes: seq<string>, k: string)
    requires FragmentAfter(prefixes, k).Some?
    ensures exists p :: p in prefixes && p + "." <= k
  {
    if prefixes[0] + "." <= k {
      assert prefixes[0] in prefixes;
    } else {
      OwnerHasPrefix(prefixes[1..], k);
    }
  }

  lemma NotBoth(p: string, q: string, k: string)
    requires p + "." <= k && (q + "." <= k || q == k)
    ensures p != k && !Distinct(p, q) && !Distinct(q, p)
  {
    if q == k {
      assert p + "." <= q + ".";
    }
  }

  // A row belongs to one family at most, and a family's own key is nobody's row.
  lemma OneOwner(fams: seq<Family>, i: nat, j: nat, k: string)
    requires Unambiguous(fams) && i < |fams| && j < |fams| && Owns(fams[i], k)
    ensures Owns(fams[j], k) ==> i == j
    ensures k != fams[j].key
  {
    OwnerHasPrefix(Prefixes(fams[i]), k);
    var p :| p in Prefixes(fams[i]) && p + "." <= k;
    if Owns(fams[j], k) {
      OwnerHasPrefix(Prefixes(fams[j]), k);
      var q :| q in Prefixes(fams[j]) && q + "." <= k;
      NotBoth(p, q, k);
    }
    if k == fams[j].key {
      assert fams[i] in fams && fams[j].key in Prefixes(fams[j]);
      NotBoth(p, fams[j].key, k);
    }
  }

  lemma KeysDiffer(fams: seq<Family>, i: nat, j: nat)
    requires Unambiguous(fams) && i < |fams| && j < |fams| && i != j
    ensures fams[i].key != fams[j].key
  {
    assert fams[i].key in Prefixes(fams[i]) && fams[j].key in Prefixes(fams[j]);
    assert !Distinct(fams[i].key, fams[i].key);
  }

  // A family's repair reads only its own key and its own rows.
  lemma {:induction false} VisitRowsReadsOwnRows(f: Family, s: Store, s': Store, start: Json, listing: seq<string>)
    requires start.Dict?
    requires forall k <- listing :: Owns(f, k) ==> k in s && k in s' && s[k] == s'[k]
    ensures VisitRows(f, s, start, listing) == VisitRows(f, s', start, listing)
    decreases |listing|
  {
    if listing != [] {
      VisitRowsReadsOwnRows(f, s, s', start, listing[..|listing| - 1]);
    }
  }

  // What became of family i, judged from the rows it started with.
  function Outcome(fams: seq<Family>, s: Store, listings: seq<seq<string>>, i: nat): (p: Progress)
    requires ListsAll(fams, s, listings) && i < |fams|
    ensures p.tree.Dict?
  {
    VisitRows(fams[i], s, Current(s, fams[i]), listings[i])
  }

  // Family i is rewritten when at least one of its rows applied.
  predicate Rewritten(fams: seq<Family>, s: Store, listings: seq<seq<string>>, i: nat)
    requires ListsAll(fams, s, listings) && i < |fams|
  {
    Outcome(fams, s, listings, i).orphans != []
  }

  // The rows of s, with the dictionaries of the first n families replaced.
  function Rebuilt(fams: seq<Family>, s: Store, listings: seq<seq<string>>, n: nat): (r: Store)
    requires ListsAll(fams, s, listings) && n <= |fams|
    ensures s.Keys <= r.Keys
  {
    if n == 0 then s
    else
      var r := Rebuilt(fams, s, listings, n - 1);
      if Rewritten(fams, s, listings, n - 1) then r[fams[n - 1].key := Outcome(fams, s, listings, n - 1).tree]
      else r
  }

  function Orphans(fams: seq<Family>, s: Store, listings: seq<seq<string>>, n: nat): seq<string>
    requires ListsAll(fams, s, listings) && n <= |fams|
  {
    if n == 0 then [] else Orphans(fams, s, listings, n - 1) + Outcome(fams, s, listings, n - 1).orphans
  }

  lemma {:induction false} RebuiltElsewhere(fams: seq<Family>, s: Store, listings: seq<seq<string>>, n: nat, k: string)
    requires ListsAll(fams, s, listings) && n <= |fams|
    requires forall i: nat :: i < n && k == fams[i].key ==> !Rewritten(fams, s, listings, i)
    ensures var r := Rebuilt(fams, s, listings, n);
            (k in r <==> k in s) && (k in s ==> r[k] == s[k])
    decreases n
  {
    if n > 0 {
      RebuiltElsewhere(fams, s, listings, n - 1, k);
    }
  }

  // Each family looks as if it had been repaired alone.
  lemma {:induction false} FamiliesAreSeparate(fams: seq<Family>, s: Store, listings: seq<seq<string>>, n: nat)
    requires Unambiguous(fams) && ListsAll(fams, s, listings) && n <= |fams|
    ensures RepairFamilies(fams, s, listings, n) ==
            (Rebuilt(fams, s, listings, n), Orphans(fams, s, listings, n))
    decreases n
  {
    if n > 0 {
      var m := n - 1;
      FamiliesAreSeparate(fams, s, listings, m);
      var before := Rebuilt(fams, s, listings, m);
      OwnRowsUntouched(fams, s, listings, m);
      VisitRowsReadsOwnRows(fams[m], before, s, Current(s, fams[m]), listings[m]);
      assert VisitRows(fams[m], before, Current(before, fams[m]), listings[m]) == Outcome(fams, s, listings, m);
    }
  }

  lemma OwnRowsUntouched(fams: seq<Family>, s: Store, listings: seq<seq<string>>, m: nat)
    requires Unambiguous(fams) && ListsAll(fams, s, listings) && m < |fams|
    ensures var before := Rebuilt(fams, s, listings, m);
            && (forall k <- listings[m] :: Owns(fams[m], k) ==> k in s && k in before && before[k] == s[k])
            && Current(before, fams[m]) == Current(s, fams[m])
  {
    var before := Rebuilt(fams, s, listings, m);
    forall k | k in listings[m] && Owns(fams[m], k) ensures k in s && k in before && before[k] == s[k] {
      forall i: nat | i < m ensures k != fams[i].key {
        OneOwner(fams, m, i, k);
      }
      RebuiltElsewhere(fams, s, listings, m, k);
    }
    forall i: nat | i < m ensures fams[m].key != fams[i].key {
      KeysDiffer(fams, i, m);
    }
    RebuiltElsewhere(fams, s, listings, m, fams[m].key);
  }

  lemma {:induction false} RebuiltAtKey(fams: seq<Family>, s: Store, listings: seq<seq<string>>, n: nat, i: nat)
    requires Unambiguous(fams) && ListsAll(fams, s, listings) && i < n <= |fams|
    requires Rewritten(fams, s, listings, i)
    ensures var r := Rebuilt(fams, s, listings, n);
            fams[i].key in r && r[fams[i].key] == Outcome(fams, s, listings, i).tree
    decreases n
  {
    if i < n - 1 {
      RebuiltAtKey(fams, s, listings, n - 1, i);
      KeysDiffer(fams, i, n - 1);
    }
  }

  lemma OrphansNext(fams: seq<Family>, s: Store, listings: seq<seq<string>>, n: nat, k: string)
    requires ListsAll(fams, s, listings) && n < |fams|
    ensures k in Orphans(fams, s, listings, n + 1) <==>
            k in Orphans(fams, s, listings, n) || k in Outcome(fams, s, listings, n).orphans
  {
  }

  lemma {:induction false} OrphanStays(fams: seq<Family>, s: Store, listings: seq<seq<string>>, n: nat, i: nat,
                                       k: string)
    requires ListsAll(fams, s, listings) && i < n <= |fams| && k in Outcome(fams, s, listings, i).orphans
    ensures k in Orphans(fams, s, listings, n)
    decreases n
  {
    OrphansNext(fams, s, listings, n - 1, k);
    if i < n - 1 {
      OrphanStays(fams, s, listings, n - 1, i, k);
    }
  }

  lemma {:induction false} OrphanFrom(fams: seq<Family>, s: Store, listings: seq<seq<string>>, n: nat, k: string)
    returns (i: nat)
    requires ListsAll(fams, s, listings) && n <= |fams| && k in Orphans(fams, s, listings, n)
    ensures i < n && k in Outcome(fams, s, listings, i).orphans
    decreases n
  {
    OrphansNext(fams, s, listings, n - 1, k);
    if k in Outcome(fams, s, listings, n - 1).orphans {
      i := n - 1;
    } else {
      i := OrphanFrom(fams, s, listings, n - 1, k);
    }
  }

  lemma OrphansOfOne(fams: seq<Family>, s: Store, listings: seq<seq<string>>, i: nat, k: string)
    requires ListsAll(fams, s, listings) && i < |fams|
    ensures k in Outcome(fams, s, listings, i).orphans <==> k in s && Applies(fams[i], Current(s, fams[i]), k)
  {
    VisitRowsAssignsAll(fams[i], s, Current(s, fams[i]), listings[i]);
  }

  // The repaired store, key by key: rows that applied are gone, rewritten families hold
  // their rebuilt dictionary, and everything else is as before.
  lemma RepairAllByKey(fams: seq<Family>, s: Store, listings: seq<seq<string>>, k: string)
    requires Unambiguous(fams) && ListsAll(fams, s, listings)
    ensures var after := RepairAll(fams, s, listings);
            && (forall i: nat :: i < |fams| && k in s && Applies(fams[i], Current(s, fams[i]), k) ==> k !in after)
            && (forall i: nat :: i < |fams| && k == fams[i].key && Rewritten(fams, s, listings, i) ==>
                  k in after && after[k] == Outcome(fams, s, listings, i).tree)
            && ((forall i: nat :: i < |fams| ==>
                  && (k in s ==> !Applies(fams[i], Current(s, fams[i]), k))
                  && (k == fams[i].key ==> !Rewritten(fams, s, listings, i))) ==>
                (k in after <==> k in s) && (k in s ==> after[k] == s[k]))
  {
    FamiliesAreSeparate(fams, s, listings, |fams|);
    forall i: nat | i < |fams| && k in s && Applies(fams[i], Current(s, fams[i]), k)
      ensures k in Orphans(fams, s, listings, |fams|)
    {
      OrphansOfOne(fams, s, listings, i, k);
      OrphanStays(fams, s, listings, |fams|, i, k);
    }
    if k in Orphans(fams, s, listings, |fams|) {
      var i := OrphanFrom(fams, s, listings, |fams|, k);
      OrphansOfOne(fams, s, listings, i, k);
    }
    if forall i: nat :: i < |fams| && k == fams[i].key ==> !Rewritten(fams, s, listings, i) {
      RebuiltElsewhere(fams, s, listings, |fams|, k);
    }
    forall i: nat | i < |fams| && k == fams[i].key && Rewritten(fams, s, listings, i)
      ensures k in Rebuilt(fams, s, listings, |fams|)
      ensures Rebuilt(fams, s, listings, |fams|)[k] == Outcome(fams, s, listings, i).tree
      ensures k !in Orphans(fams, s, listings, |fams|)
    {
      RebuiltAtKey(fams, s, listings, |fams|, i);
      forall j: nat | j < |fams| ensures !Owns(fams[j], k) {
        if Owns(fams[j], k) {
          OneOwner(fams, j, i, k);
        }
      }
    }
  }

  // ---- Renaming a prefix ----

  predicate HasPrefix(prefix: string, k: string) {
    prefix + "." <= k
  }

  // The key that row k of prefix `from` gets under prefix `to`.
  function Moved(from: string, to: string, k: string): (k': string)
    requires HasPrefix(from, k)
    ensures HasPrefix(to, k')
  {
    to + "." + k[|from| + 1..]
  }

  lemma MovedBack(from: string, to: string, k: string)
    requires HasPrefix(from, k)
    ensures Moved(to, from, Moved(from, to, k)) == k
  {
    assert Moved(from, to, k)[|to| + 1..] == k[|from| + 1..];
  }

  // The rows after the rows in `done` were moved: a row already under the new key wins.
  function RenamedPart(s: Store, from: string, to: string, done: set<string>): Store
    requires forall k <- done :: k in s && HasPrefix(from, k)
  {
    assert forall r <- done :: Moved(to, from, Moved(from, to, r)) == r by {
      forall r | r in done ensures Moved(to, from, Moved(from, to, r)) == r {
        MovedBack(from, to, r);
      }
    }
    map k | k in s.Keys + (set r | r in done :: Moved(from, to, r)) && k !in done ::
      if k in s then s[k] else s[Moved(to, from, k)]
  }

  function Renamed(s: Store, from: string, to: string): Store {
    RenamedPart(s, from, to, set k | k in s && HasPrefix(from, k))
  }

  // No row is left under the old prefix. Each of them is under its new key, where it yields to a
  // row that was there already, and every other row is as before.
  ghost predicate RowsMoved(s: Store, from: string, to: string, after: Store) {
    && (forall k :: k in after <==> (k in s && !(from + "." <= k)) || MovedHere(s, from, to, k))
    && (forall k <- s :: !(from + "." <= k) ==> after[k] == s[k])
    && (forall k <- s :: from + "." <= k && to + "." + k[|from| + 1..] !in s ==>
          after[to + "." + k[|from| + 1..]] == s[k])
  }

  ghost predicate MovedHere(s: Store, from: string, to: string, k: string) {
    exists r <- s :: from + "." <= r && k == to + "." + r[|from| + 1..]
  }

  lemma RenamedMovesRows(s: Store, from: string, to: string)
    requires Distinct(from, to)
    ensures RowsMoved(s, from, to, Renamed(s, from, to))
  {
    var done := set k | k in s && HasPrefix(from, k);
    forall k | k in s && HasPrefix(from, k)
      ensures MovedHere(s, from, to, Moved(from, to, k)) && Moved(to, from, Moved(from, to, k)) == k
    {
      MovedBack(from, to, k);
    }
    forall k ensures MovedHere(s, from, to, k) <==> k in set r | r in done :: Moved(from, to, r) {
    }
  }

  // ---- Seeding, and the whole startup ----

  function Seeded(s: Store, defaults: Store): Store {
    defaults + s
  }

  function Startup(fams: seq<Family>, s: Store, defaults: Store, from: string, to: string,
                   listings: seq<seq<string>>): Store
    requires ListsAll(fams, Renamed(s, from, to), listings)
  {
    Seeded(RepairAll(fams, Renamed(s, from, to), listings), defaults)
  }

  // No default is itself a row under the renamed prefix or a flattened row.
  ghost predicate PlainDefaults(fams: seq<Family>, defaults: Store, from: string) {
    forall k <- defaults :: !HasPrefix(from, k) && forall f <- fams :: !Owns(f, k)
  }

  // A family's keys lie outside the prefix that is renamed away.
  ghost predicate OutsidePrefix(fams: seq<Family>, from: string) {
    forall f <- fams :: !HasPrefix(from, f.key)
  }

  lemma RenameLeavesNoOldRow(s: Store, from: string, to: string)
    requires Distinct(from, to)
    ensures forall k <- Renamed(s, from, to) :: !HasPrefix(from, k)
  {
  }

  lemma KeyAfterRepair(fams: seq<Family>, s: Store, listings: seq<seq<string>>, i: nat)
    requires Unambiguous(fams) && ListsAll(fams, s, listings) && i < |fams|
    ensures var after := RepairAll(fams, s, listings);
            var key := fams[i].key;
            && (Rewritten(fams, s, listings, i) ==> key in after && after[key] == Outcome(fams, s, listings, i).tree)
            && (!Rewritten(fams, s, listings, i) ==>
                  (key in after <==> key in s) && (key in s ==> after[key] == s[key]))
  {
    var key := fams[i].key;
    RepairAllByKey(fams, s, listings, key);
    forall j: nat | j < |fams| ensures key == fams[j].key ==> i == j ensures !Owns(fams[j], key) {
      if j != i {
        KeysDiffer(fams, i, j);
      }
      if Owns(fams[j], key) {
        OneOwner(fams, j, i, key);
      }
    }
  }

  // A row that is still there was left alone, and is left alone again.
  lemma NothingLeftToRepair(fams: seq<Family>, s: Store, defaults: Store, listings: seq<seq<string>>, i: nat, k: string)
    requires Unambiguous(fams) && ListsAll(fams, s, listings) && i < |fams|
    requires forall d <- defaults :: !Owns(fams[i], d)
    requires k in Seeded(RepairAll(fams, s, listings), defaults)
    ensures !Applies(fams[i], Current(Seeded(RepairAll(fams, s, listings), defaults), fams[i]), k)
  {
    var f := fams[i];
    var after := RepairAll(fams, s, listings);
    if Owns(f, k) {
      assert k in after;
      forall j: nat | j < |fams| ensures k != fams[j].key ensures Owns(fams[j], k) ==> j == i {
        OneOwner(fams, i, j, k);
      }
      RepairAllByKey(fams, s, listings, k);
      assert k in s && !Applies(f, Current(s, f), k);
      KeyAfterRepair(fams, s, listings, i);
      VisitRowsAssignsAll(f, s, Current(s, f), listings[i]);
    }
  }

  // Starting up again changes nothing, whatever order the second queries answer in.
  lemma StartupIsIdempotent(fams: seq<Family>, s: Store, defaults: Store, from: string, to: string,
                            listings: seq<seq<string>>, again: seq<seq<string>>)
    requires Unambiguous(fams) && Distinct(from, to)
    requires PlainDefaults(fams, defaults, from) && OutsidePrefix(fams, from)
    requires ListsAll(fams, Renamed(s, from, to), listings)
    requires ListsAll(fams, Renamed(Startup(fams, s, defaults, from, to, listings), from, to), again)
    ensures Startup(fams, Startup(fams, s, defaults, from, to, listings), defaults, from, to, again) ==
            Startup(fams, s, defaults, from, to, listings)
  {
    var renamed := Renamed(s, from, to);
    var once := Startup(fams, s, defaults, from, to, listings);
    StartupLeavesNoOldRow(fams, s, defaults, from, to, listings);
    forall i: nat, k | i < |fams| && k in once ensures !Applies(fams[i], Current(once, fams[i]), k) {
      NothingLeftToRepair(fams, renamed, defaults, listings, i, k);
    }
    StartupStays(fams, once, defaults, from, to, again);
  }

  lemma StartupStays(fams: seq<Family>, s: Store, defaults: Store, from: string, to: string,
                     listings: seq<seq<string>>)
    requires Unambiguous(fams) && ListsAll(fams, Renamed(s, from, to), listings)
    requires defaults.Keys <= s.Keys && forall k <- s :: !HasPrefix(from, k)
    requires forall i: nat, k :: i < |fams| && k in s ==> !Applies(fams[i], Current(s, fams[i]), k)
    ensures Startup(fams, s, defaults, from, to, listings) == s
  {
    NothingToRename(s, from, to);
    NothingToRepair(fams, s, listings);
    assert Seeded(s, defaults) == s;
  }

  lemma StartupLeavesNoOldRow(fams: seq<Family>, s: Store, defaults: Store, from: string, to: string,
                              listings: seq<seq<string>>)
    requires Unambiguous(fams) && Distinct(from, to)
    requires PlainDefaults(fams, defaults, from) && OutsidePrefix(fams, from)
    requires ListsAll(fams, Renamed(s, from, to), listings)
    ensures forall k <- Startup(fams, s, defaults, from, to, listings) :: !HasPrefix(from, k)
  {
    var renamed := Renamed(s, from, to);
    forall k | k in RepairAll(fams, renamed, listings) ensures !HasPrefix(from, k) {
      RenameLeavesNoOldRow(s, from, to);
      RepairAddsNoRow(fams, renamed, listings, k);
    }
  }

  lemma RowStays(s: Store, from: string, to: string, k: string)
    requires k in s && !HasPrefix(from, k)
    ensures k in Renamed(s, from, to)
  {
  }

  lemma NothingToRename(s: Store, from: string, to: string)
    requires forall k <- s :: !HasPrefix(from, k)
    ensures Renamed(s, from, to) == s
  {
  }

  // The repair adds no keys but those of the families.
  lemma RepairAddsNoRow(fams: seq<Family>, s: Store, listings: seq<seq<string>>, k: string)
    requires Unambiguous(fams) && ListsAll(fams, s, listings)
    requires k in RepairAll(fams, s, listings)
    ensures k in s || exists f <- fams :: k == f.key
  {
    RepairAllByKey(fams, s, listings, k);
  }

  lemma NothingToRepair(fams: seq<Family>, s: Store, listings: seq<seq<string>>)
    requires Unambiguous(fams) && ListsAll(fams, s, listings)
    requires forall i: nat, k :: i < |fams| && k in s ==> !Applies(fams[i], Current(s, fams[i]), k)
    ensures RepairAll(fams, s, listings) == s
  {
    forall i: nat | i < |fams| ensures !Rewritten(fams, s, listings, i) {
      VisitRowsAssignsAll(fams[i], s, Current(s, fams[i]), listings[i]);
      SameMembersBothEmpty(Outcome(fams, s, listings, i).orphans, []);
    }
    forall k ensures k in RepairAll(fams, s, listings) <==> k in s
             ensures k in s ==> RepairAll(fams, s, listings)[k] == s[k]
    {
      RepairAllByKey(fams, s, listings, k);
    }
  }

  // After startup every key with a default is there. It holds the default when it had no row,
  // no row was moved to it, and no flattened row made it a family's dictionary.
  lemma DefaultsAreSeeded(fams: seq<Family>, s: Store, defaults: Store, from: string, to: string,
                          listings: seq<seq<string>>, k: string)
    requires Unambiguous(fams) && Distinct(from, to) && ListsAll(fams, Renamed(s, from, to), listings)
    requires k in defaults
    ensures var after := Startup(fams, s, defaults, from, to, listings);
            && k in after
            && (k !in s && !MovedHere(s, from, to, k) &&
                (forall f <- fams :: k == f.key ==>
                   forall r <- Renamed(s, from, to) :: !Applies(f, Current(Renamed(s, from, to), f), r)) ==>
                  after[k] == defaults[k])
  {
    var renamed := Renamed(s, from, to);
    if && k !in s && !MovedHere(s, from, to, k)
       && (forall f <- fams :: k == f.key ==> forall r <- renamed :: !Applies(f, Current(renamed, f), r))
    {
      RenamedMovesRows(s, from, to);
      forall i: nat | i < |fams| && k == fams[i].key ensures !Rewritten(fams, renamed, listings, i) {
        var orphans := Outcome(fams, renamed, listings, i).orphans;
        if orphans != [] {
          assert fams[i] in fams && orphans[0] in orphans;
          OrphansOfOne(fams, renamed, listings, i, orphans[0]);
        }
      }
      RepairAllByKey(fams, renamed, listings, k);
    }
  }

  // A row whose place in a family's dictionary can be told is taken into it and deleted, unless
  // it belongs to a connection whose stored entry is not a dictionary.
  lemma RowIsKeptIff(fams: seq<Family>, s: Store, listings: seq<seq<string>>, i: nat, k: string)
    requires Unambiguous(fams) && ListsAll(fams, s, listings) && i < |fams|
    requires k in s && TargetPath(fams[i], k).Some?
    ensures var f, name := fams[i], TargetPath(fams[i], k).value[0];
            var after := RepairAll(fams, s, listings);
            && (k in after <==> && f.connectionFields.Some? && f.key in s && s[f.key].Dict?
                                && name in s[f.key].fields && s[f.key].fields[name].Leaf?)
            && (k in after ==> after[k] == s[k])
  {
    forall j: nat | j < |fams| ensures Owns(fams[j], k) ==> i == j ensures k != fams[j].key {
      OneOwner(fams, i, j, k);
    }
    RepairAllByKey(fams, s, listings, k);
  }

  // That entry stays as it is.
  lemma StoredEntryIsKept(fams: seq<Family>, s: Store, listings: seq<seq<string>>, i: nat, name: string)
    requires Unambiguous(fams) && ListsAll(fams, s, listings) && i < |fams|
    requires fams[i].connectionFields.Some? && fams[i].key in s && s[fams[i].key].Dict?
    requires name in s[fams[i].key].fields && s[fams[i].key].fields[name].Leaf?
    ensures var after := RepairAll(fams, s, listings);
            && fams[i].key in after && after[fams[i].key].Dict? && name in after[fams[i].key].fields
            && after[fams[i].key].fields[name] == s[fams[i].key].fields[name]
  {
    var f, start := fams[i], Current(s, fams[i]);
    forall row | row in AppliedRows(f, s, start, listings[i]) ensures Apart(row.path, [name]) {
      AppliedRowsAre(f, s, start, listings[i], row);
    }
    EntryInFamily(fams, s, listings, i, [name]);
  }

  // A value stored under the old prefix, with no row under its new key, is readable after
  // startup, and no default takes its place. It is in its own row,
  lemma OldValueKeepsItsRow(fams: seq<Family>, s: Store, defaults: Store, from: string, to: string,
                            listings: seq<seq<string>>, k: string)
    requires Unambiguous(fams) && Distinct(from, to) && ListsAll(fams, Renamed(s, from, to), listings)
    requires k in s && HasPrefix(from, k) && Moved(from, to, k) !in s
    requires forall i: nat :: i < |fams| ==>
               && !Applies(fams[i], Current(Renamed(s, from, to), fams[i]), Moved(from, to, k))
               && (Moved(from, to, k) == fams[i].key ==> !Rewritten(fams, Renamed(s, from, to), listings, i))
    ensures var after := Startup(fams, s, defaults, from, to, listings);
            Moved(from, to, k) in after && after[Moved(from, to, k)] == s[k]
  {
    MovedRow(s, from, to, k);
    RepairAllByKey(fams, Renamed(s, from, to), listings, Moved(from, to, k));
  }

  // No other row's path runs through the row's own one.
  ghost predicate NoConflict(rows: seq<Row>, own: Row) {
    forall row <- rows :: row == own || Apart(row.path, own.path)
  }

  // or at its path inside the dictionary it belongs to, unless another row conflicts with it,
  lemma OldValueJoinsItsDictionary(fams: seq<Family>, s: Store, defaults: Store, from: string, to: string,
                                   listings: seq<seq<string>>, k: string, i: nat, x: Path)
    requires Unambiguous(fams) && Distinct(from, to) && ListsAll(fams, Renamed(s, from, to), listings)
    requires k in s && HasPrefix(from, k) && Moved(from, to, k) !in s && i < |fams|
    requires Applies(fams[i], Current(Renamed(s, from, to), fams[i]), Moved(from, to, k))
    requires var renamed := Renamed(s, from, to);
             NoConflict(AppliedRows(fams[i], renamed, Current(renamed, fams[i]), listings[i]),
                        Row(TargetPath(fams[i], Moved(from, to, k)).value, s[k]))
    ensures var after := Startup(fams, s, defaults, from, to, listings);
            && fams[i].key in after
            && At(after[fams[i].key], TargetPath(fams[i], Moved(from, to, k)).value + x) == At(s[k], x)
  {
    MovedRow(s, from, to, k);
    RowValueInFamily(fams, Renamed(s, from, to), listings, i, Moved(from, to, k), x);
  }

  // or, when it is such a dictionary, still there at every path that no row touches.
  lemma OldDictionaryKeepsItsEntries(fams: seq<Family>, s: Store, defaults: Store, from: string, to: string,
                                     listings: seq<seq<string>>, k: string, i: nat, x: Path)
    requires Unambiguous(fams) && Distinct(from, to) && ListsAll(fams, Renamed(s, from, to), listings)
    requires k in s && HasPrefix(from, k) && Moved(from, to, k) !in s && i < |fams|
    requires Moved(from, to, k) == fams[i].key && s[k].Dict?
    requires var renamed := Renamed(s, from, to);
             var rows := AppliedRows(fams[i], renamed, Current(renamed, fams[i]), listings[i]);
             forall row <- rows :: Apart(row.path, x)
    ensures var after := Startup(fams, s, defaults, from, to, listings);
            fams[i].key in after && At(after[fams[i].key], x) == At(s[k], x)
  {
    MovedRow(s, from, to, k);
    EntryInFamily(fams, Renamed(s, from, to), listings, i, x);
  }

  // Such a key may also hold something else than a dictionary: that survives exactly when no row
  // of the family applies, and is replaced by the rebuilt dictionary otherwise.
  lemma OldLeafSurvivesIff(fams: seq<Family>, s: Store, defaults: Store, from: string, to: string,
                           listings: seq<seq<string>>, k: string, i: nat)
    requires Unambiguous(fams) && Distinct(from, to) && ListsAll(fams, Renamed(s, from, to), listings)
    requires k in s && HasPrefix(from, k) && Moved(from, to, k) !in s && i < |fams|
    requires Moved(from, to, k) == fams[i].key && s[k].Leaf?
    ensures var after := Startup(fams, s, defaults, from, to, listings);
            && fams[i].key in after
            && (after[fams[i].key] == s[k] <==> forall r <- Renamed(s, from, to) :: !Applies(fams[i], EMPTY, r))
  {
    var f, renamed := fams[i], Renamed(s, from, to);
    MovedRow(s, from, to, k);
    KeyAfterRepair(fams, renamed, listings, i);
    VisitRowsAssignsAll(f, renamed, EMPTY, listings[i]);
    var orphans := Outcome(fams, renamed, listings, i).orphans;
    assert forall r :: r in orphans <==> r in renamed && Applies(f, EMPTY, r);
    if orphans != [] {
      assert orphans[0] in orphans;
    }
  }

  lemma MovedRow(s: Store, from: string, to: string, k: string)
    requires k in s && HasPrefix(from, k) && Distinct(from, to) && Moved(from, to, k) !in s
    ensures var k' := Moved(from, to, k);
            k' in Renamed(s, from, to) && Renamed(s, from, to)[k'] == s[k]
  {
    MovedBack(from, to, k);
    var done := set r | r in s && HasPrefix(from, r);
    assert k in done;
  }

  lemma RowValueInFamily(fams: seq<Family>, s: Store, listings: seq<seq<string>>, i: nat, k: string, x: Path)
    requires Unambiguous(fams) && ListsAll(fams, s, listings) && i < |fams| && k in s
    requires Applies(fams[i], Current(s, fams[i]), k)
    requires NoConflict(AppliedRows(fams[i], s, Current(s, fams[i]), listings[i]),
                        Row(TargetPath(fams[i], k).value, s[k]))
    ensures var after := RepairAll(fams, s, listings);
            fams[i].key in after && At(after[fams[i].key], TargetPath(fams[i], k).value + x) == At(s[k], x)
  {
    var f, start := fams[i], Current(s, fams[i]);
    var own := Row(TargetPath(f, k).value, s[k]);
    KeyAfterRepair(fams, s, listings, i);
    VisitRowsAssignsAll(f, s, start, listings[i]);
    assert Lists(f, s, listings[i]);
    assert k in Outcome(fams, s, listings, i).orphans;
    assert IsRowOf(f, s, start, listings[i], k, own);
    AppliedRowsAre(f, s, start, listings[i], own);
    AssignAllOwnPath(start, AppliedRows(f, s, start, listings[i]), own, x);
  }

  lemma EntryInFamily(fams: seq<Family>, s: Store, listings: seq<seq<string>>, i: nat, x: Path)
    requires Unambiguous(fams) && ListsAll(fams, s, listings) && i < |fams|
    requires fams[i].key in s && s[fams[i].key].Dict?
    requires forall row <- AppliedRows(fams[i], s, Current(s, fams[i]), listings[i]) :: Apart(row.path, x)
    ensures var after := RepairAll(fams, s, listings);
            fams[i].key in after && At(after[fams[i].key], x) == At(s[fams[i].key], x)
  {
    var f, start := fams[i], Current(s, fams[i]);
    KeyAfterRepair(fams, s, listings, i);
    VisitRowsAssignsAll(f, s, start, listings[i]);
    AssignAllOffPaths(start, AppliedRows(f, s, start, listings[i]), x);
  }

  // ---- The table itself ----

  class ConfigTable {
    var rows: Store

    constructor (rows: Store)
      ensures this.rows == rows
    {
      this.rows := rows;
    }

    // `listing` is the answer of the query for rows under the old prefix.
    method RenamePrefix(persistent: bool, from: string, to: string, listing: seq<string>)
      requires Distinct(from, to)
      requires forall k :: k in listing <==> k in rows && HasPrefix(from, k)
      requires forall i, j :: 0 <= i < j < |listing| ==> listing[i] != listing[j]
      modifies this
      ensures rows == if persistent then Renamed(old(rows), from, to) else old(rows)
      ensures persistent ==> RowsMoved(old(rows), from, to, rows)
    {
      if !persistent {
        return;
      }
      ghost var done: set<string> := {};
      for i := 0 to |listing|
        invariant forall k :: k in done <==> k in listing[..i]
        invariant forall k <- done :: k in old(rows) && HasPrefix(from, k)
        invariant rows == RenamedPart(old(rows), from, to, done)
      {
        var k := listing[i];
        assert listing[..i + 1] == listing[..i] + [k] && k in listing && k !in listing[..i];
        RenameStep(old(rows), from, to, done, k);
        var newKey := Moved(from, to, k);
        if newKey !in rows {
          rows := rows[newKey := rows[k]];
        }
        rows := rows - {k};
        done := done + {k};
      }
      assert listing[..|listing|] == listing;
      assert done == set k | k in old(rows) && HasPrefix(from, k);
      RenamedMovesRows(old(rows), from, to);
    }

    // The loop over the rows of one family.
    static method VisitFamily(f: Family, s: Store, start: Json, listing: seq<string>) returns (p: Progress)
      requires start.Dict? && forall k <- listing :: Owns(f, k) ==> k in s
      ensures p == VisitRows(f, s, start, listing)
    {
      var repaired, orphans := start, [];
      for n := 0 to |listing|
        invariant repaired.Dict? && Progress(repaired, orphans) == VisitRows(f, s, start, listing[..n])
      {
        VisitRowsNext(f, s, start, listing, n);
        var path := TargetPath(f, listing[n]);
        if path.Some? && !Blocked(f, repaired, path.value) {
          repaired := Assign(repaired, path.value, s[listing[n]]);
          orphans := orphans + [listing[n]];
        }
      }
      assert listing[..|listing|] == listing;
      return Progress(repaired, orphans);
    }

    method RepairFlattened(persistent: bool, fams: seq<Family>, listings: seq<seq<string>>)
      requires ListsAll(fams, rows, listings)
      modifies this
      ensures rows == if persistent then RepairAll(fams, old(rows), listings) else old(rows)
    {
      if !persistent {
        return;
      }
      var orphans: seq<string> := [];
      for i := 0 to |fams|
        invariant (rows, orphans) == RepairFamilies(fams, old(rows), listings, i)
      {
        var f := fams[i];
        forall k | k in listings[i] && Owns(f, k) ensures k in rows {
          assert Lists(f, old(rows), listings[i]);
        }
        var repaired := VisitFamily(f, rows, Current(rows, f), listings[i]);
        orphans := orphans + repaired.orphans;
        if repaired.orphans != [] {
          rows := rows[f.key := repaired.tree];
        }
      }
      rows := Without(rows, orphans);
    }

    method SeedDefaults(defaults: Store)
      modifies this
      ensures rows == Seeded(old(rows), defaults)
      ensures rows.Keys == old(rows).Keys + defaults.Keys
      ensures forall k <- old(rows) :: rows[k] == old(rows)[k]
      ensures forall k <- defaults :: k !in old(rows) ==> rows[k] == defaults[k]
    {
      var todo := defaults.Keys;
      while todo != {}
        invariant todo <= defaults.Keys
        invariant rows == Seeded(old(rows), defaults - todo)
      {
        var key :| key in todo;
        if key !in rows {
          rows := rows[key := defaults[key]];
        }
        todo := todo - {key};
      }
    }

    // The three steps run when the application starts.
    method SeedRegisteredDefaults(persistent: bool, fams: seq<Family>, defaults: Store, from: string, to: string,
                                  listing: seq<string>, listings: seq<seq<string>>)
      requires Distinct(from, to)
      requires forall k :: k in listing <==> k in rows && HasPrefix(from, k)
      requires forall i, j :: 0 <= i < j < |listing| ==> listing[i] != listing[j]
      requires ListsAll(fams, if persistent then Renamed(rows, from, to) else rows, listings)
      modifies this
      ensures rows == if persistent then Startup(fams, old(rows), defaults, from, to, listings)
                      else Seeded(old(rows), defaults)
      ensures defaults.Keys <= rows.Keys
    {
      RenamePrefix(persistent, from, to, listing);
      RepairFlattened(persistent, fams, listings);
      SeedDefaults(defaults);
    }
  }

  lemma RenameStep(s: Store, from: string, to: string, done: set<string>, k: string)
    requires forall r <- done :: r in s && HasPrefix(from, r)
    requires Distinct(from, to) && k in s && HasPrefix(from, k) && k !in done
    ensures var before := RenamedPart(s, from, to, done);
            var k' := Moved(from, to, k);
            && k in before
            && RenamedPart(s, from, to, done + {k}) ==
               (if k' in before then before else before[k' := before[k]]) - {k}
  {
    var k' := Moved(from, to, k);
    MovedBack(from, to, k);
    forall r | r in done ensures Moved(from, to, r) != k' {
      MovedBack(from, to, r);
    }
    assert !HasPrefix(from, k');
  }
}
