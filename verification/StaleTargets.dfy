/**
 What a preview lists: stale files directly under a root, and stale directories one level
 further down, or at the first level where there are none below. No listed path lies inside
 another, so the loop of an undisturbed execute deletes the list exactly.
 */
module StaleTargets {
  import opened Wrappers
  import opened Sequences
  import opened Cleanup

  datatype Entry =
    | FileEntry(name: string, mtime: int)
    | DirEntry(name: string, mtime: int, children: seq<Entry>)
    | Other(name: string)    // a symbolic link, or neither file nor directory

  // The listing is missing when the root does not exist.
  datatype Root = Root(path: Path, listing: Option<seq<Entry>>)

  function SubDirs(children: seq<Entry>): (r: seq<Entry>)
    ensures forall e :: e in r <==> e in children && e.DirEntry?
  {
    if children == [] then []
    else if children[0].DirEntry? then [children[0]] + SubDirs(children[1..])
    else SubDirs(children[1..])
  }

  // Stale directories among those directly below a first-level directory.
  function StaleDirs(above: Path, dirs: seq<Entry>, cutoff: int): seq<Path>
    requires forall d <- dirs :: d.DirEntry?
  {
    if dirs == [] then []
    else
      var last := dirs[|dirs| - 1];
      StaleDirs(above, dirs[..|dirs| - 1], cutoff) + if last.mtime < cutoff then [above + [last.name]] else []
  }

  function StaleAt(root: Path, e: Entry, cutoff: int): seq<Path> {
    match e
    case FileEntry(name, mtime) => if mtime < cutoff then [root + [name]] else []
    case DirEntry(name, mtime, children) =>
      if SubDirs(children) != [] then StaleDirs(root + [name], SubDirs(children), cutoff)
      else if mtime < cutoff then [root + [name]] else []
    case Other(_) => []
  }

  function StaleUnder(root: Path, entries: seq<Entry>, cutoff: int): seq<Path> {
    if entries == [] then []
    else StaleUnder(root, entries[..|entries| - 1], cutoff) + StaleAt(root, entries[|entries| - 1], cutoff)
  }

  function Stale(roots: seq<Root>, cutoff: int): seq<Path> {
    if roots == [] then []
    else
      var last := roots[|roots| - 1];
      Stale(roots[..|roots| - 1], cutoff) +
      if last.listing.Some? then StaleUnder(last.path, last.listing.value, cutoff) else []
  }

  // The nested loops of the listing.
  method ListStale(roots: seq<Root>, cutoff: int) returns (targets: seq<Path>)
    ensures targets == Stale(roots, cutoff)
  {
    targets := [];
    for r := 0 to |roots|
      invariant targets == Stale(roots[..r], cutoff)
    {
      assert roots[..r + 1][..r] == roots[..r];
      if roots[r].listing.None? {
        continue;
      }
      var found := ListStaleUnder(roots[r].path, roots[r].listing.value, cutoff);
      targets := targets + found;
    }
    assert roots[..|roots|] == roots;
  }

  method ListStaleUnder(root: Path, entries: seq<Entry>, cutoff: int) returns (targets: seq<Path>)
    ensures targets == StaleUnder(root, entries, cutoff)
  {
    targets := [];
    for i := 0 to |entries|
      invariant targets == StaleUnder(root, entries[..i], cutoff)
    {
      assert entries[..i + 1][..i] == entries[..i];
      var found := ListStaleAt(root, entries[i], cutoff);
      targets := targets + found;
    }
    assert entries[..|entries|] == entries;
  }

  method ListStaleAt(root: Path, e: Entry, cutoff: int) returns (targets: seq<Path>)
    ensures targets == StaleAt(root, e, cutoff)
  {
    match e {
      case Other(_) =>
        return [];
      case FileEntry(name, mtime) =>
        return if mtime < cutoff then [root + [name]] else [];
      case DirEntry(name, mtime, children) =>
        var dirs := SubDirs(children);
        if dirs == [] {
          return if mtime < cutoff then [root + [name]] else [];
        }
        targets := [];
        for i := 0 to |dirs|
          invariant targets == StaleDirs(root + [name], dirs[..i], cutoff)
        {
          assert dirs[..i + 1][..i] == dirs[..i];
          if dirs[i].mtime < cutoff {
            targets := targets + [root + [name] + [dirs[i].name]];
          }
        }
        assert dirs[..|dirs|] == dirs;
    }
  }

  // ---- Which entries are listed ----

  // A stale file directly under a root, a stale directory without subdirectories there, or a
  // stale directory one level down.
  ghost predicate IsStaleAt(root: Path, e: Entry, cutoff: int, p: Path) {
    match e
    case FileEntry(name, mtime) => mtime < cutoff && p == root + [name]
    case DirEntry(name, mtime, children) =>
      if exists d <- children :: d.DirEntry? then
        exists d <- children :: d.DirEntry? && d.mtime < cutoff && p == root + [name] + [d.name]
      else mtime < cutoff && p == root + [name]
    case Other(_) => false
  }

  ghost predicate IsStale(roots: seq<Root>, cutoff: int, p: Path) {
    exists r <- roots :: r.listing.Some? && exists e <- r.listing.value :: IsStaleAt(r.path, e, cutoff, p)
  }

  lemma {:induction false} StaleDirsAre(above: Path, dirs: seq<Entry>, cutoff: int, p: Path)
    requires forall d <- dirs :: d.DirEntry?
    ensures p in StaleDirs(above, dirs, cutoff) <==> exists d <- dirs :: d.mtime < cutoff && p == above + [d.name]
    decreases |dirs|
  {
    if dirs != [] {
      var init, last := dirs[..|dirs| - 1], dirs[|dirs| - 1];
      StaleDirsAre(above, init, cutoff, p);
      assert forall d :: d in dirs <==> d in init || d == last;
    }
  }

  lemma StaleAtIs(root: Path, e: Entry, cutoff: int, p: Path)
    ensures p in StaleAt(root, e, cutoff) <==> IsStaleAt(root, e, cutoff, p)
  {
    if e.DirEntry? {
      var dirs := SubDirs(e.children);
      assert dirs != [] ==> dirs[0] in dirs;
      StaleDirsAre(root + [e.name], dirs, cutoff, p);
    }
  }

  lemma {:induction false} StaleUnderIs(root: Path, entries: seq<Entry>, cutoff: int, p: Path)
    ensures p in StaleUnder(root, entries, cutoff) <==> exists e <- entries :: IsStaleAt(root, e, cutoff, p)
    decreases |entries|
  {
    if entries != [] {
      var init, last := entries[..|entries| - 1], entries[|entries| - 1];
      StaleUnderIs(root, init, cutoff, p);
      StaleAtIs(root, last, cutoff, p);
      assert forall e :: e in entries <==> e in init || e == last;
    }
  }

  // The list holds exactly these paths.
  lemma {:induction false} StaleIs(roots: seq<Root>, cutoff: int, p: Path)
    ensures p in Stale(roots, cutoff) <==> IsStale(roots, cutoff, p)
    decreases |roots|
  {
    if roots != [] {
      var init, last := roots[..|roots| - 1], roots[|roots| - 1];
      StaleIs(init, cutoff, p);
      if last.listing.Some? {
        StaleUnderIs(last.path, last.listing.value, cutoff, p);
      }
      assert forall r :: r in roots <==> r in init || r == last;
    }
  }

  // ---- No listed path lies inside another ----

  ghost predicate PairwiseApart(ts: seq<Path>) {
    forall i, j :: 0 <= i < j < |ts| ==> Apart(ts[i], ts[j])
  }

  ghost predicate UniqueNames(entries: seq<Entry>) {
    forall i, j :: 0 <= i < j < |entries| ==> entries[i].name != entries[j].name
  }

  // Directory entries have distinct names, at both levels.
  ghost predicate WellNamed(entries: seq<Entry>) {
    UniqueNames(entries) && forall e <- entries :: e.DirEntry? ==> UniqueNames(SubDirs(e.children))
  }

  lemma PrefixFacts(p: Path, q: Path, s: Path)
    ensures p <= q && q <= s ==> p <= s
    ensures p <= s && q <= s ==> p <= q || q <= p
  {
  }

  lemma ApartBelow(p: Path, q: Path, p': Path, q': Path)
    requires Apart(p, q) && p <= p' && q <= q'
    ensures Apart(p', q')
  {
    PrefixFacts(p, p', q');
    PrefixFacts(p, q, q');
    PrefixFacts(q, q', p');
    PrefixFacts(p, q, p');
  }

  lemma NamesApart(above: Path, n: string, m: string)
    requires n != m
    ensures Apart(above + [n], above + [m])
  {
    assert (above + [n])[|above|] != (above + [m])[|above|];
  }

  lemma {:induction false} StaleDirsApart(above: Path, dirs: seq<Entry>, cutoff: int)
    requires (forall d <- dirs :: d.DirEntry?) && UniqueNames(dirs)
    ensures PairwiseApart(StaleDirs(above, dirs, cutoff))
    ensures forall p <- StaleDirs(above, dirs, cutoff) :: exists d :: d in dirs && p == above + [d.name]
    decreases |dirs|
  {
    if dirs != [] {
      var init, last := dirs[..|dirs| - 1], dirs[|dirs| - 1];
      StaleDirsApart(above, init, cutoff);
      forall p | p in StaleDirs(above, init, cutoff) ensures Apart(p, above + [last.name]) {
        var d :| d in init && p == above + [d.name];
        NamesApart(above, d.name, last.name);
      }
    }
  }

  lemma StaleAtApart(root: Path, e: Entry, cutoff: int)
    requires e.DirEntry? ==> UniqueNames(SubDirs(e.children))
    ensures PairwiseApart(StaleAt(root, e, cutoff))
    ensures forall p <- StaleAt(root, e, cutoff) :: root + [e.name] <= p
  {
    if e.DirEntry? {
      StaleDirsApart(root + [e.name], SubDirs(e.children), cutoff);
    }
  }

  lemma ApartAppend(ts: seq<Path>, us: seq<Path>)
    requires PairwiseApart(ts) && PairwiseApart(us)
    requires forall p, q :: p in ts && q in us ==> Apart(p, q)
    ensures PairwiseApart(ts + us)
  {
  }

  lemma {:induction false} StaleUnderApart(root: Path, entries: seq<Entry>, cutoff: int)
    requires WellNamed(entries)
    ensures PairwiseApart(StaleUnder(root, entries, cutoff))
    ensures forall p <- StaleUnder(root, entries, cutoff) :: exists e :: e in entries && root + [e.name] <= p
    decreases |entries|
  {
    if entries != [] {
      var init, last := entries[..|entries| - 1], entries[|entries| - 1];
      StaleUnderApart(root, init, cutoff);
      StaleAtApart(root, last, cutoff);
      forall p, q | p in StaleUnder(root, init, cutoff) && q in StaleAt(root, last, cutoff) ensures Apart(p, q) {
        var e :| e in init && root + [e.name] <= p;
        NamesApart(root, e.name, last.name);
        ApartBelow(root + [e.name], root + [last.name], p, q);
      }
      ApartAppend(StaleUnder(root, init, cutoff), StaleAt(root, last, cutoff));
    }
  }

  ghost predicate DisjointRoots(roots: seq<Root>) {
    forall i, j :: 0 <= i < j < |roots| ==> Apart(roots[i].path, roots[j].path)
  }

  lemma {:induction false} TargetsAreApart(roots: seq<Root>, cutoff: int)
    requires DisjointRoots(roots) && forall r <- roots :: r.listing.Some? ==> WellNamed(r.listing.value)
    ensures PairwiseApart(Stale(roots, cutoff))
    ensures forall p <- Stale(roots, cutoff) :: exists r :: r in roots && r.path <= p
    decreases |roots|
  {
    if roots != [] {
      var init, last := roots[..|roots| - 1], roots[|roots| - 1];
      TargetsAreApart(init, cutoff);
      if last.listing.Some? {
        var more := StaleUnder(last.path, last.listing.value, cutoff);
        StaleUnderApart(last.path, last.listing.value, cutoff);
        forall p, q | p in Stale(init, cutoff) && q in more ensures Apart(p, q) {
          var r :| r in init && r.path <= p;
          var e :| e in last.listing.value && last.path + [e.name] <= q;
          assert last.path <= q;
          ApartBelow(r.path, last.path, p, q);
        }
        ApartAppend(Stale(init, cutoff), more);
      }
    }
  }

  // ---- An undisturbed execute ----

  // The deletion loop of one execute, with listed paths resolving to themselves.
  method DeleteTargets(fs: FileSystem, targets: seq<Path>) returns (after: FileSystem, deleted: seq<Path>)
    ensures (after, deleted) == Swept(fs, targets)
  {
    after, deleted := fs, [];
    for i := 0 to |targets|
      invariant (after, deleted) == Swept(fs, targets[..i])
    {
      assert targets[..i + 1][..i] == targets[..i];
      if targets[i] in after {
        after := Removed(after, targets[i]);
        deleted := deleted + [targets[i]];
      }
    }
    assert targets[..|targets|] == targets;
  }

  function Swept(fs: FileSystem, targets: seq<Path>): (FileSystem, seq<Path>) {
    if targets == [] then (fs, [])
    else
      var (before, deleted) := Swept(fs, targets[..|targets| - 1]);
      var p := targets[|targets| - 1];
      if p in before then (Removed(before, p), deleted + [p]) else (before, deleted)
  }

  // What no target holds is still there.
  lemma {:induction false} SweepKeepsOthers(fs: FileSystem, targets: seq<Path>, q: Path)
    requires q in fs && forall p <- targets :: !(p <= q)
    ensures q in Swept(fs, targets).0 && Swept(fs, targets).0[q] == fs[q]
    decreases |targets|
  {
    if targets != [] {
      var init, p := targets[..|targets| - 1], targets[|targets| - 1];
      assert p in targets && forall t :: t in init ==> t in targets;
      SweepKeepsOthers(fs, init, q);
    }
  }

  // Every target still exists when its turn comes, so all of them are deleted, in order.
  lemma {:induction false} SweepIsExact(fs: FileSystem, targets: seq<Path>)
    requires PairwiseApart(targets) && forall p <- targets :: p in fs
    ensures Swept(fs, targets).1 == targets
    decreases |targets|
  {
    if targets != [] {
      var init, p := targets[..|targets| - 1], targets[|targets| - 1];
      SweepIsExact(fs, init);
      assert forall q <- init :: Apart(q, p);
      SweepKeepsOthers(fs, init, p);
    }
  }

  // The path is listed, or lies somewhere below a listed directory.
  ghost predicate Doomed(fs: FileSystem, targets: seq<Path>, q: Path) {
    exists p <- targets :: p in fs && (q == p || (fs[p] == Directory && p <= q))
  }

  ghost predicate LeftWithout(fs: FileSystem, targets: seq<Path>, after: FileSystem) {
    forall q :: (q in after <==> q in fs && !Doomed(fs, targets, q)) && (q in after ==> after[q] == fs[q])
  }

  lemma DoomedByLast(fs: FileSystem, init: seq<Path>, p: Path, q: Path)
    ensures Doomed(fs, init + [p], q) <==>
            Doomed(fs, init, q) || (p in fs && (q == p || (fs[p] == Directory && p <= q)))
  {
    forall t ensures t in init + [p] <==> t in init || t == p {
    }
  }

  // The deletion loop takes the listed paths, with all that a listed directory holds, and
  // nothing else.
  lemma {:induction false} SweepLeaves(fs: FileSystem, targets: seq<Path>)
    requires PairwiseApart(targets)
    ensures LeftWithout(fs, targets, Swept(fs, targets).0)
    decreases |targets|
  {
    if targets != [] {
      var init, p := targets[..|targets| - 1], targets[|targets| - 1];
      var before := Swept(fs, init).0;
      SweepLeaves(fs, init);
      assert targets == init + [p] && forall t <- init :: Apart(t, p);
      assert !Doomed(fs, init, p);
      forall q ensures (q in Swept(fs, targets).0 <==> q in fs && !Doomed(fs, targets, q)) &&
                       (q in Swept(fs, targets).0 ==> Swept(fs, targets).0[q] == fs[q]) {
        DoomedByLast(fs, init, p, q);
      }
    }
  }

  // The preview's paths exist when it is made.
  ghost predicate Describes(fs: FileSystem, roots: seq<Root>) {
    forall r <- roots :: r.listing.Some? ==>
      forall e <- r.listing.value ::
        && r.path + [e.name] in fs
        && (e.DirEntry? ==> forall d <- SubDirs(e.children) :: r.path + [e.name] + [d.name] in fs)
  }

  lemma {:induction false} DirsExist(fs: FileSystem, above: Path, dirs: seq<Entry>, cutoff: int)
    requires forall d <- dirs :: d.DirEntry? && above + [d.name] in fs
    ensures forall p <- StaleDirs(above, dirs, cutoff) :: p in fs
    decreases |dirs|
  {
    if dirs != [] {
      DirsExist(fs, above, dirs[..|dirs| - 1], cutoff);
    }
  }

  lemma {:induction false} EntriesExist(fs: FileSystem, r: Root, entries: seq<Entry>, cutoff: int)
    requires r.listing.Some? && Describes(fs, [r]) && forall e <- entries :: e in r.listing.value
    ensures forall p <- StaleUnder(r.path, entries, cutoff) :: p in fs
    decreases |entries|
  {
    if entries != [] {
      var last := entries[|entries| - 1];
      EntriesExist(fs, r, entries[..|entries| - 1], cutoff);
      assert last in r.listing.value && r in [r];
      if last.DirEntry? {
        DirsExist(fs, r.path + [last.name], SubDirs(last.children), cutoff);
      }
    }
  }

  lemma {:induction false} TargetsExist(fs: FileSystem, roots: seq<Root>, cutoff: int)
    requires Describes(fs, roots)
    ensures forall p <- Stale(roots, cutoff) :: p in fs
    decreases |roots|
  {
    if roots != [] {
      var last := roots[|roots| - 1];
      TargetsExist(fs, roots[..|roots| - 1], cutoff);
      if last.listing.Some? {
        assert last in roots;
        EntriesExist(fs, last, last.listing.value, cutoff);
      }
    }
  }

  // ---- The list in any order: the source sorts it ----

  lemma CountLast(init: seq<Path>, last: Path, p: Path)
    ensures multiset(init + [last])[p] == multiset(init)[p] + if last == p then 1 else 0
  {
  }

  lemma {:induction false} CountedOnce(ts: seq<Path>, p: Path)
    requires PairwiseApart(ts)
    ensures multiset(ts)[p] <= 1
    decreases |ts|
  {
    if ts != [] {
      var init, last := ts[..|ts| - 1], ts[|ts| - 1];
      assert ts == init + [last] && forall q <- init :: Apart(q, last);
      CountLast(init, last, p);
      if last != p {
        CountedOnce(init, p);
      } else {
        assert p !in init;
      }
    }
  }

  lemma CountedTwice(ts: seq<Path>, i: nat, j: nat)
    requires i < j < |ts| && ts[i] == ts[j]
    ensures multiset(ts)[ts[i]] >= 2
  {
    assert ts == ts[..j] + ts[j..];
    assert ts[i] in ts[..j] && ts[j] in ts[j..];
  }

  lemma ApartInAnyOrder(ts: seq<Path>, us: seq<Path>)
    requires PairwiseApart(ts) && multiset(us) == multiset(ts)
    ensures PairwiseApart(us)
  {
    forall i, j | 0 <= i < j < |us| ensures Apart(us[i], us[j]) {
      if us[i] == us[j] {
        CountedTwice(us, i, j);
        CountedOnce(ts, us[i]);
      } else {
        assert us[i] in multiset(ts) && us[j] in multiset(ts);
        var k :| 0 <= k < |ts| && ts[k] == us[i];
        var l :| 0 <= l < |ts| && ts[l] == us[j];
      }
    }
  }

  // ---- An undisturbed execute, as a run of the cleanup ----

  lemma {:induction false} SweptFirst(fs: FileSystem, p: Path, rest: seq<Path>)
    ensures Swept(fs, [p] + rest) ==
            if p in fs then (Swept(Removed(fs, p), rest).0, [p] + Swept(Removed(fs, p), rest).1) else Swept(fs, rest)
    decreases |rest|
  {
    var all := [p] + rest;
    if rest == [] {
      assert all == [p] && [p][..0] == [] && [p] + [] == [] + [p];
    } else {
      var n := |rest| - 1;
      assert all[..n + 1] == [p] + rest[..n] && all[n + 1] == rest[n];
      SweptFirst(fs, p, rest[..n]);
      if p in fs {
        var (before, deleted) := Swept(Removed(fs, p), rest[..n]);
        assert Swept(fs, all[..n + 1]) == (before, [p] + deleted);
        assert [p] + (deleted + [rest[n]]) == ([p] + deleted) + [rest[n]];
      }
    }
  }

  // Only this execute takes steps, and its targets resolve to themselves.
  ghost predicate Undisturbed(c: Settings, s: State, id: nat, acts: seq<Action>)
    requires Runs(c, s, acts)
  {
    Canonical(c, s, acts) && forall a <- acts :: a.Step? && a.id == id
  }

  // Where the execute stands: its remaining targets, all approved.
  ghost predicate Standing(c: Settings, s: State, id: nat, targets: seq<Path>) {
    && id in s.executes
    && var e := s.executes[id];
       && e.id == id && e.token in s.previews && e.next <= |e.targets| && targets == e.targets[e.next..]
       && forall p <- targets :: Approved(c, p)
  }

  // What one step does to an execute with a target left.
  lemma StandingNext(c: Settings, s: State, id: nat, targets: seq<Path>, a: Action)
    requires Standing(c, s, id, targets) && targets != [] && s.executes[id].unaudited.None?
    requires a.Step? && a.id == id && a.resolved == targets[0]
    ensures var s' := Next(c, s, a);
            && Standing(c, s', id, targets[1..]) && s'.executes[id].token == s.executes[id].token
            && if targets[0] in s.fs then
                 && s'.fs == Removed(s.fs, targets[0]) && s'.executes[id].unaudited.Some?
                 && DeletedBy(s'.deletions, id) == DeletedBy(s.deletions, id) + [targets[0]]
               else s'.fs == s.fs && s'.executes[id].unaudited.None? && s'.deletions == s.deletions
  {
    var s' := Next(c, s, a);
    assert targets[1..] == s.executes[id].targets[s.executes[id].next + 1..];
    if targets[0] in s.fs {
      assert s'.deletions[..|s.deletions|] == s.deletions;
    }
  }

  lemma StandingRecorded(c: Settings, s: State, id: nat, targets: seq<Path>, a: Action)
    requires Standing(c, s, id, targets) && s.executes[id].unaudited.Some? && a.Step? && a.id == id
    ensures var s' := Next(c, s, a);
            && Standing(c, s', id, targets) && s'.executes[id].token == s.executes[id].token
            && s'.executes[id].unaudited.None? && s'.fs == s.fs && s'.deletions == s.deletions
  {
  }

  // The state after the deletion loop on the targets, with all deletions on record and the
  // preview marked executed.
  ghost predicate SweptInto(s: State, id: nat, targets: seq<Path>, after: State)
    requires id in s.executes
  {
    var token := s.executes[id].token;
    && after.fs == Swept(s.fs, targets).0
    && DeletedBy(after.deletions, id) == DeletedBy(s.deletions, id) + Swept(s.fs, targets).1
    && token in after.previews && after.previews[token].executed
    && AuditedBy(after.audit, id) == DeletedBy(after.deletions, id)
  }

  lemma SweptIntoNext(c: Settings, s: State, id: nat, targets: seq<Path>, a: Action, after: State)
    requires Standing(c, s, id, targets) && targets != [] && s.executes[id].unaudited.None?
    requires a.Step? && a.id == id && a.resolved == targets[0]
    requires id in Next(c, s, a).executes && SweptInto(Next(c, s, a), id, targets[1..], after)
    ensures SweptInto(s, id, targets, after)
  {
    StandingNext(c, s, id, targets, a);
    assert targets == [targets[0]] + targets[1..];
    SweptFirst(s.fs, targets[0], targets[1..]);
    if targets[0] in s.fs {
      ConcatIsAssociative(DeletedBy(s.deletions, id), [targets[0]], Swept(Removed(s.fs, targets[0]), targets[1..]).1);
    }
  }

  lemma NoneLeftIsSwept(c: Settings, s: State, id: nat, a: Action)
    requires Inv(c, s) && Standing(c, s, id, []) && s.executes[id].unaudited.None? && a.Step? && a.id == id
    ensures id !in Next(c, s, a).executes && SweptInto(s, id, [], Next(c, s, a))
  {
    CommitIsAudited(c, s, id, a.resolved);
    assert a == Step(id, a.resolved);
  }

  lemma AuditedIsSwept(c: Settings, s: State, id: nat, targets: seq<Path>, a: Action, after: State)
    requires Standing(c, s, id, targets) && s.executes[id].unaudited.Some? && a.Step? && a.id == id
    requires id in Next(c, s, a).executes && SweptInto(Next(c, s, a), id, targets, after)
    ensures SweptInto(s, id, targets, after)
  {
    StandingRecorded(c, s, id, targets, a);
  }

  lemma UndisturbedNext(c: Settings, s: State, id: nat, targets: seq<Path>, acts: seq<Action>)
    requires Standing(c, s, id, targets) && Runs(c, s, acts) && Undisturbed(c, s, id, acts)
    requires id !in After(c, s, acts).executes
    ensures acts != [] && acts[0].Step? && acts[0].id == id
    ensures targets != [] ==> acts[0].resolved == targets[0]
    ensures |acts| > 1 ==> acts[1].Step? && acts[1].id == id
    ensures var s' := Next(c, s, acts[0]);
            && Runs(c, s', acts[1..]) && Undisturbed(c, s', id, acts[1..])
            && After(c, s, acts) == After(c, s', acts[1..])
  {
    assert acts[0] in acts && (|acts| > 1 ==> acts[1] in acts);
  }

  // If nothing else happens until the execute is over, it does to the files what the deletion
  // loop does, every deletion is on record, and its preview is marked executed.
  lemma {:induction false} UndisturbedIsSwept(c: Settings, s: State, id: nat, targets: seq<Path>, acts: seq<Action>)
    requires Inv(c, s) && Standing(c, s, id, targets) && Runs(c, s, acts) && Undisturbed(c, s, id, acts)
    requires id !in After(c, s, acts).executes
    ensures SweptInto(s, id, targets, After(c, s, acts))
    decreases |acts|
  {
    UndisturbedNext(c, s, id, targets, acts);
    var a := acts[0];
    var s' := Next(c, s, a);
    StepKeepsInv(c, s, a);
    if s.executes[id].unaudited.Some? {
      StandingRecorded(c, s, id, targets, a);
      UndisturbedIsSwept(c, s', id, targets, acts[1..]);
      AuditedIsSwept(c, s, id, targets, a, After(c, s, acts));
    } else if targets != [] {
      StandingNext(c, s, id, targets, a);
      UndisturbedIsSwept(c, s', id, targets[1..], acts[1..]);
      SweptIntoNext(c, s, id, targets, a, After(c, s, acts));
    } else {
      NoneLeftIsSwept(c, s, id, a);
      OverStaysOver(c, s', id, acts[1..]);
    }
  }

  lemma OverStaysOver(c: Settings, s: State, id: nat, acts: seq<Action>)
    requires id !in s.executes && Runs(c, s, acts) && (acts != [] ==> acts[0].Step? && acts[0].id == id)
    ensures acts == []
  {
  }

  // And there is such a run.
  lemma {:induction false} UndisturbedRun(c: Settings, s: State, id: nat, targets: seq<Path>)
    returns (acts: seq<Action>)
    requires Standing(c, s, id, targets)
    ensures Runs(c, s, acts) && Undisturbed(c, s, id, acts) && id !in After(c, s, acts).executes
    decreases |targets|, if s.executes[id].unaudited.Some? then 1 else 0
  {
    var e := s.executes[id];
    var a := Step(id, if targets != [] then targets[0] else []);
    var s' := Next(c, s, a);
    var rest: seq<Action> := [];
    if e.unaudited.Some? {
      StandingRecorded(c, s, id, targets, a);
      rest := UndisturbedRun(c, s', id, targets);
    } else if targets != [] {
      StandingNext(c, s, id, targets, a);
      rest := UndisturbedRun(c, s', id, targets[1..]);
    }
    acts := [a] + rest;
    assert acts[1..] == rest;
    RunOne(c, s, acts);
  }

  // A run of one execute alone deletes exactly the previewed list, records all of it, and leaves
  // all files but the listed ones and those below listed directories.
  lemma BegunExecuteDeletesThePreview(c: Settings, s: State, id: nat, acts: seq<Action>, roots: seq<Root>, cutoff: int)
    requires Inv(c, s) && id in s.executes && s.executes[id].unaudited.None? && s.executes[id].next == 0
    requires multiset(s.executes[id].targets) == multiset(Stale(roots, cutoff))
    requires DisjointRoots(roots) && Describes(s.fs, roots)
    requires forall r <- roots :: r.listing.Some? ==> WellNamed(r.listing.value)
    requires Runs(c, s, acts) && Undisturbed(c, s, id, acts) && id !in After(c, s, acts).executes
    ensures var after, listed := After(c, s, acts), s.executes[id].targets;
            && DeletedBy(after.deletions, id) == DeletedBy(s.deletions, id) + listed
            && AuditedBy(after.audit, id) == DeletedBy(after.deletions, id)
            && LeftWithout(s.fs, listed, after.fs)
  {
    var listed := s.executes[id].targets;
    assert s.executes[id].targets[0..] == listed;
    assert Standing(c, s, id, listed);
    UndisturbedIsSwept(c, s, id, listed, acts);
    SweepDeletesThePreview(s.fs, roots, cutoff, listed);
  }

  // The administrator previews, with the paths in any order, and begins an execute of it.
  function PreviewAndBegin(user: User, listed: seq<Path>, token: Token, id: nat): seq<Action> {
    [MakePreview(user, true, listed, token), Begin(id, user, true, token)]
  }

  // Everything that is listed is approved, because the roots are.
  lemma ListedIsApproved(c: Settings, roots: seq<Root>, cutoff: int, listed: seq<Path>)
    requires DisjointRoots(roots) && forall r <- roots :: r.listing.Some? ==> WellNamed(r.listing.value)
    requires (forall r <- roots :: Approved(c, r.path)) && multiset(listed) == multiset(Stale(roots, cutoff))
    ensures forall p <- listed :: Approved(c, p)
  {
    TargetsAreApart(roots, cutoff);
    forall p | p in listed ensures Approved(c, p) {
      assert p in multiset(listed);
      assert p in Stale(roots, cutoff);
      var r :| r in roots && r.path <= p;
      PrefixFacts(c.outputRoot, r.path, p);
      PrefixFacts(c.versionsRoot, r.path, p);
    }
  }

  lemma PreviewBegins(c: Settings, s: State, user: User, listed: seq<Path>, token: Token, id: nat)
    requires Inv(c, s) && token !in s.previews && Enabled(c, s, Begin(id, user, true, token))
    requires forall p <- listed :: Approved(c, p)
    ensures var acts := PreviewAndBegin(user, listed, token, id);
            && Runs(c, s, acts)
            && var begun := After(c, s, acts);
               && Inv(c, begun) && begun.fs == s.fs && begun.deletions == s.deletions && id in begun.executes
               && var e := begun.executes[id];
                  e.targets == listed && e.next == 0 && e.unaudited.None? && DeletedBy(begun.deletions, id) == []
  {
    var acts := PreviewAndBegin(user, listed, token, id);
    var s1 := Next(c, s, acts[0]);
    var s2 := Next(c, s1, acts[1]);
    RunOne(c, s2, []);
    RunOne(c, s1, acts[1..]);
    RunOne(c, s, acts);
    StepKeepsInv(c, s, acts[0]);
    StepKeepsInv(c, s1, acts[1]);
    NoneBy(s, id);
  }

  // Preview, then execute to the end, with nothing in between: exactly the listed paths are
  // deleted, each of them on record, and all files but those and what they held are left.
  lemma ExecuteDeletesThePreview(c: Settings, s: State, user: User, listed: seq<Path>, token: Token, id: nat,
                                 acts: seq<Action>, roots: seq<Root>, cutoff: int)
    requires Inv(c, s) && token !in s.previews && Enabled(c, s, Begin(id, user, true, token))
    requires multiset(listed) == multiset(Stale(roots, cutoff))
    requires DisjointRoots(roots) && Describes(s.fs, roots) && forall r <- roots :: Approved(c, r.path)
    requires forall r <- roots :: r.listing.Some? ==> WellNamed(r.listing.value)
    ensures var start := PreviewAndBegin(user, listed, token, id);
            && Runs(c, s, start)
            && var begun := After(c, s, start);
               Runs(c, begun, acts) && Undisturbed(c, begun, id, acts) && id !in After(c, begun, acts).executes ==>
                 && Runs(c, s, start + acts)
                 && var after := After(c, s, start + acts);
                    && DeletedBy(after.deletions, id) == listed == AuditedBy(after.audit, id)
                    && LeftWithout(s.fs, listed, after.fs)
  {
    var start := PreviewAndBegin(user, listed, token, id);
    ListedIsApproved(c, roots, cutoff, listed);
    PreviewBegins(c, s, user, listed, token, id);
    var begun := After(c, s, start);
    if Runs(c, begun, acts) && Undisturbed(c, begun, id, acts) && id !in After(c, begun, acts).executes {
      BegunExecuteDeletesThePreview(c, begun, id, acts, roots, cutoff);
      RunAppend(c, s, start, acts);
      assert [] + listed == listed;
    }
  }

  // The deletion loop on a preview's list.
  lemma SweepDeletesThePreview(fs: FileSystem, roots: seq<Root>, cutoff: int, listed: seq<Path>)
    requires DisjointRoots(roots) && Describes(fs, roots)
    requires forall r <- roots :: r.listing.Some? ==> WellNamed(r.listing.value)
    requires multiset(listed) == multiset(Stale(roots, cutoff))
    ensures Swept(fs, listed).1 == listed
    ensures LeftWithout(fs, listed, Swept(fs, listed).0)
  {
    TargetsAreApart(roots, cutoff);
    TargetsExist(fs, roots, cutoff);
    ApartInAnyOrder(Stale(roots, cutoff), listed);
    forall p | p in listed ensures p in fs {
      assert p in multiset(Stale(roots, cutoff));
    }
    SweepIsExact(fs, listed);
    SweepLeaves(fs, listed);
  }
}
