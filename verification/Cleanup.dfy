/**
 The two-phase cleanup: an administrator previews the stale targets and later executes that
 preview by its token. Executes of one or several administrators may overlap, may fail at any
 point and may be retried, and the file system may change under them. An execute is cut into
 its deletions, its audit records and its final commit.
 */
module Cleanup {
  import opened Wrappers

  type Path = seq<string>
  type Token = string
  type User = string

  datatype Kind = Directory | File
  type FileSystem = map<Path, Kind>

  datatype Preview = Preview(user: User, targets: seq<Path>, expires: nat, executed: bool)

  // An execute under way: the targets before `next` are done, and the last one deleted may
  // still be unaudited. `began` is the number of steps taken before it.
  datatype Execute = Execute(id: nat, token: Token, user: User, targets: seq<Path>, next: nat,
                             unaudited: Option<Path>, now: nat, began: nat)

  datatype Deletion = Deletion(run: nat, token: Token, user: User, listed: Path, path: Path, now: nat, began: nat)
  datatype AuditEvent = AuditEvent(run: nat, token: Token, user: User, path: Path)

  datatype Settings = Settings(outputRoot: Path, versionsRoot: Path, ttl: nat)

  // deletions and commits record what has happened; no operation reads them.
  datatype State = State(
    clock: nat,
    fs: FileSystem,
    previews: map<Token, Preview>,
    executes: map<nat, Execute>,
    audit: seq<AuditEvent>,
    steps: nat,
    deletions: seq<Deletion>,
    commits: map<Token, nat>      // the step of the first commit
  )

  datatype Action =
    | Wait(clock: nat)
    | Change(fs: FileSystem)                                        // anyone else's writes
    | MakePreview(user: User, admin: bool, targets: seq<Path>, token: Token)
    | Begin(id: nat, user: User, admin: bool, token: Token)         // an execute request
    | Step(id: nat, resolved: Path)                                 // its next step; what the target resolves to
    | Fail(id: nat)                                                 // it stops with an error

  predicate Below(root: Path, p: Path) {
    root <= p
  }

  predicate Approved(c: Settings, p: Path) {
    Below(c.outputRoot, p) || Below(c.versionsRoot, p)
  }

  // Tokens of distinct previews are distinct; executes have distinct ids; a preview lists only
  // approved paths.
  predicate Enabled(c: Settings, s: State, a: Action) {
    match a
    case Wait(clock) => s.clock <= clock
    case Change(_) => true
    case MakePreview(_, _, targets, token) => token !in s.previews && forall p <- targets :: Approved(c, p)
    case Begin(id, _, _, _) =>
      id !in s.executes && (forall d <- s.deletions :: d.run != id) && (forall e <- s.audit :: e.run != id)
    case Step(id, _) => id in s.executes
    case Fail(id) => id in s.executes
  }

  function Removed(fs: FileSystem, p: Path): FileSystem
    requires p in fs
  {
    if fs[p].File? then fs - {p} else map q | q in fs && !(p <= q) :: fs[q]
  }

  function Next(c: Settings, s: State, a: Action): State
    requires Enabled(c, s, a)
  {
    Act(c, s.(steps := s.steps + 1), a)
  }

  function Act(c: Settings, s: State, a: Action): State
    requires Enabled(c, s, a)
  {
    match a
    case Wait(clock) => s.(clock := clock)
    case Change(fs) => s.(fs := fs)
    case MakePreview(user, admin, targets, token) => if admin then Previewed(c, s, user, targets, token) else s
    case Begin(id, user, admin, token) => if admin && Accepted(s, user, token) then Begun(s, id, user, token) else s
    case Fail(id) => Ended(s, id)
    case Step(id, resolved) =>
      var e := s.executes[id];
      if e.unaudited.Some? then Recorded(s, e)
      else if e.next >= |e.targets| then Committed(s, e)
      else if !Approved(c, resolved) then Ended(s, id)
      else if resolved in s.fs then Deleted(s, e, resolved)
      else Skipped(s, e)
  }

  function Previewed(c: Settings, s: State, user: User, targets: seq<Path>, token: Token): State {
    s.(previews := s.previews[token := Preview(user, targets, s.clock + c.ttl, false)])
  }

  // The checks made before an execute starts: the token is this administrator's, not expired
  // and not executed.
  predicate Accepted(s: State, user: User, token: Token) {
    && token in s.previews && s.previews[token].user == user
    && s.clock <= s.previews[token].expires && !s.previews[token].executed
  }

  function Begun(s: State, id: nat, user: User, token: Token): State
    requires token in s.previews
  {
    s.(executes := s.executes[id := Execute(id, token, user, s.previews[token].targets, 0, None, s.clock, s.steps)])
  }

  function Recorded(s: State, e: Execute): State
    requires e.unaudited.Some?
  {
    s.(audit := s.audit + [AuditEvent(e.id, e.token, e.user, e.unaudited.value)],
       executes := s.executes[e.id := e.(unaudited := None)])
  }

  function Deleted(s: State, e: Execute, path: Path): State
    requires e.next < |e.targets| && path in s.fs
  {
    s.(fs := Removed(s.fs, path),
       deletions := s.deletions + [Deletion(e.id, e.token, e.user, e.targets[e.next], path, e.now, e.began)],
       executes := s.executes[e.id := e.(next := e.next + 1, unaudited := Some(path))])
  }

  function Skipped(s: State, e: Execute): State {
    s.(executes := s.executes[e.id := e.(next := e.next + 1)])
  }

  function Committed(s: State, e: Execute): State {
    s.(previews := if e.token in s.previews then s.previews[e.token := s.previews[e.token].(executed := true)]
                   else s.previews,
       commits := if e.token in s.commits then s.commits else s.commits[e.token := s.steps],
       executes := s.executes - {e.id})
  }

  function Ended(s: State, id: nat): State {
    s.(executes := s.executes - {id})
  }

  ghost predicate Runs(c: Settings, s: State, acts: seq<Action>)
    decreases |acts|
  {
    acts == [] || (Enabled(c, s, acts[0]) && Runs(c, Next(c, s, acts[0]), acts[1..]))
  }

  ghost function After(c: Settings, s: State, acts: seq<Action>): State
    requires Runs(c, s, acts)
    decreases |acts|
  {
    if acts == [] then s else After(c, Next(c, s, acts[0]), acts[1..])
  }

  ghost predicate Initial(s: State) {
    && s.previews == map[] && s.executes == map[] && s.audit == [] && s.deletions == [] && s.commits == map[]
  }

  // ---- Where deletions come from ----

  // The preview allows this administrator to delete the target at this time.
  predicate Licensed(s: State, token: Token, user: User, target: Path, now: nat) {
    && token in s.previews && s.previews[token].user == user
    && target in s.previews[token].targets && now <= s.previews[token].expires
  }

  ghost predicate PreviewsFit(c: Settings, s: State) {
    && (forall t <- s.previews :: forall p <- s.previews[t].targets :: Approved(c, p))
    && (forall t :: t in s.commits <==> t in s.previews && s.previews[t].executed)
    && (forall t <- s.commits :: s.commits[t] <= s.steps)
  }

  ghost predicate ExecutesFit(s: State) {
    forall id <- s.executes ::
      var e := s.executes[id];
      && e.id == id && e.next <= |e.targets| && e.began <= s.steps
      && e.token in s.previews && s.previews[e.token].user == e.user
      && s.previews[e.token].targets == e.targets && e.now <= s.previews[e.token].expires
      && (e.token in s.commits ==> e.began < s.commits[e.token])
  }

  // Every deletion was listed in a preview of the same administrator, not expired when the
  // execute began; its path is approved; and it was not begun after the token's commit.
  ghost predicate DeletionsFit(c: Settings, s: State) {
    forall d <- s.deletions ::
      && Licensed(s, d.token, d.user, d.listed, d.now) && Approved(c, d.path) && d.began <= s.steps
      && (d.token in s.commits ==> d.began < s.commits[d.token])
  }

  // The paths that an execute has deleted, and those it has audited, in order.
  ghost function DeletedBy(ds: seq<Deletion>, id: nat): seq<Path> {
    if ds == [] then []
    else
      var last := ds[|ds| - 1];
      DeletedBy(ds[..|ds| - 1], id) + if last.run == id then [last.path] else []
  }

  ghost function AuditedBy(es: seq<AuditEvent>, id: nat): seq<Path> {
    if es == [] then []
    else
      var last := es[|es| - 1];
      AuditedBy(es[..|es| - 1], id) + if last.run == id then [last.path] else []
  }

  // The audit trail of each execute lags behind its deletions by one entry at most, and only
  // while that deletion is the one being recorded, or for ever if the execute failed there.
  ghost predicate AuditKeepsUp(s: State) {
    && (forall id <- s.executes :: DeletedBy(s.deletions, id) ==
          AuditedBy(s.audit, id) + if s.executes[id].unaudited.Some? then [s.executes[id].unaudited.value] else [])
    && (forall id :: AuditedBy(s.audit, id) <= DeletedBy(s.deletions, id) &&
                     |DeletedBy(s.deletions, id)| <= |AuditedBy(s.audit, id)| + 1)
  }

  ghost predicate Inv(c: Settings, s: State) {
    PreviewsFit(c, s) && ExecutesFit(s) && DeletionsFit(c, s) && AuditKeepsUp(s)
  }

  // No execute and no deletion was begun at the present step.
  ghost predicate Bumped(s: State) {
    && (forall id <- s.executes :: s.executes[id].began < s.steps)
    && (forall d <- s.deletions :: d.began < s.steps)
  }

  lemma BumpKeepsInv(c: Settings, s: State)
    requires Inv(c, s)
    ensures Inv(c, s.(steps := s.steps + 1)) && Bumped(s.(steps := s.steps + 1))
  {
  }

  lemma PreviewKeepsInv(c: Settings, s: State, user: User, targets: seq<Path>, token: Token)
    requires Inv(c, s) && token !in s.previews && forall p <- targets :: Approved(c, p)
    ensures Inv(c, Previewed(c, s, user, targets, token))
  {
  }

  lemma BeginKeepsInv(c: Settings, s: State, id: nat, user: User, token: Token)
    requires Inv(c, s) && Enabled(c, s, Begin(id, user, true, token)) && Accepted(s, user, token)
    ensures Inv(c, Begun(s, id, user, token))
  {
    NoneBy(s, id);
  }

  lemma RecordKeepsAudit(s: State, id: nat)
    requires ExecutesFit(s) && AuditKeepsUp(s) && id in s.executes && s.executes[id].unaudited.Some?
    ensures AuditKeepsUp(Recorded(s, s.executes[id]))
  {
    var e := s.executes[id];
    var s' := Recorded(s, e);
    assert s'.audit[..|s.audit|] == s.audit;
    forall j ensures AuditedBy(s'.audit, j) == AuditedBy(s.audit, j) + if j == id then [e.unaudited.value] else [] {
    }
  }

  lemma RecordKeepsInv(c: Settings, s: State, id: nat)
    requires Inv(c, s) && id in s.executes && s.executes[id].unaudited.Some?
    ensures Inv(c, Recorded(s, s.executes[id]))
  {
    RecordKeepsAudit(s, id);
  }

  lemma DeleteKeepsAudit(s: State, id: nat, path: Path)
    requires ExecutesFit(s) && AuditKeepsUp(s) && id in s.executes && s.executes[id].unaudited.None?
    requires s.executes[id].next < |s.executes[id].targets| && path in s.fs
    ensures AuditKeepsUp(Deleted(s, s.executes[id], path))
  {
    var s' := Deleted(s, s.executes[id], path);
    assert s'.deletions[..|s.deletions|] == s.deletions;
    forall j ensures DeletedBy(s'.deletions, j) == DeletedBy(s.deletions, j) + if j == id then [path] else [] {
    }
  }

  lemma DeleteKeepsInv(c: Settings, s: State, id: nat, path: Path)
    requires Inv(c, s) && id in s.executes && s.executes[id].unaudited.None?
    requires s.executes[id].next < |s.executes[id].targets| && path in s.fs && Approved(c, path)
    ensures Inv(c, Deleted(s, s.executes[id], path))
  {
    DeleteKeepsAudit(s, id, path);
    DeleteIsLicensed(c, s, id, path);
  }

  lemma DeleteIsLicensed(c: Settings, s: State, id: nat, path: Path)
    requires Inv(c, s) && id in s.executes && s.executes[id].next < |s.executes[id].targets|
    requires path in s.fs && Approved(c, path)
    ensures DeletionsFit(c, Deleted(s, s.executes[id], path))
  {
    var e := s.executes[id];
    assert Licensed(s, e.token, e.user, e.targets[e.next], e.now);
    var s' := Deleted(s, e, path);
    assert forall d <- s'.deletions :: d in s.deletions || d == s'.deletions[|s.deletions|];
  }

  lemma SkipKeepsInv(c: Settings, s: State, id: nat)
    requires Inv(c, s) && id in s.executes && s.executes[id].next < |s.executes[id].targets|
    ensures Inv(c, Skipped(s, s.executes[id]))
  {
  }

  lemma CommitKeepsInv(c: Settings, s: State, id: nat)
    requires Inv(c, s) && Bumped(s) && id in s.executes
    ensures Inv(c, Committed(s, s.executes[id]))
  {
  }

  lemma EndKeepsInv(c: Settings, s: State, id: nat)
    requires Inv(c, s)
    ensures Inv(c, Ended(s, id))
  {
  }

  // One step of an execute, by what it does.
  lemma ExecuteStepKeepsInv(c: Settings, s: State, id: nat, resolved: Path, s': State)
    requires Inv(c, s) && Bumped(s) && id in s.executes
    requires s' == Act(c, s, Step(id, resolved))
    ensures Inv(c, s')
  {
    var e := s.executes[id];
    if e.unaudited.Some? {
      RecordKeepsInv(c, s, id);
    } else if e.next >= |e.targets| {
      CommitKeepsInv(c, s, id);
    } else if !Approved(c, resolved) {
      EndKeepsInv(c, s, id);
    } else if resolved in s.fs {
      DeleteKeepsInv(c, s, id, resolved);
    } else {
      SkipKeepsInv(c, s, id);
    }
  }

  lemma EnvironmentKeepsInv(c: Settings, s: State, clock: nat, fs: FileSystem)
    requires Inv(c, s)
    ensures Inv(c, s.(clock := clock, fs := fs))
  {
  }

  // Every other step.
  lemma OtherStepKeepsInv(c: Settings, s: State, a: Action, s': State)
    requires Inv(c, s) && !a.Step? && Enabled(c, s, a) && s' == Act(c, s, a)
    ensures Inv(c, s')
  {
    match a
    case Wait(clock) => EnvironmentKeepsInv(c, s, clock, s.fs);
    case Change(fs) => EnvironmentKeepsInv(c, s, s.clock, fs);
    case Fail(id) => EndKeepsInv(c, s, id);
    case MakePreview(user, _, targets, token) => PreviewKeepsInv(c, s, user, targets, token);
    case Begin(id, user, admin, token) =>
      if admin && Accepted(s, user, token) {
        BeginKeepsInv(c, s, id, user, token);
      }
  }

  lemma ActKeepsInv(c: Settings, s: State, a: Action)
    requires Inv(c, s) && Bumped(s) && Enabled(c, s, a)
    ensures Inv(c, Act(c, s, a))
  {
    if a.Step? {
      ExecuteStepKeepsInv(c, s, a.id, a.resolved, Act(c, s, a));
    } else {
      OtherStepKeepsInv(c, s, a, Act(c, s, a));
    }
  }

  // Counting the step changes nothing that the actions look at.
  lemma NextIsAct(c: Settings, s: State, a: Action, counted: State)
    requires Enabled(c, s, a) && counted == s.(steps := s.steps + 1)
    ensures Enabled(c, counted, a) && Next(c, s, a) == Act(c, counted, a)
  {
  }

  lemma StepKeepsInv(c: Settings, s: State, a: Action)
    requires Inv(c, s) && Enabled(c, s, a)
    ensures Inv(c, Next(c, s, a))
  {
    var counted := s.(steps := s.steps + 1);
    BumpKeepsInv(c, s);
    NextIsAct(c, s, a, counted);
    ActKeepsInv(c, counted, a);
  }

  lemma NoneBy(s: State, id: nat)
    requires (forall d <- s.deletions :: d.run != id) && (forall e <- s.audit :: e.run != id)
    ensures DeletedBy(s.deletions, id) == [] && AuditedBy(s.audit, id) == []
  {
    NoDeletionBy(s.deletions, id);
    NoAuditBy(s.audit, id);
  }

  lemma {:induction false} NoDeletionBy(ds: seq<Deletion>, id: nat)
    requires forall d <- ds :: d.run != id
    ensures DeletedBy(ds, id) == []
  {
    if ds != [] {
      NoDeletionBy(ds[..|ds| - 1], id);
    }
  }

  lemma {:induction false} NoAuditBy(es: seq<AuditEvent>, id: nat)
    requires forall e <- es :: e.run != id
    ensures AuditedBy(es, id) == []
  {
    if es != [] {
      NoAuditBy(es[..|es| - 1], id);
    }
  }

  lemma {:induction false} RunKeepsInv(c: Settings, s: State, acts: seq<Action>)
    requires Inv(c, s) && Runs(c, s, acts)
    ensures Inv(c, After(c, s, acts))
    decreases |acts|
  {
    if acts != [] {
      StepKeepsInv(c, s, acts[0]);
      RunKeepsInv(c, Next(c, s, acts[0]), acts[1..]);
    }
  }

  // In every state of every run.
  lemma CleanupIsSafe(c: Settings, s: State, acts: seq<Action>)
    requires Initial(s) && Runs(c, s, acts)
    ensures DeletionsFit(c, After(c, s, acts)) && AuditKeepsUp(After(c, s, acts))
    ensures forall d <- After(c, s, acts).deletions :: c.outputRoot <= d.path || c.versionsRoot <= d.path
  {
    RunKeepsInv(c, s, acts);
  }

  // An execute that reaches its commit leaves every one of its deletions audited.
  lemma CommitIsAudited(c: Settings, s: State, id: nat, resolved: Path)
    requires Inv(c, s) && id in s.executes && s.executes[id].unaudited.None?
    requires s.executes[id].next >= |s.executes[id].targets|
    ensures var s' := Next(c, s, Step(id, resolved));
            && id !in s'.executes && s'.previews[s.executes[id].token].executed
            && AuditedBy(s'.audit, id) == DeletedBy(s'.deletions, id)
  {
  }

  // While listed paths keep resolving to themselves, what is deleted is what was listed.
  ghost predicate Canonical(c: Settings, s: State, acts: seq<Action>)
    requires Runs(c, s, acts)
    decreases |acts|
  {
    acts == [] ||
    (var a := acts[0];
     (a.Step? && s.executes[a.id].next < |s.executes[a.id].targets| ==>
        a.resolved == s.executes[a.id].targets[s.executes[a.id].next]) &&
     Canonical(c, Next(c, s, a), acts[1..]))
  }

  lemma {:induction false} DeletesOnlyListed(c: Settings, s: State, acts: seq<Action>)
    requires Runs(c, s, acts) && Canonical(c, s, acts)
    requires forall d <- s.deletions :: d.path == d.listed
    ensures forall d <- After(c, s, acts).deletions :: d.path == d.listed
    decreases |acts|
  {
    if acts != [] {
      DeletesOnlyListed(c, Next(c, s, acts[0]), acts[1..]);
    }
  }

  // ---- After a commit ----

  function DeletionsOf(ds: seq<Deletion>, token: Token): nat {
    if ds == [] then 0
    else DeletionsOf(ds[..|ds| - 1], token) + if ds[|ds| - 1].token == token then 1 else 0
  }

  // The token is executed, and no execute of it has a target left.
  ghost predicate Spent(s: State, token: Token) {
    && token in s.previews && s.previews[token].executed
    && forall id <- s.executes :: s.executes[id].token == token ==> s.executes[id].next >= |s.executes[id].targets|
  }

  lemma SpentStays(c: Settings, s: State, a: Action, token: Token)
    requires ExecutesFit(s) && Enabled(c, s, a) && Spent(s, token)
    ensures Spent(Next(c, s, a), token)
  {
  }

  lemma SpentDeletesNothing(c: Settings, s: State, a: Action, token: Token)
    requires ExecutesFit(s) && Enabled(c, s, a) && Spent(s, token)
    ensures DeletionsOf(Next(c, s, a).deletions, token) == DeletionsOf(s.deletions, token)
  {
    if a.Step? {
      var e := s.executes[a.id];
      if e.unaudited.None? && e.next < |e.targets| && Approved(c, a.resolved) && a.resolved in s.fs {
        assert Next(c, s, a).deletions[..|s.deletions|] == s.deletions;
      }
    }
  }

  lemma {:induction false} SpentRun(c: Settings, s: State, acts: seq<Action>, token: Token)
    requires Inv(c, s) && Runs(c, s, acts) && Spent(s, token)
    ensures DeletionsOf(After(c, s, acts).deletions, token) == DeletionsOf(s.deletions, token)
    decreases |acts|
  {
    if acts != [] {
      StepKeepsInv(c, s, acts[0]);
      SpentStays(c, s, acts[0], token);
      SpentDeletesNothing(c, s, acts[0], token);
      SpentRun(c, Next(c, s, acts[0]), acts[1..], token);
    }
  }

  // An overlapping execute of the same token that still has a target can delete it.
  lemma OverlapCanDelete(c: Settings, s: State, token: Token, id: nat) returns (acts: seq<Action>)
    requires Inv(c, s) && id in s.executes && s.executes[id].token == token
    requires s.executes[id].next < |s.executes[id].targets|
    ensures Runs(c, s, acts) && DeletionsOf(After(c, s, acts).deletions, token) > DeletionsOf(s.deletions, token)
  {
    var e := s.executes[id];
    var p := e.targets[e.next];
    assert p in s.previews[token].targets;
    var change, step := Change(map[p := File]), Step(id, p);
    var s1 := Next(c, s, change);
    var s2 := Next(c, s1, step);
    RunOne(c, s2, []);
    RunOne(c, s1, [step]);
    if e.unaudited.None? {
      acts := [change, step];
      RunOne(c, s, acts);
      assert s2.deletions[..|s.deletions|] == s.deletions;
    } else {
      acts := [change, step, step];
      var s3 := Next(c, s2, step);
      RunOne(c, s2, [step]);
      RunOne(c, s1, [step, step]);
      RunOne(c, s, acts);
      assert s3.deletions[..|s.deletions|] == s.deletions;
    }
  }

  lemma RunOne(c: Settings, s: State, acts: seq<Action>)
    ensures acts == [] ==> Runs(c, s, acts) && After(c, s, acts) == s
    ensures acts != [] && Enabled(c, s, acts[0]) && Runs(c, Next(c, s, acts[0]), acts[1..]) ==>
              Runs(c, s, acts) && After(c, s, acts) == After(c, Next(c, s, acts[0]), acts[1..])
  {
  }

  // A committed token deletes again in some continuation exactly when another execute of it,
  // begun before the commit, still has a target to visit.
  lemma DeletesAgainIff(c: Settings, s: State, token: Token)
    requires Inv(c, s) && token in s.commits
    ensures (exists acts :: Runs(c, s, acts) &&
               DeletionsOf(After(c, s, acts).deletions, token) != DeletionsOf(s.deletions, token)) <==>
            (exists id :: id in s.executes && s.executes[id].token == token &&
               s.executes[id].next < |s.executes[id].targets|)
  {
    if id :| id in s.executes && s.executes[id].token == token && s.executes[id].next < |s.executes[id].targets| {
      var acts := OverlapCanDelete(c, s, token, id);
      assert Runs(c, s, acts);
    } else {
      assert Spent(s, token);
      forall acts | Runs(c, s, acts)
        ensures DeletionsOf(After(c, s, acts).deletions, token) == DeletionsOf(s.deletions, token)
      {
        SpentRun(c, s, acts, token);
      }
    }
  }

  // ---- A committed token that deletes again ----

  // A stale directory, job, lies below the output root; it is previewed and two executes of the
  // preview begin.
  function Job(c: Settings): Path {
    c.outputRoot + ["job"]
  }

  function Start(c: Settings): State {
    State(0, map[Job(c) := Directory], map[], map[], [], 0, [], map[])
  }

  function TwoBegin(c: Settings): seq<Action> {
    [MakePreview("admin", true, [Job(c)], "t"), Begin(1, "admin", true, "t"), Begin(2, "admin", true, "t")]
  }

  function Waiting(c: Settings, id: nat, began: nat): Execute {
    Execute(id, "t", "admin", [Job(c)], 0, None, 0, began)
  }

  function BothBegun(c: Settings): State {
    State(0, map[Job(c) := Directory], map["t" := Preview("admin", [Job(c)], c.ttl, false)],
          map[1 := Waiting(c, 1, 2), 2 := Waiting(c, 2, 3)], [], 3, [], map[])
  }

  lemma TwoExecutesBegin(c: Settings)
    ensures Initial(Start(c)) && Runs(c, Start(c), TwoBegin(c)) && After(c, Start(c), TwoBegin(c)) == BothBegun(c)
  {
    var acts, s := TwoBegin(c), Start(c);
    var s1 := s.(previews := map["t" := Preview("admin", [Job(c)], c.ttl, false)], steps := 1);
    var s2 := s1.(executes := map[1 := Waiting(c, 1, 2)], steps := 2);
    assert Next(c, s, acts[0]) == s1;
    assert Next(c, s1, acts[1]) == s2;
    assert Next(c, s2, acts[2]) == BothBegun(c);
    RunOne(c, BothBegun(c), []);
    RunOne(c, s2, acts[2..]);
    RunOne(c, s1, acts[1..]);
    RunOne(c, s, acts);
  }

  // The first execute deletes the directory, records it and commits.
  function FirstFinishes(c: Settings): seq<Action> {
    [Step(1, Job(c)), Step(1, Job(c)), Step(1, Job(c))]
  }

  lemma FirstCommits(c: Settings)
    ensures Runs(c, BothBegun(c), FirstFinishes(c))
    ensures var s := After(c, BothBegun(c), FirstFinishes(c));
            && "t" in s.commits && DeletionsOf(s.deletions, "t") == 1 && s.fs == map[]
            && 2 in s.executes && s.executes[2] == Waiting(c, 2, 3)
  {
    var acts, s, a := FirstFinishes(c), BothBegun(c), Step(1, Job(c));
    var s1 := Next(c, s, a);
    var s2 := Next(c, s1, a);
    var s3 := Next(c, s2, a);
    assert s1.executes[1].next == 1 && s1.executes[1].unaudited.Some?;
    assert s1.deletions == [Deletion(1, "t", "admin", Job(c), Job(c), 0, 2)] && s1.deletions[..0] == [];
    assert s1.fs == map[];
    RunOne(c, s3, []);
    RunOne(c, s2, acts[2..]);
    RunOne(c, s1, acts[1..]);
    RunOne(c, s, acts);
  }

  lemma {:induction false} RunAppend(c: Settings, s: State, acts: seq<Action>, more: seq<Action>)
    requires Runs(c, s, acts) && Runs(c, After(c, s, acts), more)
    ensures Runs(c, s, acts + more) && After(c, s, acts + more) == After(c, After(c, s, acts), more)
    decreases |acts|
  {
    if acts == [] {
      assert acts + more == more;
    } else {
      assert (acts + more)[1..] == acts[1..] + more;
      RunAppend(c, Next(c, s, acts[0]), acts[1..], more);
    }
  }

  // When the directory is there again, the second execute deletes it too, after the commit.
  lemma CommittedTokenDeletesAgain(c: Settings) returns (more: seq<Action>)
    ensures var acts := TwoBegin(c) + FirstFinishes(c);
            && Initial(Start(c)) && Runs(c, Start(c), acts)
            && var s := After(c, Start(c), acts);
               && "t" in s.commits && DeletionsOf(s.deletions, "t") == 1
               && Runs(c, s, more) && DeletionsOf(After(c, s, more).deletions, "t") > 1
  {
    TwoExecutesBegin(c);
    FirstCommits(c);
    RunAppend(c, Start(c), TwoBegin(c), FirstFinishes(c));
    RunKeepsInv(c, Start(c), TwoBegin(c) + FirstFinishes(c));
    more := OverlapCanDelete(c, After(c, Start(c), TwoBegin(c) + FirstFinishes(c)), "t", 2);
  }
}
