/**
 What must have happened before a deletion, read off the list of actions alone: an administrator
 previewed the path, began an execute of that preview in time, and a step of it resolved to the
 path.
 */
module CleanupHistory {
  import opened Wrappers
  import opened Cleanup

  // The clock after the actions, whose only hands are the waits.
  ghost function ClockAt(clock: nat, acts: seq<Action>): nat {
    if acts == [] then clock
    else
      var last := acts[|acts| - 1];
      if last.Wait? then last.clock else ClockAt(clock, acts[..|acts| - 1])
  }

  ghost predicate PreviewMade(c: Settings, clock: nat, acts: seq<Action>, user: User, targets: seq<Path>, token: Token,
                              expires: nat) {
    exists j ::
      && 0 <= j < |acts| && acts[j] == MakePreview(user, true, targets, token)
      && expires == ClockAt(clock, acts[..j]) + c.ttl
  }

  ghost predicate ExecuteBegun(c: Settings, clock: nat, acts: seq<Action>, run: nat, user: User, targets: seq<Path>,
                               token: Token, now: nat) {
    exists i, expires: nat ::
      && 0 <= i < |acts| && acts[i] == Begin(run, user, true, token)
      && now == ClockAt(clock, acts[..i]) && now <= expires
      && PreviewMade(c, clock, acts[..i], user, targets, token, expires)
  }

  ghost predicate TargetDeleted(c: Settings, clock: nat, acts: seq<Action>, d: Deletion) {
    exists k, targets ::
      && 0 <= k < |acts| && acts[k] == Step(d.run, d.path) && d.listed in targets
      && ExecuteBegun(c, clock, acts[..k], d.run, d.user, targets, d.token, d.now)
  }

  // The record names the run, token, user and path of a deletion.
  predicate Records(e: AuditEvent, d: Deletion) {
    e.run == d.run && e.token == d.token && e.user == d.user && e.path == d.path
  }

  ghost predicate OnRecord(e: AuditEvent, ds: seq<Deletion>) {
    exists d <- ds :: Records(e, d)
  }

  ghost predicate PreviewsExplained(c: Settings, clock: nat, acts: seq<Action>, s: State) {
    forall t <- s.previews ::
      PreviewMade(c, clock, acts, s.previews[t].user, s.previews[t].targets, t, s.previews[t].expires)
  }

  ghost predicate ExecutesExplained(c: Settings, clock: nat, acts: seq<Action>, s: State) {
    forall id <- s.executes ::
      var e := s.executes[id];
      && e.id == id && ExecuteBegun(c, clock, acts, id, e.user, e.targets, e.token, e.now)
      && (e.unaudited.Some? ==> OnRecord(AuditEvent(id, e.token, e.user, e.unaudited.value), s.deletions))
  }

  ghost predicate RecordsExplained(c: Settings, clock: nat, acts: seq<Action>, s: State) {
    && (forall d <- s.deletions :: TargetDeleted(c, clock, acts, d))
    && (forall e <- s.audit :: OnRecord(e, s.deletions))
  }

  ghost predicate Explained(c: Settings, clock: nat, acts: seq<Action>, s: State) {
    && s.clock == ClockAt(clock, acts)
    && PreviewsExplained(c, clock, acts, s) && ExecutesExplained(c, clock, acts, s)
    && RecordsExplained(c, clock, acts, s)
  }

  // ---- More actions explain no less ----

  lemma PreviewStaysMade(c: Settings, clock: nat, acts: seq<Action>, a: Action, user: User, targets: seq<Path>,
                         token: Token, expires: nat)
    requires PreviewMade(c, clock, acts, user, targets, token, expires)
    ensures PreviewMade(c, clock, acts + [a], user, targets, token, expires)
  {
    var j :| 0 <= j < |acts| && acts[j] == MakePreview(user, true, targets, token) &&
             expires == ClockAt(clock, acts[..j]) + c.ttl;
    assert (acts + [a])[j] == acts[j] && (acts + [a])[..j] == acts[..j];
  }

  lemma ExecuteStaysBegun(c: Settings, clock: nat, acts: seq<Action>, a: Action, run: nat, user: User,
                          targets: seq<Path>, token: Token, now: nat)
    requires ExecuteBegun(c, clock, acts, run, user, targets, token, now)
    ensures ExecuteBegun(c, clock, acts + [a], run, user, targets, token, now)
  {
    var i, expires: nat :|
      && 0 <= i < |acts| && acts[i] == Begin(run, user, true, token)
      && now == ClockAt(clock, acts[..i]) && now <= expires
      && PreviewMade(c, clock, acts[..i], user, targets, token, expires);
    assert (acts + [a])[i] == acts[i] && (acts + [a])[..i] == acts[..i];
  }

  lemma TargetStaysDeleted(c: Settings, clock: nat, acts: seq<Action>, a: Action, d: Deletion)
    requires TargetDeleted(c, clock, acts, d)
    ensures TargetDeleted(c, clock, acts + [a], d)
  {
    var k, targets :|
      && 0 <= k < |acts| && acts[k] == Step(d.run, d.path) && d.listed in targets
      && ExecuteBegun(c, clock, acts[..k], d.run, d.user, targets, d.token, d.now);
    assert (acts + [a])[k] == acts[k] && (acts + [a])[..k] == acts[..k];
  }

  lemma StaysOnRecord(e: AuditEvent, ds: seq<Deletion>, ds': seq<Deletion>)
    requires OnRecord(e, ds) && ds <= ds'
    ensures OnRecord(e, ds')
  {
    var d :| d in ds && Records(e, d);
    assert d in ds';
  }

  // ---- What one action changes ----

  lemma DeletionsGrow(c: Settings, s: State, a: Action)
    requires Enabled(c, s, a)
    ensures s.deletions <= Next(c, s, a).deletions
  {
  }

  // A preview keeps its user, targets and expiry time; a new one is an administrator's.
  lemma PreviewAfter(c: Settings, s: State, a: Action, t: Token)
    requires Enabled(c, s, a) && t in Next(c, s, a).previews
    ensures var p := Next(c, s, a).previews[t];
            if t in s.previews
            then var q := s.previews[t]; p.user == q.user && p.targets == q.targets && p.expires == q.expires
            else a == MakePreview(p.user, true, p.targets, t) && p.expires == s.clock + c.ttl
  {
  }

  ghost predicate IdsFit(s: State) {
    forall id <- s.executes :: s.executes[id].id == id
  }

  // What an execute has been begun with.
  ghost predicate SameExecute(e: Execute, f: Execute) {
    e.id == f.id && e.token == f.token && e.user == f.user && e.targets == f.targets && e.now == f.now
  }

  // The request is an administrator's, for an own preview that has not expired.
  ghost predicate BegunBy(s: State, a: Action, e: Execute) {
    && a == Begin(e.id, e.user, true, e.token) && e.now == s.clock && e.unaudited == None
    && e.token in s.previews && s.previews[e.token].user == e.user && s.previews[e.token].targets == e.targets
    && e.now <= s.previews[e.token].expires
  }

  lemma ExecuteAfter(c: Settings, s: State, a: Action, id: nat)
    requires IdsFit(s) && Enabled(c, s, a) && id in Next(c, s, a).executes
    ensures var e := Next(c, s, a).executes[id];
            e.id == id && if id in s.executes then SameExecute(e, s.executes[id]) else BegunBy(s, a, e)
  {
  }

  // A deletion is the last one recorded when it happens.
  lemma NewDeletion(c: Settings, s: State, a: Action)
    requires Enabled(c, s, a) && Next(c, s, a).deletions != s.deletions
    ensures a.Step? && a.id in s.executes
    ensures var e := s.executes[a.id];
            && e.next < |e.targets|
            && Next(c, s, a).deletions ==
               s.deletions + [Deletion(e.id, e.token, e.user, e.targets[e.next], a.resolved, e.now, e.began)]
  {
  }

  // What an execute has not recorded yet, it has just deleted.
  lemma NewUnaudited(c: Settings, s: State, a: Action, id: nat)
    requires IdsFit(s) && Enabled(c, s, a) && id in s.executes && id in Next(c, s, a).executes
    requires Next(c, s, a).executes[id].unaudited.Some?
    ensures Next(c, s, a).executes[id].unaudited == s.executes[id].unaudited ||
            (&& a.Step? && a.id == id && Next(c, s, a).executes[id].unaudited == Some(a.resolved)
             && Next(c, s, a).deletions != s.deletions)
  {
  }

  // A record is made of the deletion that its execute has not recorded yet.
  lemma NewRecord(c: Settings, s: State, a: Action)
    requires Enabled(c, s, a) && Next(c, s, a).audit != s.audit
    ensures a.Step? && a.id in s.executes && s.executes[a.id].unaudited.Some?
    ensures var e := s.executes[a.id];
            Next(c, s, a).audit == s.audit + [AuditEvent(e.id, e.token, e.user, e.unaudited.value)]
  {
  }

  // ---- One action more ----

  lemma PreviewsNext(c: Settings, clock: nat, acts: seq<Action>, s: State, a: Action)
    requires PreviewsExplained(c, clock, acts, s) && s.clock == ClockAt(clock, acts) && Enabled(c, s, a)
    ensures PreviewsExplained(c, clock, acts + [a], Next(c, s, a))
  {
    var s', more := Next(c, s, a), acts + [a];
    forall t | t in s'.previews
      ensures PreviewMade(c, clock, more, s'.previews[t].user, s'.previews[t].targets, t, s'.previews[t].expires)
    {
      PreviewAfter(c, s, a, t);
      if t in s.previews {
        PreviewStaysMade(c, clock, acts, a, s.previews[t].user, s.previews[t].targets, t, s.previews[t].expires);
      } else {
        assert more[|acts|] == a && more[..|acts|] == acts;
      }
    }
  }

  lemma NewExecuteBegun(c: Settings, clock: nat, acts: seq<Action>, s: State, a: Action, e: Execute)
    requires PreviewsExplained(c, clock, acts, s) && s.clock == ClockAt(clock, acts) && BegunBy(s, a, e)
    ensures ExecuteBegun(c, clock, acts + [a], e.id, e.user, e.targets, e.token, e.now)
  {
    var more := acts + [a];
    assert more[|acts|] == a && more[..|acts|] == acts;
    assert PreviewMade(c, clock, acts, e.user, e.targets, e.token, s.previews[e.token].expires);
  }

  lemma ExecuteNext(c: Settings, clock: nat, acts: seq<Action>, s: State, a: Action, id: nat)
    requires Explained(c, clock, acts, s) && Enabled(c, s, a) && id in Next(c, s, a).executes
    ensures var e := Next(c, s, a).executes[id];
            e.id == id && ExecuteBegun(c, clock, acts + [a], id, e.user, e.targets, e.token, e.now)
  {
    var e := Next(c, s, a).executes[id];
    ExecuteAfter(c, s, a, id);
    if id in s.executes {
      ExecuteStaysBegun(c, clock, acts, a, id, e.user, e.targets, e.token, e.now);
    } else {
      NewExecuteBegun(c, clock, acts, s, a, e);
    }
  }

  lemma UnauditedNext(c: Settings, clock: nat, acts: seq<Action>, s: State, a: Action, id: nat)
    requires ExecutesExplained(c, clock, acts, s) && Enabled(c, s, a) && id in Next(c, s, a).executes
    requires Next(c, s, a).executes[id].unaudited.Some?
    ensures var e := Next(c, s, a).executes[id];
            OnRecord(AuditEvent(id, e.token, e.user, e.unaudited.value), Next(c, s, a).deletions)
  {
    var e, ds := Next(c, s, a).executes[id], Next(c, s, a).deletions;
    var event := AuditEvent(id, e.token, e.user, e.unaudited.value);
    ExecuteAfter(c, s, a, id);
    DeletionsGrow(c, s, a);
    NewUnaudited(c, s, a, id);
    if s.executes[id].unaudited == e.unaudited {
      StaysOnRecord(event, s.deletions, ds);
    } else {
      NewDeletion(c, s, a);
      assert ds[|s.deletions|] in ds && Records(event, ds[|s.deletions|]);
    }
  }

  lemma ExecutesNext(c: Settings, clock: nat, acts: seq<Action>, s: State, a: Action)
    requires Explained(c, clock, acts, s) && Enabled(c, s, a)
    ensures ExecutesExplained(c, clock, acts + [a], Next(c, s, a))
  {
    var s' := Next(c, s, a);
    forall id | id in s'.executes
      ensures var e := s'.executes[id];
              && e.id == id && ExecuteBegun(c, clock, acts + [a], id, e.user, e.targets, e.token, e.now)
              && (e.unaudited.Some? ==> OnRecord(AuditEvent(id, e.token, e.user, e.unaudited.value), s'.deletions))
    {
      ExecuteNext(c, clock, acts, s, a, id);
      if s'.executes[id].unaudited.Some? {
        UnauditedNext(c, clock, acts, s, a, id);
      }
    }
  }

  lemma NewDeletionExplained(c: Settings, clock: nat, acts: seq<Action>, s: State, a: Action, d: Deletion)
    requires ExecutesExplained(c, clock, acts, s) && a.Step? && a.id in s.executes
    requires var e := s.executes[a.id];
             && e.next < |e.targets|
             && d == Deletion(e.id, e.token, e.user, e.targets[e.next], a.resolved, e.now, e.began)
    ensures TargetDeleted(c, clock, acts + [a], d)
  {
    var e, more := s.executes[a.id], acts + [a];
    assert more[|acts|] == a == Step(d.run, d.path) && more[..|acts|] == acts;
    assert d.listed in e.targets && ExecuteBegun(c, clock, acts, d.run, d.user, e.targets, d.token, d.now);
  }

  lemma DeletionNext(c: Settings, clock: nat, acts: seq<Action>, s: State, a: Action, d: Deletion)
    requires ExecutesExplained(c, clock, acts, s) && RecordsExplained(c, clock, acts, s)
    requires Enabled(c, s, a) && d in Next(c, s, a).deletions
    ensures TargetDeleted(c, clock, acts + [a], d)
  {
    if d in s.deletions {
      TargetStaysDeleted(c, clock, acts, a, d);
    } else {
      NewDeletion(c, s, a);
      NewDeletionExplained(c, clock, acts, s, a, d);
    }
  }

  lemma RecordNext(c: Settings, clock: nat, acts: seq<Action>, s: State, a: Action, e: AuditEvent)
    requires Explained(c, clock, acts, s) && Enabled(c, s, a) && e in Next(c, s, a).audit
    ensures OnRecord(e, Next(c, s, a).deletions)
  {
    DeletionsGrow(c, s, a);
    if e !in s.audit {
      NewRecord(c, s, a);
    }
    StaysOnRecord(e, s.deletions, Next(c, s, a).deletions);
  }

  lemma ClockNext(c: Settings, s: State, clock: nat, acts: seq<Action>, a: Action)
    requires Enabled(c, s, a) && s.clock == ClockAt(clock, acts)
    ensures Next(c, s, a).clock == ClockAt(clock, acts + [a])
  {
    assert (acts + [a])[..|acts|] == acts;
  }

  lemma ExplainedNext(c: Settings, clock: nat, acts: seq<Action>, s: State, a: Action)
    requires Explained(c, clock, acts, s) && Enabled(c, s, a)
    ensures Explained(c, clock, acts + [a], Next(c, s, a))
  {
    ClockNext(c, s, clock, acts, a);
    PreviewsNext(c, clock, acts, s, a);
    ExecutesNext(c, clock, acts, s, a);
    forall d | d in Next(c, s, a).deletions ensures TargetDeleted(c, clock, acts + [a], d) {
      DeletionNext(c, clock, acts, s, a, d);
    }
    forall e | e in Next(c, s, a).audit ensures OnRecord(e, Next(c, s, a).deletions) {
      RecordNext(c, clock, acts, s, a, e);
    }
  }

  lemma {:induction false} RunIsExplained(c: Settings, clock: nat, before: seq<Action>, s: State, acts: seq<Action>)
    requires Explained(c, clock, before, s) && Runs(c, s, acts)
    ensures Explained(c, clock, before + acts, After(c, s, acts))
    decreases |acts|
  {
    if acts == [] {
      assert before + acts == before;
    } else {
      ExplainedNext(c, clock, before, s, acts[0]);
      RunIsExplained(c, clock, before + [acts[0]], Next(c, s, acts[0]), acts[1..]);
      assert before + [acts[0]] + acts[1..] == before + acts;
    }
  }

  // ---- The history of a deletion ----

  lemma PreviewOf(c: Settings, clock: nat, acts: seq<Action>, i: nat, user: User, targets: seq<Path>, token: Token,
                  expires: nat) returns (j: nat)
    requires i <= |acts| && PreviewMade(c, clock, acts[..i], user, targets, token, expires)
    ensures j < i && acts[j] == MakePreview(user, true, targets, token)
    ensures expires == ClockAt(clock, acts[..j]) + c.ttl
  {
    j :| 0 <= j < i && acts[..i][j] == MakePreview(user, true, targets, token) &&
         expires == ClockAt(clock, acts[..i][..j]) + c.ttl;
    assert acts[..i][..j] == acts[..j];
  }

  lemma BeginOf(c: Settings, clock: nat, acts: seq<Action>, k: nat, run: nat, user: User, targets: seq<Path>,
                token: Token, now: nat) returns (i: nat, expires: nat)
    requires k <= |acts| && ExecuteBegun(c, clock, acts[..k], run, user, targets, token, now)
    ensures i < k && acts[i] == Begin(run, user, true, token) && now == ClockAt(clock, acts[..i]) <= expires
    ensures PreviewMade(c, clock, acts[..i], user, targets, token, expires)
  {
    i, expires :|
      && 0 <= i < k && acts[..k][i] == Begin(run, user, true, token)
      && now == ClockAt(clock, acts[..k][..i]) && now <= expires
      && PreviewMade(c, clock, acts[..k][..i], user, targets, token, expires);
    assert acts[..k][..i] == acts[..i];
  }

  // Before every deletion of a run an administrator previewed the path, then began an execute of
  // that preview with its token, before it expired, and then a step of that execute resolved
  // the listed path to the one deleted.
  lemma DeletionHasHistory(c: Settings, s: State, acts: seq<Action>, d: Deletion)
    returns (j: nat, i: nat, k: nat, targets: seq<Path>)
    requires Initial(s) && Runs(c, s, acts) && d in After(c, s, acts).deletions
    ensures j < i < k < |acts|
    ensures acts[j] == MakePreview(d.user, true, targets, d.token) && d.listed in targets
    ensures acts[i] == Begin(d.run, d.user, true, d.token)
    ensures acts[k] == Step(d.run, d.path)
    ensures d.now == ClockAt(s.clock, acts[..i]) <= ClockAt(s.clock, acts[..j]) + c.ttl
  {
    RunIsExplained(c, s.clock, [], s, acts);
    assert [] + acts == acts;
    assert TargetDeleted(c, s.clock, acts, d);
    k, targets :|
      && 0 <= k < |acts| && acts[k] == Step(d.run, d.path) && d.listed in targets
      && ExecuteBegun(c, s.clock, acts[..k], d.run, d.user, targets, d.token, d.now);
    var expires: nat;
    i, expires := BeginOf(c, s.clock, acts, k, d.run, d.user, targets, d.token, d.now);
    j := PreviewOf(c, s.clock, acts, i, d.user, targets, d.token, expires);
  }

  // Every audit record names a deletion, with the run, token, user and path it had.
  lemma RecordsAreDeletions(c: Settings, s: State, acts: seq<Action>, e: AuditEvent)
    requires Initial(s) && Runs(c, s, acts) && e in After(c, s, acts).audit
    ensures exists d <- After(c, s, acts).deletions ::
              d.run == e.run && d.token == e.token && d.user == e.user && d.path == e.path
  {
    RunIsExplained(c, s.clock, [], s, acts);
    assert [] + acts == acts;
    var d :| d in After(c, s, acts).deletions && Records(e, d);
  }

  // Without the administrator's role neither request changes anything, and an execute begins
  // exactly for an own, unexpired preview that is not marked executed.
  lemma RequestsAreChecked(c: Settings, s: State, a: Action)
    requires Enabled(c, s, a) && (a.MakePreview? || a.Begin?)
    ensures !a.admin ==> Next(c, s, a) == s.(steps := s.steps + 1)
    ensures a.MakePreview? && a.admin ==>
              && Next(c, s, a).previews.Keys == s.previews.Keys + {a.token} && Next(c, s, a).executes == s.executes
              && Next(c, s, a).previews[a.token] == Preview(a.user, a.targets, s.clock + c.ttl, false)
    ensures a.Begin? ==>
              (a.id in Next(c, s, a).executes <==>
                 a.admin && a.token in s.previews && s.previews[a.token].user == a.user &&
                 s.clock <= s.previews[a.token].expires && !s.previews[a.token].executed)
  {
  }

  // A step at a target ends the execute, deleting nothing, exactly when the target resolves to a
  // path outside both roots; otherwise it goes on to the next target, and deletes what is there.
  lemma TargetsAreChecked(c: Settings, s: State, id: nat, resolved: Path)
    requires id in s.executes && s.executes[id].id == id && s.executes[id].unaudited.None?
    requires s.executes[id].next < |s.executes[id].targets|
    ensures var s' := Next(c, s, Step(id, resolved));
            if c.outputRoot <= resolved || c.versionsRoot <= resolved then
              && id in s'.executes && s'.executes[id].next == s.executes[id].next + 1
              && |s'.deletions| == |s.deletions| + (if resolved in s.fs then 1 else 0) && resolved !in s'.fs
            else id !in s'.executes && s'.fs == s.fs && s'.deletions == s.deletions
  {
  }

  // Each action is one step. A new execute carries the step it began with, and a token the step of
  // its first commit, which no later action changes.
  lemma StepsAreRecorded(c: Settings, s: State, a: Action)
    requires IdsFit(s) && Enabled(c, s, a)
    ensures var s' := Next(c, s, a);
            && s'.steps == s.steps + 1
            && (forall id <- s'.executes :: id !in s.executes ==> s'.executes[id].began == s.steps + 1)
            && (forall t <- s.commits :: t in s'.commits && s'.commits[t] == s.commits[t])
            && (forall t <- s'.commits :: t !in s.commits ==> a.Step? && s'.commits[t] == s.steps + 1)
  {
  }
}
