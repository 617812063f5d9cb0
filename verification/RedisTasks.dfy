/**
 The task registry kept in Redis: a hash from task to item, and one set of tasks per item.
 Every operation is cut at its await points into segments, each a Redis round trip, and the
 segments of concurrent operations interleave in any order. A run is a list of actions.

 An item id of "" stands for no item, as in the hash. A pipeline is one atomic step.
 */
module RedisTasks {
  type TaskId = string
  type ItemId = string

  datatype Redis = Redis(hash: map<TaskId, ItemId>, sets: map<ItemId, set<TaskId>>)

  function Members(r: Redis, x: ItemId): set<TaskId> {
    if x in r.sets then r.sets[x] else {}
  }

  // Redis drops a set's key together with its last member.
  function WithMembers(r: Redis, x: ItemId, members: set<TaskId>): map<ItemId, set<TaskId>> {
    if members == {} then r.sets - {x} else r.sets[x := members]
  }

  // redis_save_task: hset, and sadd when there is an item.
  function Save(r: Redis, t: TaskId, x: ItemId): Redis {
    Redis(r.hash[t := x], if x == "" then r.sets else WithMembers(r, x, Members(r, x) + {t}))
  }

  // The pipeline of redis_cleanup_task: hdel, and srem when there is an item.
  function Remove(r: Redis, t: TaskId, x: ItemId): Redis {
    Redis(r.hash - {t}, if x == "" then r.sets else WithMembers(r, x, Members(r, x) - {t}))
  }

  function DeleteSet(r: Redis, x: ItemId): Redis {
    r.(sets := r.sets - {x})
  }

  // The next segment of an operation under way.
  datatype Phase =
    | Saving(t: TaskId, x: ItemId)        // create_task, before its save pipeline
    | Removing(t: TaskId, x: ItemId)      // cleanup, before its removal pipeline
    | Counting(x: ItemId)                 // cleanup, before scard
    | Deleting(x: ItemId)                 // cleanup, scard was 0, before delete
    | Looking(t: TaskId)                  // stop_task, before hget
    | Publishing(t: TaskId, x: ItemId)    // stop_task, hget answered, before publish

  // owner, saved and removed record what has happened; no operation reads them.
  datatype State = State(
    redis: Redis,
    procs: map<nat, Phase>,
    owner: map<TaskId, ItemId>,   // every task created, with its item
    saved: set<TaskId>,           // its save pipeline has run
    removed: set<TaskId>          // a removal pipeline has run for it after that
  )

  datatype Action =
    | Create(pid: nat, t: TaskId, x: ItemId)
    | Finish(pid: nat, t: TaskId)   // the task's done callback starts a cleanup
    | Stop(pid: nat, t: TaskId)     // any caller, any id
    | Run(pid: nat)                 // one segment

  const INIT := State(Redis(map[], map[]), map[], map[], {}, {})

  // Task ids are fresh uuids; otherwise anything may happen at any time.
  predicate Enabled(s: State, a: Action) {
    match a
    case Create(pid, t, _) => pid !in s.procs && t !in s.owner
    case Finish(pid, t) => pid !in s.procs && t in s.owner
    case Stop(pid, _) => pid !in s.procs
    case Run(pid) => pid in s.procs
  }

  function Next(s: State, a: Action): State
    requires Enabled(s, a)
  {
    match a
    case Create(pid, t, x) => s.(procs := s.procs[pid := Saving(t, x)], owner := s.owner[t := x])
    case Finish(pid, t) => s.(procs := s.procs[pid := Removing(t, s.owner[t])])
    case Stop(pid, t) => s.(procs := s.procs[pid := Looking(t)])
    case Run(pid) => Segment(s, pid)
  }

  function Segment(s: State, pid: nat): State
    requires pid in s.procs
  {
    match s.procs[pid]
    case Saving(t, x) =>
      s.(redis := Save(s.redis, t, x), procs := s.procs - {pid}, saved := s.saved + {t})
    case Removing(t, x) =>
      s.(redis := Remove(s.redis, t, x),
         procs := if x == "" then s.procs - {pid} else s.procs[pid := Counting(x)],
         removed := if t in s.saved then s.removed + {t} else s.removed)
    case Counting(x) =>
      s.(procs := if Members(s.redis, x) == {} then s.procs[pid := Deleting(x)] else s.procs - {pid})
    case Deleting(x) =>
      s.(redis := DeleteSet(s.redis, x), procs := s.procs - {pid})
    case Looking(t) =>
      s.(procs := s.procs[pid := Publishing(t, if t in s.redis.hash then s.redis.hash[t] else "")])
    case Publishing(t, x) =>
      s.(procs := s.procs[pid := Removing(t, x)])
  }

  // A stop looks its id up only after that id was saved.
  predicate Timely(s: State, a: Action) {
    a.Run? && a.pid in s.procs && s.procs[a.pid].Looking? ==> s.procs[a.pid].t in s.saved
  }

  ghost predicate Runs(s: State, acts: seq<Action>)
    decreases |acts|
  {
    acts == [] || (Enabled(s, acts[0]) && Runs(Next(s, acts[0]), acts[1..]))
  }

  ghost predicate TimelyRun(s: State, acts: seq<Action>)
    decreases |acts|
  {
    acts == [] || (Enabled(s, acts[0]) && Timely(s, acts[0]) && TimelyRun(Next(s, acts[0]), acts[1..]))
  }

  ghost function After(s: State, acts: seq<Action>): State
    requires Runs(s, acts)
    decreases |acts|
  {
    if acts == [] then s else After(Next(s, acts[0]), acts[1..])
  }

  // ---- What every run keeps ----

  // The hash holds exactly the tasks saved and not removed since, each with its item.
  ghost predicate HashIsExact(s: State) {
    && s.removed <= s.saved <= s.owner.Keys
    && s.redis.hash.Keys == s.saved - s.removed
    && forall t <- s.redis.hash :: s.redis.hash[t] == s.owner[t]
  }

  // A save to come is the task's own, and there is one for each task.
  predicate SaverFits(s: State, p: Phase) {
    p.Saving? ==> p.t in s.owner && p.x == s.owner[p.t] && p.t !in s.saved
  }

  ghost predicate SaversFit(s: State) {
    && (forall pid <- s.procs :: SaverFits(s, s.procs[pid]))
    && (forall p, q |
          p in s.procs && q in s.procs && s.procs[p].Saving? && s.procs[q].Saving? && s.procs[p].t == s.procs[q].t ::
          p == q)
  }

  ghost predicate Base(s: State) {
    HashIsExact(s) && SaversFit(s)
  }

  lemma StepKeepsHash(s: State, a: Action)
    requires Base(s) && Enabled(s, a)
    ensures HashIsExact(Next(s, a))
  {
    if a.Run? {
      assert SaverFits(s, s.procs[a.pid]);
    }
  }

  lemma StepKeepsSavers(s: State, a: Action)
    requires Base(s) && Enabled(s, a)
    ensures SaversFit(Next(s, a))
  {
    var s' := Next(s, a);
    forall pid | pid in s'.procs ensures SaverFits(s', s'.procs[pid]) {
      SaverStaysFit(s, a, pid);
    }
  }

  lemma SaverStaysFit(s: State, a: Action, pid: nat)
    requires Base(s) && Enabled(s, a) && pid in Next(s, a).procs
    ensures SaverFits(Next(s, a), Next(s, a).procs[pid])
  {
    if pid != a.pid {
      assert SaverFits(s, s.procs[pid]);
    }
  }

  lemma StepKeepsBase(s: State, a: Action)
    requires Base(s) && Enabled(s, a)
    ensures Base(Next(s, a))
  {
    StepKeepsHash(s, a);
    StepKeepsSavers(s, a);
  }

  // ---- Members are hashed, and exactly when one is not ----

  predicate HashedTo(r: Redis, t: TaskId, x: ItemId) {
    x != "" && t in r.hash && r.hash[t] == x
  }

  ghost predicate Hashed(r: Redis) {
    forall x, t :: t in Members(r, x) ==> HashedTo(r, t, x)
  }

  // Every member of an item's set is a task hashed to that item.
  ghost predicate MembersAreHashed(s: State) {
    Hashed(s.redis)
  }

  // A removal that takes t out of the hash but not out of the set it is in.
  ghost predicate LeavesMember(s: State, a: Action) {
    && a.Run? && a.pid in s.procs && s.procs[a.pid].Removing?
    && exists y :: y != s.procs[a.pid].x && s.procs[a.pid].t in Members(s.redis, y)
  }

  // One step keeps the members hashed exactly unless it leaves one.
  lemma StepAndMembers(s: State, a: Action)
    requires Base(s) && MembersAreHashed(s) && Enabled(s, a)
    ensures MembersAreHashed(Next(s, a)) <==> !LeavesMember(s, a)
  {
    var r, r' := s.redis, Next(s, a).redis;
    if a.Run? {
      match s.procs[a.pid]
      case Saving(t, x) =>
        assert SaverFits(s, s.procs[a.pid]);
        forall y, u | u in Members(r', y) ensures HashedTo(r', u, y) {
          SaveKeepsMember(r, t, x, y, u);
        }
      case Removing(t, x) =>
        RemoveAndMembers(r, t, x);
      case Deleting(x) =>
        assert forall y :: Members(r', y) == if y == x then {} else Members(r, y);
      case _ => assert r' == r;
    } else {
      assert r' == r;
    }
  }

  lemma SaveKeepsMember(r: Redis, t: TaskId, x: ItemId, y: ItemId, u: TaskId)
    requires Hashed(r) && t !in r.hash && u in Members(Save(r, t, x), y)
    ensures HashedTo(Save(r, t, x), u, y)
  {
    MembersAfter(r, t, x, y);
    assert u in Members(r, y) || (u == t && y == x && x != "");
  }

  lemma RemoveAndMembers(r: Redis, t: TaskId, x: ItemId)
    requires Hashed(r)
    ensures Hashed(Remove(r, t, x)) <==> !exists y :: y != x && t in Members(r, y)
  {
    if y :| y != x && t in Members(r, y) {
      MembersAfter(r, t, x, y);
      assert t in Members(Remove(r, t, x), y) && !HashedTo(Remove(r, t, x), t, y);
    } else {
      forall y, u | u in Members(Remove(r, t, x), y) ensures HashedTo(Remove(r, t, x), u, y) {
        RemoveKeepsMember(r, t, x, y, u);
      }
    }
  }

  lemma RemoveKeepsMember(r: Redis, t: TaskId, x: ItemId, y: ItemId, u: TaskId)
    requires Hashed(r) && u in Members(Remove(r, t, x), y) && (t in Members(r, y) ==> y == x)
    ensures HashedTo(Remove(r, t, x), u, y)
  {
    MembersAfter(r, t, x, y);
    assert u in Members(r, y);
  }

  lemma MembersAfter(r: Redis, t: TaskId, x: ItemId, y: ItemId)
    ensures Members(Save(r, t, x), y) == if y == x && x != "" then Members(r, y) + {t} else Members(r, y)
    ensures Members(Remove(r, t, x), y) == if y == x && x != "" then Members(r, y) - {t} else Members(r, y)
  {
  }

  ghost predicate NeverLeaves(s: State, acts: seq<Action>)
    requires Runs(s, acts)
    decreases |acts|
  {
    acts == [] || (!LeavesMember(s, acts[0]) && NeverLeaves(Next(s, acts[0]), acts[1..]))
  }

  ghost predicate AlwaysHashed(s: State, acts: seq<Action>)
    requires Runs(s, acts)
    decreases |acts|
  {
    MembersAreHashed(s) && (acts == [] || AlwaysHashed(Next(s, acts[0]), acts[1..]))
  }

  lemma {:induction false} MembersAreHashedIff(s: State, acts: seq<Action>)
    requires Base(s) && MembersAreHashed(s) && Runs(s, acts)
    ensures AlwaysHashed(s, acts) <==> NeverLeaves(s, acts)
    decreases |acts|
  {
    if acts != [] {
      StepKeepsBase(s, acts[0]);
      StepAndMembers(s, acts[0]);
      if MembersAreHashed(Next(s, acts[0])) {
        MembersAreHashedIff(Next(s, acts[0]), acts[1..]);
      }
    }
  }

  lemma StartIsSound()
    ensures Base(INIT) && MembersAreHashed(INIT)
  {
    assert forall x :: Members(INIT.redis, x) == {};
  }

  // Members stay hashed throughout a run exactly when no removal in it leaves one.
  lemma RegistryIsSoundIff(acts: seq<Action>)
    requires Runs(INIT, acts)
    ensures AlwaysHashed(INIT, acts) <==> NeverLeaves(INIT, acts)
  {
    StartIsSound();
    MembersAreHashedIff(INIT, acts);
  }

  // ---- Timely runs ----

  // An operation about to remove t has its item right, or t is gone for good.
  predicate KnowsItem(s: State, t: TaskId, x: ItemId) {
    (t in s.owner && x == s.owner[t]) || (x == "" && t in s.removed)
  }

  predicate RemoverFits(s: State, p: Phase) {
    match p
    case Removing(t, x) => KnowsItem(s, t, x)
    case Publishing(t, x) => KnowsItem(s, t, x)
    case _ => true
  }

  ghost predicate RemoversFit(s: State) {
    forall pid <- s.procs :: RemoverFits(s, s.procs[pid])
  }

  ghost predicate Inv(s: State) {
    MembersAreHashed(s) && Base(s) && RemoversFit(s)
  }

  lemma StepKeepsRemovers(s: State, a: Action)
    requires Base(s) && RemoversFit(s) && Enabled(s, a) && Timely(s, a)
    ensures RemoversFit(Next(s, a))
  {
    var s' := Next(s, a);
    forall pid | pid in s'.procs ensures RemoverFits(s', s'.procs[pid]) {
      RemoverStaysFit(s, a, pid);
    }
  }

  lemma RemoverStaysFit(s: State, a: Action, pid: nat)
    requires Base(s) && RemoversFit(s) && Enabled(s, a) && Timely(s, a) && pid in Next(s, a).procs
    ensures RemoverFits(Next(s, a), Next(s, a).procs[pid])
  {
    if pid in s.procs {
      assert RemoverFits(s, s.procs[pid]);
    }
  }

  lemma TimelyNeverLeaves(s: State, a: Action)
    requires Inv(s) && Enabled(s, a)
    ensures !LeavesMember(s, a)
  {
    if a.Run? {
      assert RemoverFits(s, s.procs[a.pid]);
    }
  }

  lemma StepKeepsInv(s: State, a: Action)
    requires Inv(s) && Enabled(s, a) && Timely(s, a)
    ensures Inv(Next(s, a))
  {
    StepKeepsBase(s, a);
    StepKeepsRemovers(s, a);
    TimelyNeverLeaves(s, a);
    StepAndMembers(s, a);
  }

  lemma {:induction false} RunKeepsInv(s: State, acts: seq<Action>)
    requires Inv(s) && TimelyRun(s, acts)
    ensures Runs(s, acts) && Inv(After(s, acts))
    decreases |acts|
  {
    if acts != [] {
      StepKeepsInv(s, acts[0]);
      RunKeepsInv(Next(s, acts[0]), acts[1..]);
    }
  }

  // In every state of every timely run, however its segments interleave.
  lemma RegistryIsSound(acts: seq<Action>)
    requires TimelyRun(INIT, acts)
    ensures Runs(INIT, acts)
    ensures MembersAreHashed(After(INIT, acts)) && HashIsExact(After(INIT, acts))
  {
    StartIsSound();
    RunKeepsInv(INIT, acts);
  }

  // ---- The converse, and exactly when it fails ----

  // Every hashed task with an item is a member of that item's set.
  ghost predicate HashedAreMembers(s: State) {
    forall t <- s.redis.hash :: s.redis.hash[t] != "" ==> t in Members(s.redis, s.redis.hash[t])
  }

  // A delete whose set holds a task hashed to the item: a save came between the count and the
  // delete.
  ghost predicate LosesMembers(s: State, a: Action) {
    && a.Run? && a.pid in s.procs && s.procs[a.pid].Deleting?
    && exists t <- Members(s.redis, s.procs[a.pid].x) :: HashedTo(s.redis, t, s.procs[a.pid].x)
  }

  lemma StepAndConverse(s: State, a: Action)
    requires Base(s) && HashedAreMembers(s) && Enabled(s, a)
    ensures HashedAreMembers(Next(s, a)) <==> !LosesMembers(s, a)
  {
    if LosesMembers(s, a) {
      var x := s.procs[a.pid].x;
      var t :| t in Members(s.redis, x) && HashedTo(s.redis, t, x);
      assert t in Next(s, a).redis.hash;
    }
  }

  ghost predicate NeverLoses(s: State, acts: seq<Action>)
    requires Runs(s, acts)
    decreases |acts|
  {
    acts == [] || (!LosesMembers(s, acts[0]) && NeverLoses(Next(s, acts[0]), acts[1..]))
  }

  ghost predicate AlwaysMembers(s: State, acts: seq<Action>)
    requires Runs(s, acts)
    decreases |acts|
  {
    HashedAreMembers(s) && (acts == [] || AlwaysMembers(Next(s, acts[0]), acts[1..]))
  }

  // Hash and sets agree throughout a run exactly when no delete in it hits a refilled set.
  lemma {:induction false} SetsAreCompleteIff(s: State, acts: seq<Action>)
    requires Base(s) && HashedAreMembers(s) && Runs(s, acts)
    ensures AlwaysMembers(s, acts) <==> NeverLoses(s, acts)
    decreases |acts|
  {
    if acts != [] {
      var s' := Next(s, acts[0]);
      StepKeepsBase(s, acts[0]);
      StepAndConverse(s, acts[0]);
      if HashedAreMembers(s') {
        SetsAreCompleteIff(s', acts[1..]);
      }
    }
  }

  lemma RegistryIsCompleteIff(acts: seq<Action>)
    requires Runs(INIT, acts)
    ensures AlwaysMembers(INIT, acts) <==> NeverLoses(INIT, acts)
  {
    StartIsSound();
    SetsAreCompleteIff(INIT, acts);
  }

  // A count of zero, after which the cleanup goes on to delete.
  predicate CountsZero(s: State, a: Action) {
    a.Run? && a.pid in s.procs && s.procs[a.pid].Counting? && Members(s.redis, s.procs[a.pid].x) == {}
  }

  // Nothing comes between a count of zero and its delete.
  ghost predicate DeletesAtOnce(s: State, acts: seq<Action>)
    requires Runs(s, acts)
    decreases |acts|
  {
    acts == [] ||
    ((CountsZero(s, acts[0]) && |acts| > 1 ==> acts[1] == acts[0]) && DeletesAtOnce(Next(s, acts[0]), acts[1..]))
  }

  lemma {:induction false} AtOnceNeverLoses(s: State, acts: seq<Action>)
    requires Runs(s, acts) && DeletesAtOnce(s, acts)
    requires forall p <- s.procs :: s.procs[p].Deleting? ==>
               Members(s.redis, s.procs[p].x) == {} && (acts != [] ==> acts[0] == Run(p))
    ensures NeverLoses(s, acts)
    decreases |acts|
  {
    if acts != [] {
      var a, s' := acts[0], Next(s, acts[0]);
      assert forall p <- s'.procs :: s'.procs[p].Deleting? ==> CountsZero(s, a) && p == a.pid;
      AtOnceNeverLoses(s', acts[1..]);
    }
  }

  // Were the count and the delete one step, hash and sets would always agree.
  lemma OneStepCleanupIsComplete(acts: seq<Action>)
    requires Runs(INIT, acts) && DeletesAtOnce(INIT, acts)
    ensures AlwaysMembers(INIT, acts)
  {
    RegistryIsCompleteIff(acts);
    AtOnceNeverLoses(INIT, acts);
  }

  // As long as no members were lost, an item's listing is exactly its tasks that were saved
  // and not removed since.
  lemma ListingIsExact(s: State, x: ItemId)
    requires Inv(s) && HashedAreMembers(s) && x != ""
    ensures Members(s.redis, x) == set t | t in s.saved - s.removed && s.owner[t] == x
  {
    forall t ensures t in Members(s.redis, x) <==> t in s.saved - s.removed && s.owner[t] == x {
      if t in s.saved - s.removed {
        assert t in s.redis.hash;
      }
    }
  }

  // A removed task is never listed again, even by members that were lost and found.
  lemma {:induction false} RemovedStaysRemoved(s: State, acts: seq<Action>, t: TaskId)
    requires Inv(s) && TimelyRun(s, acts) && t in s.removed
    ensures Runs(s, acts)
    ensures t !in After(s, acts).redis.hash && forall x :: t !in Members(After(s, acts).redis, x)
    decreases |acts|
  {
    if acts != [] {
      StepKeepsInv(s, acts[0]);
      RemovedStaysRemoved(Next(s, acts[0]), acts[1..], t);
    }
  }

  lemma NoHashNoMembers(s: State)
    requires MembersAreHashed(s) && s.redis.hash == map[]
    ensures forall x :: Members(s.redis, x) == {}
  {
    forall x ensures Members(s.redis, x) == {} {
      forall t ensures t !in Members(s.redis, x) {
        assert t in Members(s.redis, x) ==> t in s.redis.hash.Keys;
      }
    }
  }

  // Once every saved task has been removed, nothing is left in Redis.
  lemma NothingIsLeft(acts: seq<Action>)
    requires TimelyRun(INIT, acts)
    ensures Runs(INIT, acts)
    ensures var s := After(INIT, acts);
            s.saved <= s.removed ==> s.redis.hash == map[] && forall x :: Members(s.redis, x) == {}
  {
    RegistryIsSound(acts);
    var s := After(INIT, acts);
    if s.saved <= s.removed {
      assert s.redis.hash.Keys == {};
      assert s.redis.hash == map[];
      NoHashNoMembers(s);
    }
  }

  // The first save of a lone task.
  lemma FirstSave(t: TaskId, x: ItemId)
    requires x != ""
    ensures Save(Redis(map[], map[]), t, x) == Redis(map[t := x], map[x := {t}])
  {
    assert {} + {t} == {t};
  }

  lemma RunStep(s: State, acts: seq<Action>)
    requires acts != [] && Enabled(s, acts[0])
    ensures Runs(s, acts) <==> Runs(Next(s, acts[0]), acts[1..])
    ensures Runs(s, acts) ==> After(s, acts) == After(Next(s, acts[0]), acts[1..])
    ensures Timely(s, acts[0]) ==> (TimelyRun(s, acts) <==> TimelyRun(Next(s, acts[0]), acts[1..]))
  {
  }

  lemma {:induction false} RunAppend(s: State, acts: seq<Action>, more: seq<Action>)
    requires TimelyRun(s, acts) && Runs(s, acts) && TimelyRun(After(s, acts), more) && Runs(After(s, acts), more)
    ensures TimelyRun(s, acts + more) && Runs(s, acts + more)
    ensures After(s, acts + more) == After(After(s, acts), more)
    decreases |acts|
  {
    if acts == [] {
      assert acts + more == more;
    } else {
      assert (acts + more)[1..] == acts[1..] + more;
      RunAppend(Next(s, acts[0]), acts[1..], more);
    }
  }

  // The cleanup of the only task of "x" has counted 0 members and not deleted yet.
  const COUNTED := State(Redis(map[], map[]), map[0 := Deleting("x")], map["t" := "x"], {"t"}, {"t"})
  const UP_TO_COUNT := [Create(0, "t", "x"), Run(0), Finish(0, "t"), Run(0), Run(0)]
  const SAVE_THEN_DELETE := [Create(1, "u", "x"), Run(1), Run(0)]

  lemma CleanupUpToCount()
    ensures TimelyRun(INIT, UP_TO_COUNT) && Runs(INIT, UP_TO_COUNT) && After(INIT, UP_TO_COUNT) == COUNTED
  {
    var acts := UP_TO_COUNT;
    var s1 := State(Redis(map[], map[]), map[0 := Saving("t", "x")], map["t" := "x"], {}, {});
    var s2 := State(Redis(map["t" := "x"], map["x" := {"t"}]), map[], map["t" := "x"], {"t"}, {});
    var s3 := s2.(procs := map[0 := Removing("t", "x")]);
    var s4 := COUNTED.(procs := map[0 := Counting("x")]);
    FirstSave("t", "x");
    assert s1.procs - {0} == map[];
    assert Next(s1, acts[1]) == s2;
    assert Next(s2, acts[2]) == s3;
    assert Next(s3, acts[3]) == s4;
    assert Next(s4, acts[4]) == COUNTED;
    RunStep(s4, acts[4..]);
    RunStep(s3, acts[3..]);
    RunStep(s2, acts[2..]);
    RunStep(s1, acts[1..]);
    RunStep(INIT, acts);
  }

  lemma SaveThenDelete()
    ensures TimelyRun(COUNTED, SAVE_THEN_DELETE) && Runs(COUNTED, SAVE_THEN_DELETE)
    ensures After(COUNTED, SAVE_THEN_DELETE).redis == Redis(map["u" := "x"], map[])
  {
    var acts := SAVE_THEN_DELETE;
    var s1 := COUNTED.(procs := COUNTED.procs[1 := Saving("u", "x")], owner := map["t" := "x", "u" := "x"]);
    var s2 := s1.(redis := Redis(map["u" := "x"], map["x" := {"u"}]), procs := COUNTED.procs, saved := {"t", "u"});
    FirstSave("u", "x");
    assert s1.procs - {1} == COUNTED.procs;
    assert Next(COUNTED, acts[0]) == s1;
    assert Next(s1, acts[1]) == s2;
    RunStep(s2, acts[2..]);
    RunStep(s1, acts[1..]);
    RunStep(COUNTED, acts);
  }

  // Task "u" is saved between the count and the delete of the cleanup of "t": it stays in
  // the hash but is missing from its item's set.
  lemma SaveBetweenCountAndDelete()
    ensures var acts := UP_TO_COUNT + SAVE_THEN_DELETE;
            TimelyRun(INIT, acts) && Runs(INIT, acts) && !HashedAreMembers(After(INIT, acts))
  {
    CleanupUpToCount();
    SaveThenDelete();
    RunAppend(INIT, UP_TO_COUNT, SAVE_THEN_DELETE);
    assert "u" in After(COUNTED, SAVE_THEN_DELETE).redis.hash;
  }

  // A stop that looks its id up before the save learns no item, and removes the task from
  // the hash only: "t" stays a member of the set of "x".
  lemma StopBeforeSave()
    ensures var acts := [Create(0, "t", "x"), Stop(1, "t"), Run(1), Run(0), Run(1), Run(1)];
            Runs(INIT, acts) && !MembersAreHashed(After(INIT, acts))
  {
    var acts := [Create(0, "t", "x"), Stop(1, "t"), Run(1), Run(0), Run(1), Run(1)];
    var owner := map["t" := "x"];
    var s1 := State(Redis(map[], map[]), map[0 := Saving("t", "x")], owner, {}, {});
    var s2 := s1.(procs := map[0 := Saving("t", "x"), 1 := Looking("t")]);
    var s3 := s1.(procs := map[0 := Saving("t", "x"), 1 := Publishing("t", "")]);
    var s4 := State(Redis(map["t" := "x"], map["x" := {"t"}]), map[1 := Publishing("t", "")], owner, {"t"}, {});
    var s5 := s4.(procs := map[1 := Removing("t", "")]);
    var s6 := State(Redis(map[], map["x" := {"t"}]), map[], owner, {"t"}, {"t"});
    FirstSave("t", "x");
    assert s3.procs - {0} == s4.procs;
    assert Next(INIT, acts[0]) == s1;
    assert Next(s1, acts[1]) == s2;
    assert Next(s2, acts[2]) == s3;
    assert Next(s3, acts[3]) == s4;
    assert Next(s4, acts[4]) == s5;
    assert Next(s5, acts[5]) == s6;
    RunStep(s5, acts[5..]);
    RunStep(s4, acts[4..]);
    RunStep(s3, acts[3..]);
    RunStep(s2, acts[2..]);
    RunStep(s1, acts[1..]);
    RunStep(INIT, acts);
    assert "t" in Members(s6.redis, "x");
  }
}
