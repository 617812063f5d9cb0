/**
 The task registry of one process when no Redis is configured: a dictionary of running tasks
 and, per item, a list of task ids. The item id is optional, and falsy when missing or "".

 The ghost fields record which tasks were created, whose done callback has run and which were
 stopped; `Valid` says that the two dictionaries are determined by that record.
 */
module LocalTasks {
  import opened Wrappers

  type TaskId = string
  type ItemId = Option<string>

  datatype Created = Created(id: TaskId, item: ItemId)

  predicate Truthy(x: ItemId) {
    x.Some? && x.value != ""
  }

  ghost predicate Distinct(log: seq<Created>) {
    forall i, j :: 0 <= i < j < |log| ==> log[i].id != log[j].id
  }

  ghost function Ids(log: seq<Created>): set<TaskId> {
    set c | c in log :: c.id
  }

  // The tasks of x in creation order; cleanup takes finished ones off truthy items only.
  ghost function Listed(log: seq<Created>, finished: set<TaskId>, x: ItemId): seq<TaskId> {
    if log == [] then []
    else
      var last := log[|log| - 1];
      var before := Listed(log[..|log| - 1], finished, x);
      if last.item == x && (Truthy(x) ==> last.id !in finished) then before + [last.id] else before
  }

  lemma {:induction false} ListedMembers(log: seq<Created>, finished: set<TaskId>, x: ItemId, t: TaskId)
    ensures t in Listed(log, finished, x) <==> Created(t, x) in log && (Truthy(x) ==> t !in finished)
    decreases |log|
  {
    if log != [] {
      ListedMembers(log[..|log| - 1], finished, x, t);
      assert log == log[..|log| - 1] + [log[|log| - 1]];
    }
  }

  lemma {:induction false} ListedHasNoDuplicates(log: seq<Created>, finished: set<TaskId>, x: ItemId)
    requires Distinct(log)
    ensures var l := Listed(log, finished, x);
            forall i, j :: 0 <= i < j < |l| ==> l[i] != l[j]
    decreases |log|
  {
    if log != [] {
      var n := |log| - 1;
      ListedHasNoDuplicates(log[..n], finished, x);
      ListedMembers(log[..n], finished, x, log[n].id);
    }
  }

  // list.remove: the first occurrence goes.
  function Remove(s: seq<TaskId>, t: TaskId): seq<TaskId> {
    if s == [] then [] else if s[0] == t then s[1..] else [s[0]] + Remove(s[1..], t)
  }

  lemma {:induction false} RemoveAbsent(s: seq<TaskId>, t: TaskId)
    requires t !in s
    ensures Remove(s, t) == s
  {
    if s != [] {
      RemoveAbsent(s[1..], t);
    }
  }

  lemma {:induction false} RemoveFromAppend(s: seq<TaskId>, last: TaskId, t: TaskId)
    ensures Remove(s + [last], t) ==
            if t in s then Remove(s, t) + [last] else if t == last then s else s + [last]
  {
    if s != [] {
      assert (s + [last])[1..] == s[1..] + [last];
      RemoveFromAppend(s[1..], last, t);
    }
  }

  // Finishing one more task is removing it from its item's list.
  lemma {:induction false} FinishIsRemove(log: seq<Created>, finished: set<TaskId>, t: TaskId, x: ItemId)
    requires Distinct(log) && Truthy(x)
    ensures Listed(log, finished + {t}, x) == Remove(Listed(log, finished, x), t)
    decreases |log|
  {
    if log != [] {
      var n := |log| - 1;
      var init := Listed(log[..n], finished, x);
      FinishIsRemove(log[..n], finished, t, x);
      ListedMembers(log[..n], finished, x, t);
      if log[n].item == x && log[n].id !in finished {
        RemoveFromAppend(init, log[n].id, t);
        RemoveAbsentIfAbsent(init, t);
        assert t == log[n].id ==> forall c <- log[..n] :: c.id != t;
      }
    }
  }

  lemma OtherItemsStay(log: seq<Created>, finished: set<TaskId>, t: TaskId, x: ItemId, y: ItemId)
    requires Distinct(log) && Created(t, x) in log && y != x
    ensures Listed(log, finished + {t}, y) == Listed(log, finished, y)
  {
    if Truthy(y) {
      FinishIsRemove(log, finished, t, y);
      ListedMembers(log, finished, y, t);
      RemoveAbsent(Listed(log, finished, y), t);
    } else {
      FalsyItemsStay(log, finished, t, y);
    }
  }

  lemma {:induction false} FalsyItemsStay(log: seq<Created>, finished: set<TaskId>, t: TaskId, y: ItemId)
    requires !Truthy(y)
    ensures Listed(log, finished + {t}, y) == Listed(log, finished, y)
    decreases |log|
  {
    if log != [] {
      FalsyItemsStay(log[..|log| - 1], finished, t, y);
    }
  }

  // What the record says the two dictionaries hold.
  ghost predicate Matches(tasks: set<TaskId>, itemTasks: map<ItemId, seq<TaskId>>,
                          log: seq<Created>, finished: set<TaskId>, stopped: set<TaskId>) {
    && Distinct(log) && finished <= Ids(log) && stopped <= Ids(log)
    && tasks == Ids(log) - finished - stopped
    && (forall x :: x in itemTasks <==> Listed(log, finished, x) != [])
    && (forall x <- itemTasks :: itemTasks[x] == Listed(log, finished, x))
  }

  // Every list is non-empty and free of duplicates and, for a truthy item, holds exactly the
  // tasks created for it whose callback has not run, so every task still registered is listed.
  lemma ListsAreExact(tasks: set<TaskId>, itemTasks: map<ItemId, seq<TaskId>>,
                      log: seq<Created>, finished: set<TaskId>, stopped: set<TaskId>, x: ItemId)
    requires Matches(tasks, itemTasks, log, finished, stopped) && x.Some? && x.value != ""
    ensures x in itemTasks ==>
              && itemTasks[x] != []
              && (forall i, j :: 0 <= i < j < |itemTasks[x]| ==> itemTasks[x][i] != itemTasks[x][j])
              && (forall t <- itemTasks[x] :: Created(t, x) in log && t !in finished)
    ensures forall c <- log ::
              c.item == x && c.id !in finished <==> c.item == x && x in itemTasks && c.id in itemTasks[x]
    ensures forall c <- log :: c.item == x && c.id in tasks ==> x in itemTasks && c.id in itemTasks[x]
  {
    ListedHasNoDuplicates(log, finished, x);
    forall t ensures t in Listed(log, finished, x) ==> Created(t, x) in log && t !in finished {
      ListedMembers(log, finished, x, t);
    }
    forall c | c in log && c.item == x
      ensures c.id !in finished <==> x in itemTasks && c.id in itemTasks[x]
    {
      ListedMembers(log, finished, x, c.id);
      assert c == Created(c.id, x);
    }
  }

  // Once every callback has run, nothing is registered and only lists of falsy items
  // are left.
  lemma AllFinished(tasks: set<TaskId>, itemTasks: map<ItemId, seq<TaskId>>,
                    log: seq<Created>, finished: set<TaskId>, stopped: set<TaskId>)
    requires Matches(tasks, itemTasks, log, finished, stopped) && finished == Ids(log)
    ensures tasks == {}
    ensures forall x <- itemTasks :: x.None? || x.value == ""
  {
    forall x | x in itemTasks ensures !Truthy(x) {
      var t := itemTasks[x][0];
      ListedMembers(log, finished, x, t);
      assert Created(t, x) in log && t in Ids(log);
    }
  }

  lemma ListedAfter(log: seq<Created>, c: Created, finished: set<TaskId>, x: ItemId)
    requires c.id !in finished
    ensures Listed(log + [c], finished, x) ==
            if x == c.item then Listed(log, finished, x) + [c.id] else Listed(log, finished, x)
  {
    assert (log + [c])[..|log|] == log;
  }

  lemma IdsAfter(log: seq<Created>, c: Created)
    requires Distinct(log) && c.id !in Ids(log)
    ensures Distinct(log + [c]) && Ids(log + [c]) == Ids(log) + {c.id}
  {
    var after := log + [c];
    forall i, j | 0 <= i < j < |after| ensures after[i].id != after[j].id {
      assert log[i].id in Ids(log);
    }
    assert forall d :: d in after <==> d in log || d == c;
  }

  // A fresh task is registered and put at the end of its item's list.
  lemma MatchesAfterCreate(tasks: set<TaskId>, itemTasks: map<ItemId, seq<TaskId>>, log: seq<Created>,
                           finished: set<TaskId>, stopped: set<TaskId>, c: Created)
    requires Matches(tasks, itemTasks, log, finished, stopped) && c.id !in Ids(log)
    ensures var list := if c.item in itemTasks && itemTasks[c.item] != [] then itemTasks[c.item] else [];
            Matches(tasks + {c.id}, itemTasks[c.item := list + [c.id]], log + [c], finished, stopped)
  {
    IdsAfter(log, c);
    forall x ensures Listed(log + [c], finished, x) ==
                     if x == c.item then Listed(log, finished, x) + [c.id] else Listed(log, finished, x) {
      ListedAfter(log, c, finished, x);
    }
  }

  class Registry {
    var tasks: set<TaskId>
    var itemTasks: map<ItemId, seq<TaskId>>
    ghost var log: seq<Created>
    ghost var finished: set<TaskId>
    ghost var stopped: set<TaskId>

    ghost predicate Valid()
      reads this
    {
      Matches(tasks, itemTasks, log, finished, stopped)
    }

    constructor ()
      ensures Valid() && log == [] && finished == {} && stopped == {}
    {
      tasks, itemTasks, log, finished, stopped := {}, map[], [], {}, {};
    }

    // `taskId` is the fresh uuid.
    method CreateTask(taskId: TaskId, id: ItemId)
      requires Valid() && taskId !in Ids(log)
      modifies this
      ensures Valid() && log == old(log) + [Created(taskId, id)]
      ensures finished == old(finished) && stopped == old(stopped)
    {
      MatchesAfterCreate(tasks, itemTasks, log, finished, stopped, Created(taskId, id));
      tasks := tasks + {taskId};
      if id in itemTasks && itemTasks[id] != [] {
        itemTasks := itemTasks[id := itemTasks[id] + [taskId]];
      } else {
        itemTasks := itemTasks[id := [taskId]];
      }
      log := log + [Created(taskId, id)];
    }

    // The done callback of a task created for `id`.
    method CleanupTask(taskId: TaskId, id: ItemId)
      requires Valid() && Created(taskId, id) in log
      modifies this
      ensures Valid() && finished == old(finished) + {taskId}
      ensures log == old(log) && stopped == old(stopped)
    {
      ghost var before := finished;
      finished := finished + {taskId};
      tasks := tasks - {taskId};
      ListedMembers(log, before, id, taskId);
      forall x | x != id ensures Listed(log, finished, x) == Listed(log, before, x) {
        OtherItemsStay(log, before, taskId, id, x);
      }
      if Truthy(id) {
        FinishIsRemove(log, before, taskId, id);
        RemoveAbsentIfAbsent(Listed(log, before, id), taskId);
      } else {
        FalsyItemsStay(log, before, taskId, id);
      }
      if Truthy(id) && id in itemTasks && taskId in itemTasks[id] {
        var rest := Remove(itemTasks[id], taskId);
        if rest == [] {
          itemTasks := itemTasks - {id};
        } else {
          itemTasks := itemTasks[id := rest];
        }
      }
    }

    // stop_task up to its await: the task leaves the dictionary and is cancelled.
    method StopTask(taskId: TaskId) returns (found: bool)
      requires Valid()
      modifies this
      ensures Valid() && found == (taskId in old(tasks))
      ensures stopped == if found then old(stopped) + {taskId} else old(stopped)
      ensures log == old(log) && finished == old(finished) && itemTasks == old(itemTasks)
    {
      found := taskId in tasks;
      if found {
        tasks := tasks - {taskId};
        stopped := stopped + {taskId};
      }
    }

    // has_active_tasks. The list of a falsy item never shrinks, so finished tasks of such an
    // item count as active too.
    method HasActiveTasks(id: ItemId) returns (active: bool)
      requires Valid()
      ensures active <==>
              exists c :: c in log && c.item == id && (id.Some? && id.value != "" ==> c.id !in finished)
    {
      active := id in itemTasks && |itemTasks[id]| > 0;
      if active {
        ListedMembers(log, finished, id, itemTasks[id][0]);
      } else {
        forall c | c in log && c.item == id ensures Truthy(id) && c.id in finished {
          ListedMembers(log, finished, id, c.id);
          assert c == Created(c.id, id);
        }
      }
    }
  }

  lemma RemoveAbsentIfAbsent(s: seq<TaskId>, t: TaskId)
    ensures t !in s ==> Remove(s, t) == s
  {
    if t !in s {
      RemoveAbsent(s, t);
    }
  }
}
