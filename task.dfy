/** The kernel's cooperative task executor (`kernel/src/task/mod.rs` and
    `kernel/src/task/executor.rs`): a map from task id to task, a bounded
    queue of ids that are ready to run, and a cache of one waker per task.
    A task's future is opaque here; what polling it does (finish or not,
    and which wakers it calls) is a parameter of the run loop. The static
    id counter, the mutex and the `Arc`s are plain sequential state. */
module Tasks {
  import opened Base

  const U64_LIMIT: nat := 0x1_0000_0000_0000_0000
  /** `ArrayQueue::new(100)`. */
  const CAPACITY: nat := 100

  const DUPLICATE_ID: string := "Tried to spawn two tasks with same ID"
  const QUEUE_FULL: string := "queue full"
  const TASK_QUEUE_FULL: string := "task queue full"

  type TaskId = u64

  /** A spawned task: its id and a token for its future. */
  datatype Task = Task(id: TaskId, future: nat)

  /** A `TaskWaker`: waking it pushes `taskId` onto the queue. */
  datatype Waker = Waker(taskId: TaskId)

  /** What one poll of a task did: whether it finished, and the wakers it
      called (in order) while it ran. */
  datatype PollResult = PollResult(ready: bool, wakes: seq<Waker>)

  /** The executor's three collections. */
  datatype TaskState = TaskState(tasks: map<TaskId, Task>, queue: seq<TaskId>, cache: map<TaskId, Waker>)

  /** What `pop_task` hands to the run loop. */
  datatype Popped = Popped(id: TaskId, task: Task, waker: Waker)

  /** `NEXT_ID.fetch_add(1)`: atomic addition wraps around. */
  function NextId(n: TaskId): TaskId
  {
    (n + 1) % U64_LIMIT
  }

  /** The ids `k` calls of `TaskId::new` hand out, starting from counter
      value `start`. */
  function Issued(start: TaskId, k: nat): (r: seq<TaskId>)
    ensures |r| == k
  {
    seq(k, i => (start + i) % U64_LIMIT)
  }

  /** The counter hands out strictly increasing ids until it wraps, and
      pairwise different ids for 2^64 calls. */
  lemma {:induction false} IssuedIncreasing(start: TaskId, k: nat)
    ensures start + k <= U64_LIMIT ==> forall i, j :: 0 <= i < j < k ==> Issued(start, k)[i] < Issued(start, k)[j]
    ensures k <= U64_LIMIT ==> forall i, j :: 0 <= i < j < k ==> Issued(start, k)[i] != Issued(start, k)[j]
  {
    var s := Issued(start, k);
    forall i, j | 0 <= i < j < k && k <= U64_LIMIT
      ensures s[i] != s[j]
    {
      if start + j < U64_LIMIT {
        assert s[i] == start + i && s[j] == start + j;
      } else if start + i >= U64_LIMIT {
        assert s[i] == start + i - U64_LIMIT && s[j] == start + j - U64_LIMIT;
      } else {
        assert s[i] == start + i && s[j] == start + j - U64_LIMIT;
      }
    }
  }

  /** The static `NEXT_ID` counter of `TaskId::new`. */
  class IdCounter {
    var next: TaskId

    constructor ()
      ensures next == 0
    {
      next := 0;
    }

    /** `TaskId::new`. */
    method NewId() returns (id: TaskId)
      modifies this
      ensures id == old(next) && next == NextId(old(next))
      ensures next == Issued(old(next), 2)[1]
    {
      id := next;
      next := NextId(next);
    }
  }

  /** Pushing the ids of `wakes` one by one onto a queue of capacity 100;
      a push onto a full queue panics. */
  function PushAll(queue: seq<TaskId>, wakes: seq<Waker>): Run<seq<TaskId>>
    decreases |wakes|
  {
    if wakes == [] then Returns(queue)
    else if |queue| >= CAPACITY then Panics(TASK_QUEUE_FULL)
    else PushAll(queue + [wakes[0].taskId], wakes[1..])
  }

  /** The ids of `wakes`, in order. */
  function WakeIds(wakes: seq<Waker>): (r: seq<TaskId>)
    ensures |r| == |wakes| && forall i :: 0 <= i < |wakes| ==> r[i] == wakes[i].taskId
  {
    seq(|wakes|, i requires 0 <= i < |wakes| => wakes[i].taskId)
  }

  /** Each wake pushes its task id exactly once: the pushes succeed exactly
      when everything fits in the capacity, and then append the woken ids
      in order. */
  lemma {:induction false} PushAllMeaning(queue: seq<TaskId>, wakes: seq<Waker>)
    ensures PushAll(queue, wakes).Returns? <==> |queue| + |wakes| <= CAPACITY || wakes == []
    ensures PushAll(queue, wakes).Returns? ==> PushAll(queue, wakes).value == queue + WakeIds(wakes)
    decreases |wakes|
  {
    if wakes != [] && |queue| < CAPACITY {
      PushAllMeaning(queue + [wakes[0].taskId], wakes[1..]);
      assert queue + WakeIds(wakes) == queue + [wakes[0].taskId] + WakeIds(wakes[1..]);
    }
  }

  /** The pop loop of `pop_task`: drop queued ids that are no longer in
      `tasks`, stop at the first one that is. */
  function PopFrom(tasks: map<TaskId, Task>, queue: seq<TaskId>): (r: (Option<TaskId>, seq<TaskId>))
    ensures r.0.Some? ==> r.0.value in tasks
    ensures |r.1| < |queue| || r.1 == queue == []
    decreases |queue|
  {
    if queue == [] then (None, [])
    else if queue[0] in tasks then (Some(queue[0]), queue[1..])
    else PopFrom(tasks, queue[1..])
  }

  /** The pop loop finds the first queued id that still has a task and
      leaves the queue after it; it finds none exactly when no queued id
      has a task, and then leaves the queue empty. */
  lemma {:induction false} PopFromMeaning(tasks: map<TaskId, Task>, queue: seq<TaskId>)
    ensures PopFrom(tasks, queue).0.None? <==> forall k :: 0 <= k < |queue| ==> queue[k] !in tasks
    ensures PopFrom(tasks, queue).0.None? ==> PopFrom(tasks, queue).1 == []
    ensures PopFrom(tasks, queue).0.Some? ==>
      exists k :: 0 <= k < |queue| && queue[k] == PopFrom(tasks, queue).0.value && queue[k] in tasks
        && PopFrom(tasks, queue).1 == queue[k + 1..]
        && forall j :: 0 <= j < k ==> queue[j] !in tasks
    decreases |queue|
  {
    if queue != [] && queue[0] !in tasks {
      PopFromMeaning(tasks, queue[1..]);
      if PopFrom(tasks, queue).0.Some? {
        var k :| 0 <= k < |queue[1..]| && queue[1..][k] == PopFrom(tasks, queue).0.value && queue[1..][k] in tasks
          && PopFrom(tasks, queue).1 == queue[1..][k + 1..]
          && forall j :: 0 <= j < k ==> queue[1..][j] !in tasks;
        assert queue[1..][k + 1..] == queue[k + 2..];
        assert queue[k + 1] == PopFrom(tasks, queue).0.value;
      }
    } else if queue != [] {
      assert queue[0] == PopFrom(tasks, queue).0.value;
    }
  }

  /** `pop_task`: the pop loop, then the cached waker of the found task (a
      new one only when the cache has none), and the ready task taken out of
      `tasks`. */
  function PopNext(s: TaskState): (r: (Option<Popped>, TaskState))
    ensures r.0.Some? ==> r.0.value.id in s.tasks && r.1.tasks.Keys == s.tasks.Keys - {r.0.value.id}
  {
    var (found, rest) := PopFrom(s.tasks, s.queue);
    match found
    case None => (None, s.(queue := rest))
    case Some(id) =>
      var waker := if id in s.cache then s.cache[id] else Waker(id);
      (Some(Popped(id, s.tasks[id], waker)), TaskState(s.tasks - {id}, rest, s.cache[id := waker]))
  }

  /** A popped task is out of `tasks` while it runs, and its waker is
      created at most once: an existing cache entry is reused and the
      cache only grows. */
  lemma {:induction false} PopTaskMeaning(s: TaskState)
    ensures PopNext(s).0.None? <==> forall k :: 0 <= k < |s.queue| ==> s.queue[k] !in s.tasks
    ensures PopNext(s).0.None? ==> PopNext(s).1 == s.(queue := [])
    ensures PopNext(s).0.Some? ==>
      var p := PopNext(s).0.value;
      var s' := PopNext(s).1;
      && p.id in s.tasks && p.task == s.tasks[p.id]
      && s'.tasks == s.tasks - {p.id}
      && (p.id in s.cache ==> p.waker == s.cache[p.id])
      && (p.id !in s.cache ==> p.waker == Waker(p.id))
      && Extends(s.cache, s'.cache) && s'.cache.Keys == s.cache.Keys + {p.id} && s'.cache[p.id] == p.waker
  {
    PopFromMeaning(s.tasks, s.queue);
  }

  /** The rest of one turn of the run loop: the wakes made during the poll
      are pushed, then a finished task leaves `tasks` and the waker cache,
      and an unfinished one goes back into `tasks` under its id. */
  function Finish(s: TaskState, p: Popped, poll: PollResult): Run<TaskState>
  {
    match PushAll(s.queue, poll.wakes)
    case Panics(m) => Panics(m)
    case Returns(queue) =>
      if poll.ready then Returns(TaskState(s.tasks - {p.id}, queue, s.cache - {p.id}))
      else Returns(TaskState(s.tasks[p.id := p.task], queue, s.cache))
  }

  /** `run_ready_tasks` for at most `|polls|` turns, turn `i` polling with
      outcome `polls[i]`; it stops early when no queued id has a task. */
  function RunReady(s: TaskState, polls: seq<PollResult>): Run<TaskState>
    decreases |polls|
  {
    if polls == [] then Returns(s)
    else
      var (p, s1) := PopNext(s);
      match p
      case None => Returns(s1)
      case Some(popped) =>
        match Finish(s1, popped, polls[0])
        case Panics(m) => Panics(m)
        case Returns(s2) => RunReady(s2, polls[1..])
  }

  /** The executor's invariant: the queue is within its capacity, every
      task and every cached waker is filed under its own id, and every id
      in use is below the counter. */
  predicate Valid(s: TaskState, next: TaskId)
  {
    && |s.queue| <= CAPACITY
    && (forall id :: id in s.tasks ==> s.tasks[id].id == id && id < next)
    && (forall id :: id in s.cache ==> s.cache[id] == Waker(id) && id < next)
  }

  /** One turn keeps the invariant when the wakes name spawned tasks; a
      finished task is gone from `tasks` and the cache, an unfinished one
      is back in `tasks`, and the queue is what the pop left plus the woken
      ids. */
  lemma {:induction false} TurnKeepsValid(s: TaskState, next: TaskId, poll: PollResult)
    requires Valid(s, next) && PopNext(s).0.Some?
    requires forall i :: 0 <= i < |poll.wakes| ==> poll.wakes[i].taskId < next
    ensures var p := PopNext(s).0.value;
      var s1 := PopNext(s).1;
      && (Finish(s1, p, poll).Returns? <==> |s1.queue| + |poll.wakes| <= CAPACITY || poll.wakes == [])
      && (Finish(s1, p, poll).Returns? ==>
        var s2 := Finish(s1, p, poll).value;
        && Valid(s2, next)
        && s2.queue == s1.queue + WakeIds(poll.wakes)
        && (poll.ready ==> p.id !in s2.tasks && p.id !in s2.cache)
        && (!poll.ready ==> p.id in s2.tasks && s2.tasks[p.id] == s.tasks[p.id] && s2.cache == s1.cache))
  {
    var p := PopNext(s).0.value;
    var s1 := PopNext(s).1;
    PopTaskMeaning(s);
    PopFromMeaning(s.tasks, s.queue);
    PushAllMeaning(s1.queue, poll.wakes);
  }

  /** The run loop keeps the invariant as long as every wake names a
      spawned task. */
  lemma {:induction false} RunReadyKeepsValid(s: TaskState, next: TaskId, polls: seq<PollResult>)
    requires Valid(s, next)
    requires forall i, j :: 0 <= i < |polls| && 0 <= j < |polls[i].wakes| ==> polls[i].wakes[j].taskId < next
    ensures RunReady(s, polls).Returns? ==> Valid(RunReady(s, polls).value, next)
    decreases |polls|
  {
    if polls != [] {
      var (p, s1) := PopNext(s);
      PopTaskMeaning(s);
      if p.Some? {
        TurnKeepsValid(s, next, polls[0]);
        if Finish(s1, p.value, polls[0]).Returns? {
          RunReadyKeepsValid(Finish(s1, p.value, polls[0]).value, next, polls[1..]);
        }
      } else {
        PopFromMeaning(s.tasks, s.queue);
      }
    }
  }

  /** `Executor::spawn` of a task with the counter at `next`: insert the
      task under its id (a duplicate panics), then push the id. */
  function SpawnTask(s: TaskState, next: TaskId, future: nat): Run<TaskState>
  {
    if next in s.tasks then Panics(DUPLICATE_ID)
    else if |s.queue| >= CAPACITY then Panics(QUEUE_FULL)
    else Returns(TaskState(s.tasks[next := Task(next, future)], s.queue + [next], s.cache))
  }

  /** While the counter has not wrapped, spawning never meets a duplicate
      id: it panics only on a full queue, and otherwise files the new task
      under its id, queues it last and keeps the invariant for the advanced
      counter. */
  lemma {:induction false} SpawnFresh(s: TaskState, next: TaskId, future: nat)
    requires Valid(s, next) && next + 1 < U64_LIMIT
    ensures SpawnTask(s, next, future).Panics? <==> |s.queue| == CAPACITY
    ensures SpawnTask(s, next, future).Returns? ==>
      var s' := SpawnTask(s, next, future).value;
      && Valid(s', NextId(next))
      && s'.tasks.Keys == s.tasks.Keys + {next} && s'.queue == s.queue + [next]
  {
  }

  /** `Executor` of `kernel/src/task/executor.rs`. */
  class Executor {
    var tasks: map<TaskId, Task>
    var queue: seq<TaskId>
    var wakerCache: map<TaskId, Waker>

    function State(): TaskState
      reads this
    {
      TaskState(tasks, queue, wakerCache)
    }

    /** `Executor::new`. */
    constructor ()
      ensures tasks == map[] && queue == [] && wakerCache == map[]
    {
      tasks := map[];
      queue := [];
      wakerCache := map[];
    }

    /** `ArrayQueue::push(..).expect(msg)`. */
    method Push(id: TaskId, msg: string) returns (r: Run<()>)
      modifies this
      ensures tasks == old(tasks) && wakerCache == old(wakerCache)
      ensures |old(queue)| >= CAPACITY ==> r == Panics(msg) && queue == old(queue)
      ensures |old(queue)| < CAPACITY ==> r == Returns(()) && queue == old(queue) + [id]
    {
      if |queue| >= CAPACITY {
        return Panics(msg);
      }
      queue := queue + [id];
      return Returns(());
    }

    /** `spawn`. */
    method Spawn(ids: IdCounter, future: nat) returns (r: Run<()>)
      modifies this, ids
      ensures ids.next == NextId(old(ids.next))
      ensures Outcome(r, State()) == SpawnTask(old(State()), old(ids.next), future)
    {
      var id := ids.NewId();
      if id in tasks {
        return Panics(DUPLICATE_ID);
      }
      tasks := tasks[id := Task(id, future)];
      r := Push(id, QUEUE_FULL);
    }

    /** `TaskWaker::wake_task`, through `wake` or `wake_by_ref`. */
    method Wake(w: Waker) returns (r: Run<()>)
      modifies this
      ensures Outcome(r, queue) == PushAll(old(queue), [w])
      ensures tasks == old(tasks) && wakerCache == old(wakerCache)
    {
      r := Push(w.taskId, TASK_QUEUE_FULL);
    }

    /** `pop_task`. */
    method PopTask() returns (r: Option<Popped>)
      modifies this
      ensures (r, State()) == PopNext(old(State()))
    {
      var found: Option<TaskId> := None;
      while found.None? && queue != []
        invariant tasks == old(tasks) && wakerCache == old(wakerCache)
        invariant found.None? ==> PopFrom(tasks, queue) == PopFrom(tasks, old(queue))
        invariant found.Some? ==> (found, queue) == PopFrom(tasks, old(queue))
        decreases |queue|, found.None?
      {
        var id := queue[0];
        queue := queue[1..];
        if id in tasks {
          found := Some(id);
        }
      }
      if found.None? {
        return None;
      }
      var id := found.value;
      if id !in wakerCache {
        wakerCache := wakerCache[id := Waker(id)];
      }
      var waker := wakerCache[id];
      assert wakerCache == old(wakerCache)[id := waker];
      var task := tasks[id];
      tasks := tasks - {id};
      return Some(Popped(id, task, waker));
    }

    /** `run_ready_tasks`, with the outcome of the `i`-th poll given as
        `polls[i]` and at most `|polls|` turns. */
    method RunReadyTasks(polls: seq<PollResult>) returns (r: Run<()>)
      modifies this
      ensures Outcome(r, State()) == RunReady(old(State()), polls)
    {
      var i := 0;
      while i < |polls|
        invariant i <= |polls|
        invariant RunReady(State(), polls[i..]) == RunReady(old(State()), polls)
        decreases |polls| - i
      {
        var popped := PopTask();
        if popped.None? {
          return Returns(());
        }
        var p := popped.value;
        var poll := polls[i];
        ghost var afterPop := State();
        var w := 0;
        while w < |poll.wakes|
          invariant w <= |poll.wakes|
          invariant tasks == afterPop.tasks && wakerCache == afterPop.cache
          invariant PushAll(queue, poll.wakes[w..]) == PushAll(afterPop.queue, poll.wakes)
          decreases |poll.wakes| - w
        {
          var woken := Wake(poll.wakes[w]);
          if woken.Panics? {
            return woken;
          }
          assert poll.wakes[w..] == [poll.wakes[w]] + poll.wakes[w + 1..];
          w := w + 1;
        }
        if poll.ready {
          tasks := tasks - {p.id};
          wakerCache := wakerCache - {p.id};
        } else {
          tasks := tasks[p.id := p.task];
        }
        assert polls[i..][1..] == polls[i + 1..];
        i := i + 1;
      }
      return Returns(());
    }

    /** `sleep_if_idle`: the core halts until the next interrupt exactly
        when no task id is queued. */
    method SleepIfIdle() returns (halts: bool)
      ensures halts <==> queue == []
    {
      halts := queue == [];
    }
  }
}
