/**
 * The round-robin scheduler: a run queue of entities and the one currently
 * running. Each entity carries a time slice whose length is ten ticks per
 * unit of its process id. Entities are held by value in the queue and in
 * the `current` slot, so a time slice is a value that `update_current`
 * replaces; the run queue is a class.
 */
module RoundRobin {
  import opened Common

  /** A task, by identity. */
  type TaskId = nat

  /** The reasons ostd gives `update_current`; only `Tick` counts time. */
  datatype UpdateFlags = Tick | Wait | Yield

  datatype TimeSlice = TimeSlice(tick: nat, maxTick: nat)

  datatype Entity = Entity(task: TaskId, slice: TimeSlice)

  /** `TimeSlice::new(max_tick)`: a slice that has not run yet. */
  function NewTimeSlice(maxTick: nat): (ts: TimeSlice)
    ensures ts.tick == 0 && ts.maxTick == maxTick
  {
    TimeSlice(0, maxTick)
  }

  /**
   * `elapse`: a slice of length 0 never expires and does not move. Otherwise
   * the tick advances modulo the length and the call reports whether it
   * wrapped to 0, that is, whether the slice expired.
   */
  function Elapse(ts: TimeSlice): (r: (TimeSlice, bool))
    ensures ts.maxTick == 0 ==> r == (ts, false)
    ensures ts.maxTick > 0 ==> r.0.maxTick == ts.maxTick && r.0.tick < ts.maxTick
    ensures ts.maxTick > 0 && ts.tick + 1 < ts.maxTick ==> r == (ts.(tick := ts.tick + 1), false)
    ensures ts.maxTick > 0 && ts.tick + 1 == ts.maxTick ==> r == (ts.(tick := 0), true)
    ensures ts.maxTick > 0 ==> (r.1 <==> r.0.tick == 0)
  {
    if ts.maxTick == 0 then (ts, false)
    else
      var tick := (ts.tick + 1) % ts.maxTick;
      (ts.(tick := tick), tick == 0)
  }

  /** `n` consecutive `elapse` calls: the slice they leave and how many of
      them reported expiry. */
  function Run(ts: TimeSlice, n: nat): (TimeSlice, nat)
    decreases n
  {
    if n == 0 then (ts, 0)
    else
      var (next, fired) := Elapse(ts);
      var (last, count) := Run(next, n - 1);
      (last, count + if fired then 1 else 0)
  }

  /** From tick `t` of a slice of length `m`, the next `m - t` calls report
      expiry exactly once, on the last of them, and leave the tick at 0. */
  lemma {:induction false} RunToWrap(ts: TimeSlice, k: nat)
    requires ts.maxTick > 0 && ts.tick < ts.maxTick && ts.tick + k == ts.maxTick
    ensures Run(ts, k) == (ts.(tick := 0), 1)
    decreases k
  {
    var (next, fired) := Elapse(ts);
    if k > 1 {
      RunToWrap(next, k - 1);
    }
  }

  /** A fresh slice of length `m > 0` expires exactly once in every `m` ticks. */
  lemma ExpiresOncePerPeriod(m: nat)
    requires m > 0
    ensures Run(NewTimeSlice(m), m) == (NewTimeSlice(m), 1)
  {
    RunToWrap(NewTimeSlice(m), m);
  }

  /** The slice length `enqueue` gives a task: ten ticks per unit of its
      process id, and a task that belongs to no process counts as pid 1. */
  function SliceLength(pid: Option<nat>): (n: nat)
    ensures pid.None? ==> n == 10
    ensures pid.Some? ==> n == pid.value * 10
  {
    (match pid case Some(p) => p case None => 1) * 10
  }

  /** All entities a run queue holds, running or waiting. */
  function Held(current: Option<Entity>, entities: seq<Entity>): multiset<Entity>
  {
    multiset(entities) + (if current.Some? then multiset{current.value} else multiset{})
  }

  /** `try_pick_next` on a non-empty queue loses and duplicates no entity:
      the picked one now runs and the one that ran waits at the back. */
  lemma PickKeepsHeld(current: Option<Entity>, entities: seq<Entity>)
    requires entities != []
    ensures Held(Some(entities[0]), entities[1..] + (if current.Some? then [current.value] else []))
         == Held(current, entities)
  {
    assert entities == [entities[0]] + entities[1..];
  }

  class RrRunQueue {
    var current: Option<Entity>
    var entities: seq<Entity>

    /** `RrRunQueue::default()`: nothing running, nothing waiting. */
    constructor ()
      ensures current == None && entities == []
    {
      current := None;
      entities := [];
    }

    /** `current`: the running task, if any. */
    function Current(): (t: Option<TaskId>)
      reads this
      ensures t.Some? <==> current.Some?
      ensures t.Some? ==> t.value == current.value.task
    {
      match current
      case None => None
      case Some(e) => Some(e.task)
    }

    /** `RrScheduler::enqueue`: the task joins the back of the queue with a
        fresh slice of `SliceLength(pid)` ticks. */
    method Enqueue(task: TaskId, pid: Option<nat>)
      modifies this
      ensures entities == old(entities) + [Entity(task, NewTimeSlice(SliceLength(pid)))]
      ensures current == old(current)
    {
      var p := match pid case Some(p) => p case None => 1;
      entities := entities + [Entity(task, NewTimeSlice(p * 10))];
    }

    /**
     * `update_current(flags)`: any flag but `Tick` asks for a reschedule.
     * A tick with nothing running does not; a tick with a task running
     * advances its slice and asks for a reschedule when the slice expires.
     */
    method UpdateCurrent(flags: UpdateFlags) returns (reschedule: bool)
      modifies this
      ensures entities == old(entities)
      ensures flags != Tick ==> reschedule && current == old(current)
      ensures flags == Tick && old(current).None? ==> !reschedule && current == None
      ensures flags == Tick && old(current).Some? ==>
        var (ts, expired) := Elapse(old(current).value.slice);
        current == Some(old(current).value.(slice := ts)) && reschedule == expired
    {
      match flags
      case Tick =>
        if current.None? {
          return false;
        }
        var entity := current.value;
        var (ts, expired) := Elapse(entity.slice);
        current := Some(entity.(slice := ts));
        reschedule := expired;
      case _ =>
        reschedule := true;
    }

    /** `dequeue_current`: take the running task out; the queue is untouched. */
    method DequeueCurrent() returns (t: Option<TaskId>)
      modifies this
      ensures t == old(Current())
      ensures current == None && entities == old(entities)
    {
      t := Current();
      current := None;
    }

    /**
     * `try_pick_next`: with an empty queue nothing changes and nothing is
     * picked. Otherwise the front entity becomes the running one, the one
     * that was running (if any) goes to the back, and the picked task is
     * returned; no entity is lost or duplicated.
     */
    method TryPickNext() returns (t: Option<TaskId>)
      modifies this
      ensures old(entities) == [] ==> t == None && current == old(current) && entities == []
      ensures old(entities) != [] ==>
        && current == Some(old(entities)[0])
        && entities == old(entities)[1..] + (if old(current).Some? then [old(current).value] else [])
        && t == Some(old(entities)[0].task)
    {
      if entities == [] {
        return None;
      }
      var next := entities[0];
      entities := entities[1..];
      var previous := current;
      current := Some(next);
      if previous.Some? {
        entities := entities + [previous.value];
      }
      t := Current();
    }
  }

  /**
   * Three tasks — pids 1 and 2, and a kernel task with no process — are
   * enqueued and picked in turn: each pick runs the front task and sends
   * the running one to the back of the queue.
   */
  method Rotation() returns (first: Option<TaskId>, second: Option<TaskId>, third: Option<TaskId>,
                             waiting: seq<TaskId>)
    ensures first == Some(100) && second == Some(200) && third == Some(300)
    ensures waiting == [100, 200]
  {
    var q := new RrRunQueue();
    q.Enqueue(100, Some(1));
    q.Enqueue(200, Some(2));
    q.Enqueue(300, None);
    var a, b, c := Entity(100, TimeSlice(0, 10)), Entity(200, TimeSlice(0, 20)), Entity(300, TimeSlice(0, 10));
    assert q.entities == [a, b, c] && q.current == None;
    first := q.TryPickNext();
    assert q.entities == [b, c] && q.current == Some(a);
    second := q.TryPickNext();
    assert q.entities == [c, a] && q.current == Some(b);
    third := q.TryPickNext();
    assert q.entities == [a, b];
    waiting := [q.entities[0].task, q.entities[1].task];
  }

  /**
   * A kernel task's 10-tick slice runs nine ticks without asking for a
   * reschedule and asks on the tenth; a yield asks at once.
   */
  method SliceExpiry() returns (early: bool, tenth: bool, yielded: bool)
    ensures !early && tenth && yielded
  {
    var q := new RrRunQueue();
    q.Enqueue(300, None);
    var picked := q.TryPickNext();
    early := false;
    var i := 0;
    while i < 9
      invariant 0 <= i <= 9
      invariant q.current == Some(Entity(300, TimeSlice(i, 10))) && !early
    {
      var r := q.UpdateCurrent(Tick);
      early := early || r;
      i := i + 1;
    }
    tenth := q.UpdateCurrent(Tick);
    yielded := q.UpdateCurrent(Yield);
  }
}
