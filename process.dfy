/**
 * The process tree of the demand-paging kernel, by pid: the global process
 * table, each process's children, each child's parent and the exit code of
 * every process that has exited (a zombie). `try_wait` reaps a zombie
 * child, `reparent_children_to_init` hands an exiting process's children to
 * init, and pids come from a counter that starts at 1.
 */
module Processes {
  import opened Common

  type Pid = nat

  const INIT_PROCESS_ID: Pid := 1

  /** The smallest element of a non-empty set of pids: the first key a
      `BTreeMap` yields. */
  ghost function SetMin(s: set<Pid>): (m: Pid)
    requires s != {}
    ensures m in s && forall x :: x in s ==> m <= x
  {
    var x :| x in s;
    assert forall y :: y in s ==> y == x || y in s - {x};
    if s == {x} then x
    else
      var m := SetMin(s - {x});
      if x <= m then x else m
  }

  /** `wait`'s argument: -1 waits for any child, any other `p` for child
      `|p|`. */
  function WaitTarget(waitPid: int): (t: Option<Pid>)
    requires -0x8000_0000 < waitPid < 0x8000_0000
    ensures waitPid == -1 <==> t.None?
    ensures t.Some? ==> t.value == (if waitPid < 0 then -waitPid else waitPid)
  {
    if waitPid == -1 then None
    else if waitPid < 0 then Some(-waitPid)
    else Some(waitPid)
  }

  /** What `wait` does: report a reaped child, fail, or block until a
      child exits. */
  datatype WaitOutcome = Reaped(pid: Pid, exitCode: nat) | Failed(errno: Errno) | Blocks

  class ProcessTree {
    /** The keys of `PROCESS_TABLE`. */
    var table: set<Pid>
    var children: map<Pid, set<Pid>>
    var parent: map<Pid, Pid>
    /** The processes that have exited, with their exit codes. */
    var exitCode: map<Pid, nat>
    /** `NEXT_PID`. */
    var nextPid: Pid

    /** No process yet; the first pid is 1. */
    constructor ()
      ensures table == {} && children == map[] && parent == map[] && exitCode == map[]
      ensures nextPid == 1
    {
      table := {};
      children := map[];
      parent := map[];
      exitCode := map[];
      nextPid := 1;
    }

    /** `alloc_pid`: the counter's value, and the counter moves on, so pids
        are handed out as 1, 2, 3, … */
    method AllocPid() returns (pid: Pid)
      modifies this
      ensures pid == old(nextPid) && nextPid == pid + 1
      ensures table == old(table) && children == old(children)
      ensures parent == old(parent) && exitCode == old(exitCode)
    {
      pid := nextPid;
      nextPid := nextPid + 1;
    }

    /**
     * `try_wait(pid)` of process `self`: ECHILD when it has no children or
     * the named pid is not one of them. A named child that has exited is
     * reaped; with no name the smallest-pid exited child is. Reaping removes
     * the child from the children and from the process table and returns
     * its pid and exit code. With nothing to reap the result is EAGAIN and
     * nothing changes.
     */
    method TryWait(self: Pid, wanted: Option<Pid>) returns (r: Result<(Pid, nat)>)
      requires self in children
      modifies this
      ensures nextPid == old(nextPid) && parent == old(parent) && exitCode == old(exitCode)
      ensures old(children[self]) == {} ==> r == Err(ECHILD)
      ensures wanted.Some? && wanted.value !in old(children[self]) ==> r == Err(ECHILD)
      ensures r.Err? ==> table == old(table) && children == old(children)
      ensures r.Err? ==> r.errno in {ECHILD, EAGAIN}
      ensures r.Ok? ==>
        && r.value.0 in old(children[self]) && r.value.0 in exitCode
        && r.value.1 == exitCode[r.value.0]
        && children == old(children)[self := old(children[self]) - {r.value.0}]
        && table == old(table) - {r.value.0}
      ensures wanted.Some? && r.Ok? ==> r.value.0 == wanted.value
      ensures wanted.None? && r.Ok? ==>
        forall p :: p in old(children[self]) && p in exitCode ==> r.value.0 <= p
      ensures r == Err(EAGAIN) ==>
        (wanted.Some? ==> wanted.value in old(children[self]) && wanted.value !in exitCode)
        && (wanted.None? ==> forall p :: p in old(children[self]) ==> p !in exitCode)
      ensures old(children[self]) != {} && r == Err(ECHILD) ==> wanted.Some? && wanted.value !in old(children[self])
    {
      var kids := children[self];
      if kids == {} {
        return Err(ECHILD);
      }
      var waitPid: Option<Pid> := None;
      if wanted.Some? {
        if wanted.value in kids {
          if wanted.value in exitCode {
            waitPid := wanted;
          }
        } else {
          return Err(ECHILD);
        }
      } else {
        // the children in ascending pid order, stopping at the first zombie
        var rest, seen := kids, {};
        while rest != {} && waitPid.None?
          invariant seen + rest == kids && seen !! rest
          invariant forall p, q :: p in seen && q in rest ==> p < q
          invariant waitPid.None? ==> forall p :: p in seen ==> p !in exitCode
          invariant waitPid.Some? ==>
            (waitPid.value in kids && waitPid.value in exitCode
             && forall p :: p in kids && p in exitCode ==> waitPid.value <= p)
          decreases rest
        {
          ghost var least := SetMin(rest);
          var childPid :| childPid in rest && forall q :: q in rest ==> childPid <= q;
          if childPid in exitCode {
            waitPid := Some(childPid);
          }
          rest, seen := rest - {childPid}, seen + {childPid};
        }
      }
      if waitPid.Some? {
        var pid := waitPid.value;
        children := children[self := kids - {pid}];
        table := table - {pid};
        return Ok((pid, exitCode[pid]));
      }
      r := Err(EAGAIN);
    }

    /**
     * `wait(waitPid)` up to the point where it would block: the result of
     * `try_wait` on the normalised target, except that EAGAIN means the
     * caller sleeps until a child exits.
     */
    method Wait(self: Pid, waitPid: int) returns (o: WaitOutcome)
      requires self in children
      requires -0x8000_0000 < waitPid < 0x8000_0000
      modifies this
      ensures nextPid == old(nextPid) && parent == old(parent) && exitCode == old(exitCode)
      ensures o.Reaped? ==>
        && o.pid in old(children[self]) && o.pid in exitCode && o.exitCode == exitCode[o.pid]
        && children == old(children)[self := old(children[self]) - {o.pid}]
        && table == old(table) - {o.pid}
      ensures waitPid != -1 && o.Reaped? ==> o.pid == (if waitPid < 0 then -waitPid else waitPid)
      ensures !o.Reaped? ==> table == old(table) && children == old(children)
      ensures o.Failed? ==> o.errno == ECHILD
      ensures o.Failed? ==> old(children[self]) == {} || (waitPid != -1 && WaitTarget(waitPid).value !in old(children[self]))
      ensures old(children[self]) == {} ==> o == Failed(ECHILD)
      ensures waitPid != -1 && WaitTarget(waitPid).value !in old(children[self]) ==> o == Failed(ECHILD)
      ensures o == Blocks ==>
        && (waitPid == -1 ==> forall p :: p in old(children[self]) ==> p !in exitCode)
        && (waitPid != -1 ==> WaitTarget(waitPid).value in old(children[self]) && WaitTarget(waitPid).value !in exitCode)
    {
      var r := TryWait(self, WaitTarget(waitPid));
      match r
      case Ok((pid, code)) => o := Reaped(pid, code);
      case Err(e) => o := if e == EAGAIN then Blocks else Failed(e);
    }

    /**
     * `reparent_children_to_init` of process `self`: nothing happens for
     * init itself or a process without children. Otherwise every child
     * moves, in pid order, into init's children and takes init as its
     * parent, leaving `self` with no children. Init must be in the table.
     */
    method ReparentChildrenToInit(self: Pid)
      requires self in children
      requires self != INIT_PROCESS_ID && children[self] != {} ==>
        INIT_PROCESS_ID in table && INIT_PROCESS_ID in children
      modifies this
      ensures table == old(table) && exitCode == old(exitCode) && nextPid == old(nextPid)
      ensures self == INIT_PROCESS_ID || old(children[self]) == {} ==>
        children == old(children) && parent == old(parent)
      ensures self != INIT_PROCESS_ID && old(children[self]) != {} ==>
        && children.Keys == old(children).Keys
        && children[self] == {}
        && children[INIT_PROCESS_ID] == old(children[INIT_PROCESS_ID]) + old(children[self])
        && (forall p :: p in children && p != self && p != INIT_PROCESS_ID ==> children[p] == old(children)[p])
        && parent.Keys == old(parent).Keys + old(children[self])
        && (forall c :: c in old(children[self]) ==> parent[c] == INIT_PROCESS_ID)
        && (forall c :: c in old(parent) && c !in old(children[self]) ==> parent[c] == old(parent)[c])
    {
      if self == INIT_PROCESS_ID || children[self] == {} {
        return;
      }
      var mine, adopted, parents := children[self], children[INIT_PROCESS_ID], parent;
      while mine != {}
        invariant mine <= old(children[self])
        invariant adopted == old(children[INIT_PROCESS_ID]) + (old(children[self]) - mine)
        invariant parents.Keys == old(parent).Keys + (old(children[self]) - mine)
        invariant forall c :: c in old(children[self]) - mine ==> parents[c] == INIT_PROCESS_ID
        invariant forall c :: c in old(parent) && c !in old(children[self]) - mine ==> parents[c] == old(parent)[c]
        decreases mine
      {
        ghost var least := SetMin(mine);
        var pid :| pid in mine && forall q :: q in mine ==> pid <= q;
        mine := mine - {pid};
        parents := parents[pid := INIT_PROCESS_ID];
        adopted := adopted + {pid};
      }
      children := children[self := {}][INIT_PROCESS_ID := adopted];
      parent := parents;
    }
  }

  /** Pids are handed out from 1 upwards, one at a time. */
  method FirstPids() returns (a: Pid, b: Pid, c: Pid)
    ensures a == 1 && b == 2 && c == 3
  {
    var t := new ProcessTree();
    a := t.AllocPid();
    b := t.AllocPid();
    c := t.AllocPid();
  }

  /**
   * Init adopts the children of an exiting process: init (pid 1) has child
   * 2, which has children 3 and 4; 4 has exited with code 7. After 2
   * reparents its children, init waits for any child and reaps 4, then a
   * second wait finds 3 still running and would block, and a wait for a
   * pid that is not a child fails with ECHILD.
   */
  method Adoption() returns (first: WaitOutcome, second: WaitOutcome, stray: WaitOutcome)
    ensures first == Reaped(4, 7) && second == Blocks && stray == Failed(ECHILD)
  {
    var t := new ProcessTree();
    t.table := {1, 2, 3, 4};
    t.children := map[1 := {2}, 2 := {3, 4}, 3 := {}, 4 := {}];
    t.parent := map[2 := 1, 3 := 2, 4 := 2];
    t.exitCode := map[4 := 7];
    t.ReparentChildrenToInit(2);
    assert t.children[1] == {2, 3, 4} && t.exitCode == map[4 := 7];
    first := t.Wait(1, -1);
    assert 4 in t.exitCode;
    assert t.children[1] == {2, 3};
    second := t.Wait(1, -1);
    assert t.children[1] == {2, 3};
    stray := t.Wait(1, 9);
  }
}
