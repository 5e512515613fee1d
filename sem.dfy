/**
 * The counting semaphore of the timer-and-scheduler kernel and its guard.
 * The count sits behind a spin lock; each operation below is one critical
 * section. A guard hands its unit back exactly once, when it is dropped.
 */
module Semaphores {
  import opened Common

  class Semaphore {
    var count: nat
    /** The guards handed out and not yet dropped; not a field of the source. */
    ghost var outstanding: int

    /** `Semaphore::new(count)`. */
    constructor (count: nat)
      ensures this.count == count && outstanding == 0
    {
      this.count := count;
      outstanding := 0;
    }

    /**
     * `try_acquire`: with a unit free it takes one and returns a guard over
     * this semaphore that has not released; with none free it returns
     * nothing and the count stays. Units free plus guards out is kept.
     */
    method TryAcquire() returns (g: Option<SemaphoreGuard>)
      modifies this
      ensures old(count) > 0 ==>
        && count == old(count) - 1
        && g.Some? && fresh(g.value) && g.value.sem == this && !g.value.released
      ensures old(count) == 0 ==> g == None && count == 0
      ensures count + outstanding == old(count + outstanding)
    {
      if count > 0 {
        count := count - 1;
        outstanding := outstanding + 1;
        var guard := new SemaphoreGuard(this);
        g := Some(guard);
      } else {
        g := None;
      }
    }

    /** `release`: one unit back. Waking a waiter is not modelled. */
    method Release()
      modifies this
      ensures count == old(count) + 1 && outstanding == old(outstanding)
    {
      count := count + 1;
    }
  }

  class SemaphoreGuard {
    const sem: Semaphore
    var released: bool

    constructor (sem: Semaphore)
      ensures this.sem == sem && !released
    {
      this.sem := sem;
      released := false;
    }

    /**
     * `drop`: the first drop releases the semaphore and marks the guard; a
     * guard already released changes nothing. Units free plus guards out
     * is kept.
     */
    method Drop()
      modifies this, sem
      ensures released
      ensures !old(released) ==> sem.count == old(sem.count) + 1
      ensures old(released) ==> sem.count == old(sem.count) && sem.outstanding == old(sem.outstanding)
      ensures !old(released) ==> sem.count + sem.outstanding == old(sem.count + sem.outstanding)
    {
      if !released {
        sem.Release();
        sem.outstanding := sem.outstanding - 1;
        released := true;
      }
    }
  }

  /**
   * On a semaphore of two units, two `try_acquire` calls succeed and a third
   * fails; once the first guard is dropped a fourth succeeds, leaving no
   * unit free.
   */
  method Basic() returns (first: bool, second: bool, third: bool, fourth: bool, countAfter: nat)
    ensures first && second && !third && fourth
    ensures countAfter == 0
  {
    var sem := new Semaphore(2);
    var g1 := sem.TryAcquire();
    var g2 := sem.TryAcquire();
    var g3 := sem.TryAcquire();
    first, second, third := g1.Some?, g2.Some?, g3.Some?;
    g1.value.Drop();
    var g4 := sem.TryAcquire();
    fourth := g4.Some?;
    countAfter := sem.count;
  }
}
