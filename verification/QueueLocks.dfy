/**
 The locks of `emu/lock.c`: queue locks, which hand over first come, first served, and the reader/writer
 lock built of two of them.
 */
module QueueLocks {
  import opened Sequences
  import opened Procs

  /** What a queue lock means: whether it is held, and who waits, in order. */
  datatype Lock = Lock(locked: bool, queue: seq<Proc>)

  /** `qlock`: take the lock, or queue. */
  function Enter(k: Lock, p: Proc): Lock {
    if k.locked then k.(queue := k.queue + [p]) else k.(locked := true)
  }

  /** `qunlock`: hand over to the first in the queue, or free the lock. */
  function Leave(k: Lock): Lock {
    if k.queue != [] then k.(queue := k.queue[1..]) else k.(locked := false)
  }

  /** Whom `qunlock` hands the lock to. */
  function Heir(k: Lock): Option<Proc> {
    if k.queue != [] then Some(k.queue[0]) else None
  }

  /** A queue lock; the sections under its spin lock are its methods. */
  class QLock {
    var locked: bool
    var head: Option<Proc>
    var tail: Option<Proc>
    ghost var queue: seq<Proc>

    ghost predicate Valid(qnext: Links)
      reads this
    {
      && NoDup(queue) && Queue(qnext, head, queue) && (queue != [] ==> locked)
      && tail == if queue == [] then None else Some(queue[|queue| - 1])
    }

    ghost function Abs(): Lock
      reads this
    {
      Lock(locked, queue)
    }

    constructor ()
      ensures forall qnext :: Valid(qnext)
      ensures Abs() == Lock(false, [])
    {
      locked, head, tail, queue := false, None, None, [];
    }

    /** `qlock`: whether `up` has the lock at once; otherwise it goes to its rendezvous. */
    method Qlock(up: Proc, qnext: Links) returns (got: bool, links: Links)
      requires Valid(qnext) && up !in queue
      modifies this
      ensures Valid(links) && Abs() == Enter(old(Abs()), up) && (got <==> !old(locked))
      ensures forall p :: p != up && p !in old(queue) ==> NextOf(links, p) == NextOf(qnext, p)
    {
      links := qnext;
      if !locked {
        locked := true;
        return true, links;
      }
      var p := tail;
      if p == None {
        head := Some(up);
      } else {
        links := links[p.value := Some(up)];
        QueueAppend(qnext, head, queue, up);
      }
      tail := Some(up);
      assert p.Some? ==> p.value != up && qnext[up := None][p.value := Some(up)] == links[up := None];
      links := links[up := None];
      InMore(queue, up, up);
      queue := queue + [up];
      got := false;
    }

    /** `canqlock` once it has the spin lock. */
    method CanQlock(ghost qnext: Links) returns (got: bool)
      requires Valid(qnext)
      modifies this
      ensures Valid(qnext)
      ensures got <==> !old(locked)
      ensures Abs() == if got then Enter(old(Abs()), 0) else old(Abs())
    {
      if locked {
        return false;
      }
      locked := true;
      got := true;
    }

    /** `qunlock`: the proc that now has the lock and is to be met at its rendezvous, if any. */
    method Qunlock(qnext: Links) returns (p: Option<Proc>)
      requires Valid(qnext)
      modifies this
      ensures Valid(qnext) && Abs() == Leave(old(Abs())) && p == Heir(old(Abs()))
      ensures p.Some? ==> locked
    {
      p := head;
      if p.Some? {
        head := NextOf(qnext, p.value);
        InTail(queue, p.value);
        queue := queue[1..];
        if head == None {
          tail := None;
        }
        return;
      }
      locked := false;
    }
  }
}
