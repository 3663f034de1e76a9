/**
 The sections of `emu/dis.c` under the scheduler's spin lock, on its linked queues: each does to the
 scheduler what its step does to the abstract state.
 */
module VmSched {
  import opened Sequences
  import opened Procs
  import opened VmToken

  class Isched {
    var idle: bool
    var creating: bool
    var vmq: Option<Proc>
    var vmqt: Option<Proc>
    var idlevmq: Option<Proc>
    var qnext: Links
    ghost var s: State

    /** The queues hang together as the state says. The tail of an empty queue may be stale. */
    ghost predicate Valid()
      reads this
    {
      && Inv(s) && idle == s.idle && creating == s.creating
      && Queue(qnext, vmq, s.vmq) && (s.vmq != [] ==> vmqt == Some(s.vmq[|s.vmq| - 1]))
      && Queue(qnext, idlevmq, s.idlevmq)
    }

    /** What `disinit` leaves. */
    constructor (first: Proc)
      ensures Valid() && s == Initial(first)
    {
      idle, creating, vmq, vmqt, idlevmq, qnext := true, false, None, None, None, map[];
      s := Initial(first);
      new;
      InitialInv(first);
    }

    /** No proc is on both queues. */
    lemma QueuesApart(p: Proc)
      requires Valid()
      ensures At(s, p) in {Out, Hold, Starting} ==> p !in s.vmq && p !in s.idlevmq
      ensures p in s.vmq ==> p !in s.idlevmq
    {
      assert Settled(s, p);
    }

    static lemma Unrepeated(s: State)
      requires Inv(s)
      ensures NoDup(s.vmq) && NoDup(s.idlevmq)
    {}

    /** `acquire`: whether `up` must wait, and then whether it is to wake the sleeper first. */
    method Acquire(up: Proc) returns (waits: bool, empty: bool)
      requires Valid() && At(s, up) == Out
      modifies this
      ensures Valid() && s == Next(old(s), VmToken.Acquire(up))
      ensures waits <==> !old(s).idle
      ensures waits ==> At(s, up) == if empty then Waking else Queued
    {
      hide Inv;
      QueuesApart(up);
      NextInv(s, VmToken.Acquire(up));
      waits, empty := !idle, false;
      if idle {
        idle := false;
      } else {
        empty := Append(up);
      }
      s := Next(s, VmToken.Acquire(up));
    }

    /** Puts a proc at the end of the queue for the machine, and says whether that was empty. */
    method Append(up: Proc) returns (empty: bool)
      requires Valid() && up !in s.vmq && up !in s.idlevmq
      modifies this`qnext, this`vmq, this`vmqt
      ensures Queue(qnext, vmq, s.vmq + [up]) && vmqt == Some(up) && (empty <==> s.vmq == [])
      ensures Queue(qnext, idlevmq, s.idlevmq)
    {
      hide Inv;
      Unrepeated(s);
      QueueFrame(qnext, vmq, s.vmq, up, None);
      QueueFrame(qnext, idlevmq, s.idlevmq, up, None);
      qnext := qnext[up := None];
      empty := vmq == None;
      if empty {
        vmq := Some(up);
        assert s.vmq + [up] == [up] && Queue(qnext, None, []);
      } else {
        QueueAppend(qnext, vmq, s.vmq, up);
        assert qnext[up := None] == qnext;
        QueuesApart(vmqt.value);
        QueueFrame(qnext, idlevmq, s.idlevmq, vmqt.value, Some(up));
        qnext := qnext[vmqt.value := Some(up)];
      }
      vmqt := Some(up);
    }

    /** `release`: the proc to hand the machine to, or whether to create a thread. */
    method Release(up: Proc) returns (to: Option<Proc>, create: bool)
      requires Valid() && At(s, up) == Hold
      modifies this
      ensures Valid() && s == Next(old(s), VmToken.Release(up))
      ensures to == Target(At(s, up)) && (create <==> At(s, up) == Spawning)
    {
      hide Inv;
      NextInv(s, VmToken.Release(up));
      to, create := None, false;
      if vmq != None {
        to := vmq;
        vmq := NextOf(qnext, vmq.value);
      } else if idlevmq != None {
        to := idlevmq;
        idlevmq := NextOf(qnext, idlevmq.value);
      } else {
        create := !creating;
        idle, creating := true, true;
      }
      s := Next(s, VmToken.Release(up));
    }

    /** `iyield`: the proc to hand the machine to, if any waits. */
    method Yield(up: Proc) returns (to: Option<Proc>)
      requires Valid() && At(s, up) == Hold
      modifies this
      ensures Valid() && s == Next(old(s), VmToken.Yield(up)) && to == Target(At(s, up))
    {
      hide Inv;
      NextInv(s, VmToken.Yield(up));
      QueuesApart(up);
      to := vmq;
      if to == None {
        return;
      }
      vmq := NextOf(qnext, to.value);
      Join(up);
      s := Next(s, VmToken.Yield(up));
    }

    /** `startup`: whether the thread goes to sleep on the idle queue. */
    method Startup(up: Proc) returns (sleeps: bool)
      requires Valid() && At(s, up) == Starting
      modifies this
      ensures Valid() && s == Next(old(s), VmToken.Start(up))
      ensures sleeps <==> At(s, up) == Idled
    {
      hide Inv;
      NextInv(s, VmToken.Start(up));
      QueuesApart(up);
      creating := false;
      sleeps := !idle;
      if idle {
        idle := false;
      } else {
        Join(up);
      }
      s := Next(s, VmToken.Start(up));
    }

    /** Puts a proc on the idle queue. */
    method Join(up: Proc)
      requires up !in s.vmq && up !in s.idlevmq && Queue(qnext, idlevmq, s.idlevmq)
      modifies this`qnext, this`idlevmq
      ensures Queue(qnext, idlevmq, [up] + s.idlevmq)
      ensures forall q :: up !in q && Queue(old(qnext), vmq, q) ==> Queue(qnext, vmq, q)
    {
      forall q | up !in q && Queue(qnext, vmq, q)
        ensures Queue(qnext[up := idlevmq], vmq, q)
      {
        QueueFrame(qnext, vmq, q, up, idlevmq);
      }
      QueueFrame(qnext, idlevmq, s.idlevmq, up, idlevmq);
      assert ([up] + s.idlevmq)[1..] == s.idlevmq;
      qnext := qnext[up := idlevmq];
      idlevmq := Some(up);
    }
  }
}
