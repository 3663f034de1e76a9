/**
 How long a proc waits for the Dis virtual machine: what `acquire`, `release`, `iyield` and `startup` of
 `emu/dis.c` do to the procs that wait, and that every one of them gets the machine.
 */
module VmWaiting {
  import opened Sequences
  import opened Procs
  import opened VmToken

  /** The holder leaves the machine, or offers it, while procs wait in the queue. */
  predicate Hands(s: State, e: Step) {
    (e.Release? || e.Yield?) && Enabled(s, e) && s.vmq != []
  }

  /** Then the first of them is served, whatever idle threads there are. */
  lemma HandsOver(s: State, e: Step)
    requires Inv(s) && Hands(s, e)
    ensures var t := Next(s, e);
            && t.served == s.served + [s.vmq[0]] && t.vmq == s.vmq[1..] && t.arrived == s.arrived
            && Receiver(t) == Some(s.vmq[0])
  {
    assert Settled(s, e.p);
  }

  /** No other step serves anyone, or takes anyone's place in the queue. */
  lemma OthersKeep(s: State, e: Step)
    requires Inv(s) && !Hands(s, e)
    ensures var t := Next(s, e);
            t.served == s.served && |s.vmq| <= |t.vmq| && t.vmq[..|s.vmq|] == s.vmq && s.arrived <= t.arrived
  {}

  /** Who comes to receive the machine while procs wait is the first of them. */
  lemma ReceiverWaited(s: State, e: Step)
    requires Inv(s) && s.vmq != []
    ensures var r := Receiver(Next(s, e));
            r == None || r == Receiver(s) || (Hands(s, e) && r == Some(s.vmq[0]))
  {
    if Hands(s, e) {
      HandsOver(s, e);
    } else if Enabled(s, e) && s.holder.Some? {
      var h := s.holder.value;
      assert Settled(s, h);
      ReceiverKept(s, e, h);
    }
  }

  lemma ReceiverKept(s: State, e: Step, h: Proc)
    requires Inv(s) && s.vmq != [] && !Hands(s, e) && Enabled(s, e) && s.holder == Some(h)
    ensures var r := Receiver(Next(s, e)); r == None || r == Receiver(s)
  {
    match e
    case Meet(p) =>
      assert Settled(s, p) && Settled(s, Target(At(s, p)).value);
    case Wake(p) =>
      assert Settled(s, p) && (s.irend.Some? ==> Settled(s, s.irend.value));
    case Spawn(p, q) =>
      assert Settled(s, p) && Settled(s, q);
    case Acquire(p) =>
      assert Settled(s, p);
    case Start(p) =>
      assert Settled(s, p);
    case Rest(p) =>
      assert Settled(s, p);
    case Release(p) =>
    case Yield(p) =>
  }

  /** How often in a run the machine was handed on while procs waited. */
  function Handed(s: State, es: seq<Step>): nat {
    if es == [] then 0
    else
      var front := es[..|es| - 1];
      Handed(s, front) + if Hands(Run(s, front), es[|es| - 1]) then 1 else 0
  }

  /** Bounded waiting: while the machine is handed on n times, the first n of the queue are served, in order,
      and no one else; whoever is at place k moves up to place k - n, and is served the (k+1)-th time. */
  lemma {:induction false} ServedAfter(s: State, es: seq<Step>, k: nat)
    requires Inv(s) && k < |s.vmq|
    ensures var t, n := Run(s, es), Handed(s, es);
            && (n <= k ==> t.served == s.served + s.vmq[..n] && k - n < |t.vmq| && t.vmq[k - n] == s.vmq[k])
            && (n > k ==> s.served + s.vmq[..k + 1] <= t.served)
  {
    hide Inv, Hands, Next;
    if es != [] {
      var front, e := es[..|es| - 1], es[|es| - 1];
      var r, n := Run(s, front), Handed(s, front);
      ServedAfter(s, front, k);
      RunKeeps(s, front);
      if Hands(r, e) {
        HandsOver(r, e);
        if n <= k {
          ServedAfter(s, front, n);
          assert s.vmq[..n + 1] == s.vmq[..n] + [s.vmq[n]];
        }
      } else {
        OthersKeep(r, e);
        assert n <= k ==> Next(r, e).vmq[..|r.vmq|][k - n] == r.vmq[k - n];
      }
    }
  }

  /** In between nobody else is handed the machine: until whoever is at place k is served, a receiver is the one
      whose turn it is. */
  lemma NobodyBetween(s: State, es: seq<Step>, e: Step, k: nat)
    requires Inv(s) && k < |s.vmq| && Handed(s, es) <= k
    ensures var n, t := Handed(s, es), Run(s, es);
            var r := Receiver(Next(t, e));
            r == None || r == Receiver(t) || (Hands(t, e) && r == Some(s.vmq[n]))
  {
    hide Inv, Hands, Next;
    ServedAfter(s, es, k);
    ServedAfter(s, es, Handed(s, es));
    RunKeeps(s, es);
    ReceiverWaited(Run(s, es), e);
  }

  lemma {:induction false} RunKeeps(s: State, es: seq<Step>)
    requires Inv(s)
    ensures Inv(Run(s, es))
  {
    hide Inv, Next;
    if es != [] {
      RunKeeps(s, es[..|es| - 1]);
      NextInv(Run(s, es[..|es| - 1]), es[|es| - 1]);
    }
  }

  // ---- the other branches ----

  /** An idle machine is taken at once; otherwise the proc joins the end of the queue, and is the one to wake
      the sleeper just if it was empty. */
  lemma AcquireTakes(s: State, p: Proc)
    requires Inv(s) && At(s, p) == Out
    ensures var t := Next(s, Acquire(p));
            && (s.idle ==> !t.idle && At(t, p) == Hold && t.vmq == s.vmq && t.arrived == s.arrived)
            && (!s.idle ==> t.vmq == s.vmq + [p] && t.arrived == s.arrived + [p])
            && (!s.idle ==> At(t, p) == if s.vmq == [] then Waking else Queued)
  {}

  /** When no proc waits, an idle thread gets the machine, the last to come first; without one the machine is
      idle, and a thread is created unless one is being created already. */
  lemma ReleaseToIdle(s: State, p: Proc)
    requires Inv(s) && At(s, p) == Hold && s.vmq == []
    ensures var t := Next(s, Release(p));
            && t.vmq == [] && t.served == s.served
            && (s.idlevmq != [] ==>
                  Receiver(t) == Some(s.idlevmq[0]) && t.idlevmq == s.idlevmq[1..] && !t.idle
                  && t.creating == s.creating)
            && (s.idlevmq == [] ==> t.idle && t.creating && Receiver(t) == None && t.idlevmq == [])
            && (At(t, p) == Spawning <==> s.idlevmq == [] && !s.creating)
  {
    assert Settled(s, p);
  }

  /** A proc that yields goes to the front of the idle queue, if anyone waits; else it keeps the machine. */
  lemma YieldGivesWay(s: State, p: Proc)
    requires Inv(s) && At(s, p) == Hold
    ensures var t := Next(s, Yield(p));
            if s.vmq == [] then t == s else t.idlevmq == [p] + s.idlevmq && OnIdle(At(t, p)) && !t.idle
  {
    assert Settled(s, p);
  }

  /** A new thread takes an idle machine; otherwise it goes to the front of the idle queue. */
  lemma StartTakes(s: State, p: Proc)
    requires Inv(s) && At(s, p) == Starting
    ensures var t := Next(s, Start(p));
            && !t.creating
            && if s.idle then !t.idle && At(t, p) == Hold && t.idlevmq == s.idlevmq
               else t.idlevmq == [p] + s.idlevmq && At(t, p) == Idled && !t.idle
  {}

  // ---- everyone gets the machine ----

  /** No proc waits for an idle machine. */
  predicate Busy(s: State) { s.idle ==> s.vmq == [] }

  lemma NextBusy(s: State, e: Step)
    requires Busy(s)
    ensures Busy(Next(s, e))
  {}

  lemma {:induction false} RunBusy(first: Proc, es: seq<Step>)
    ensures Busy(Run(Initial(first), es))
  {
    hide Next, Busy;
    if es != [] {
      RunBusy(first, es[..|es| - 1]);
      NextBusy(Run(Initial(first), es[..|es| - 1]), es[|es| - 1]);
    } else {
      InitialBusy(first);
    }
  }

  lemma InitialBusy(first: Proc)
    ensures Busy(Initial(first))
  {}

  lemma {:induction false} RunCons(s: State, e: Step, es: seq<Step>)
    ensures Run(s, [e] + es) == Run(Next(s, e), es)
  {
    hide Next;
    if es == [] {
      assert [e] + es == [e] && Run(s, [e]) == Next(Run(s, []), e);
    } else {
      var front := es[..|es| - 1];
      RunCons(s, e, front);
      assert ([e] + es)[..|es|] == [e] + front;
    }
  }

  /** p waits in the queue at place k - 1, or with k zero is being handed the machine. */
  predicate AtPlace(s: State, p: Proc, k: nat) {
    if k == 0 then Receiver(s) == Some(p) else k <= |s.vmq| && s.vmq[k - 1] == p
  }

  /** How far the holder is from being able to hand the machine on. */
  function Distance(s: State): nat {
    match s.holder
    case None => 0
    case Some(h) =>
      if At(s, h) == Hold then 0
      else if At(s, h) == Asleep then 1
      else if Target(At(s, h)).Some? && At(s, Target(At(s, h)).value) == Waking then 3
      else 2
  }

  /** The next step on the way. */
  lemma NextOnWay(s: State, p: Proc, k: nat) returns (e: Step)
    requires Inv(s) && Busy(s) && AtPlace(s, p, k)
    ensures var t := Next(s, e);
            || At(t, p) == Hold
            || (k > 0 && AtPlace(t, p, k - 1))
            || (AtPlace(t, p, k) && Distance(t) < Distance(s))
  {
    var h := s.holder.value;
    assert Settled(s, h);
    if At(s, h) == Hold {
      e := Release(h);
      HandsOver(s, e);
    } else if At(s, h) == Asleep {
      var q: Proc :| q in s.places && At(s, q) == Waking;
      assert Settled(s, q);
      e := Wake(q);
    } else {
      var q := Target(At(s, h)).value;
      assert Settled(s, q);
      e := if At(s, q) == Waking then Wake(q) else Meet(h);
    }
  }

  /** From every state, for every proc that waits, there is a way to go on after which it has the machine. */
  lemma {:induction false} GetsMachine(s: State, p: Proc, k: nat) returns (es: seq<Step>)
    requires Inv(s) && Busy(s) && AtPlace(s, p, k)
    ensures At(Run(s, es), p) == Hold
    decreases k, Distance(s)
  {
    hide Inv, Busy, Next, AtPlace, Distance;
    var e := NextOnWay(s, p, k);
    var t := Next(s, e);
    NextInv(s, e);
    NextBusy(s, e);
    var rest: seq<Step> := [];
    if At(t, p) != Hold {
      rest := GetsMachine(t, p, if k > 0 && AtPlace(t, p, k - 1) then k - 1 else k);
    }
    es := [e] + rest;
    RunCons(s, e, rest);
  }
}
