/**
 Passing the Dis virtual machine from one proc to the next: `acquire`, `release`, `iyield` and `startup`
 of `emu/dis.c`, with `Sleep` and `Wakeup` on `irend`. Every section under the scheduler's spin lock is
 one step, every rendezvous another, and the steps of any number of procs interleave.
 */
module VmToken {
  import opened Sequences
  import opened Procs

  /** Where a proc is. */
  datatype Place =
    | Out                  // not running the virtual machine
    | Hold                 // running it
    | Asleep               // running it, and sleeping on irend for lack of work
    | Waking               // in acquire: queued on an empty queue, about to wake the sleeper
    | Queued               // in acquire: queued, at its rendezvous
    | Passing(to: Proc)    // in release: at the rendezvous of the proc it took off a queue
    | Yielding(to: Proc)   // in iyield: on the idle queue, and at the rendezvous of the other
    | Idled                // on the idle queue, at its rendezvous
    | Spawning             // in release: about to create an interpreter thread
    | Starting             // a thread before the section of startup

  /** The scheduler's part of `isched`, and the places of the procs. Three history fields: the proc that
      has the machine or is handing it over, and who joined and who left `vmq`, in order. */
  datatype State = State(idle: bool, creating: bool, vmq: seq<Proc>, idlevmq: seq<Proc>, irend: Option<Proc>,
                         places: map<Proc, Place>, holder: Option<Proc>, arrived: seq<Proc>, served: seq<Proc>)

  function At(s: State, p: Proc): Place {
    if p in s.places then s.places[p] else Out
  }

  function Put(s: State, p: Proc, at: Place): State { s.(places := s.places[p := at]) }

  datatype Step =
    | Acquire(p: Proc)
    | Wake(p: Proc)
    | Release(p: Proc)
    | Yield(p: Proc)
    | Meet(p: Proc)
    | Spawn(p: Proc, q: Proc)
    | Start(p: Proc)
    | Rest(p: Proc)

  /** The section of `acquire`: take the idle machine, or join the queue. */
  function AcquireStep(s: State, p: Proc): State {
    if s.idle then Put(s, p, Hold).(idle := false, holder := Some(p))
    else Put(s, p, if s.vmq == [] then Waking else Queued).(vmq := s.vmq + [p], arrived := s.arrived + [p])
  }

  /** `Wakeup(&isched.irend)`. */
  function WakeStep(s: State, p: Proc): State {
    match s.irend
    case None => Put(s, p, Queued)
    case Some(q) => Put(Put(s, p, Queued), q, Hold).(irend := None)
  }

  /** The section of `release`: the first of the queue, or of the idle queue, or nobody. */
  function ReleaseStep(s: State, p: Proc): State {
    if s.vmq != [] then Put(s, p, Passing(s.vmq[0])).(vmq := s.vmq[1..], served := s.served + [s.vmq[0]])
    else if s.idlevmq != [] then Put(s, p, Passing(s.idlevmq[0])).(idlevmq := s.idlevmq[1..])
    else Put(s, p, if s.creating then Out else Spawning).(idle := true, creating := true, holder := None)
  }

  /** The section of `iyield`. */
  function YieldStep(s: State, p: Proc): State {
    if s.vmq == [] then s
    else Put(s, p, Yielding(s.vmq[0])).(vmq := s.vmq[1..], served := s.served + [s.vmq[0]], idlevmq := [p] + s.idlevmq)
  }

  /** The section of `startup`. */
  function StartStep(s: State, p: Proc): State {
    if s.idle then Put(s, p, Hold).(creating := false, idle := false, holder := Some(p))
    else Put(s, p, Idled).(creating := false, idlevmq := [p] + s.idlevmq)
  }

  /** A rendezvous: the one at it gets the machine. */
  function MeetStep(s: State, p: Proc, q: Proc): State {
    Put(Put(s, p, if At(s, p).Yielding? then Idled else Out), q, Hold).(holder := Some(q))
  }

  /** `Sleep(&isched.irend, tready, 0)` when there is no work and nobody waits. */
  function RestStep(s: State, p: Proc): State {
    if s.vmq != [] then s else Put(s, p, Asleep).(irend := Some(p))
  }

  function Target(at: Place): Option<Proc> {
    match at
    case Passing(q) => Some(q)
    case Yielding(q) => Some(q)
    case _ => None
  }

  /** The proc is where the step begins. */
  predicate Enabled(s: State, e: Step) {
    match e
    case Acquire(p) => At(s, p) == Out
    case Wake(p) => At(s, p) == Waking
    case Release(p) => At(s, p) == Hold
    case Yield(p) => At(s, p) == Hold
    case Meet(p) => Target(At(s, p)).Some? && At(s, Target(At(s, p)).value) in {Queued, Idled}
    case Spawn(p, q) => At(s, p) == Spawning && q !in s.places
    case Start(p) => At(s, p) == Starting
    case Rest(p) => At(s, p) == Hold
  }

  /** One step; a step that is not enabled does nothing. */
  function Next(s: State, e: Step): State {
    if !Enabled(s, e) then s else
      match e
      case Acquire(p) => AcquireStep(s, p)
      case Wake(p) => WakeStep(s, p)
      case Release(p) => ReleaseStep(s, p)
      case Yield(p) => YieldStep(s, p)
      case Meet(p) => MeetStep(s, p, Target(At(s, p)).value)
      case Spawn(p, q) => Put(Put(s, p, Out), q, Starting)
      case Start(p) => StartStep(s, p)
      case Rest(p) => RestStep(s, p)
  }

  /** Any interleaving of steps. */
  function Run(s: State, es: seq<Step>): State {
    if es == [] then s else Next(Run(s, es[..|es| - 1]), es[|es| - 1])
  }

  /** What `disinit` leaves: the machine is idle and the first interpreter thread is about to start. */
  function Initial(first: Proc): State {
    State(true, false, [], [], None, map[first := Starting], None, [], [])
  }

  // ---- the token ----

  /** The proc has the virtual machine, or is handing it over. */
  predicate HasToken(at: Place) {
    at in {Hold, Asleep} || at.Passing? || at.Yielding?
  }

  /** The proc is creating an interpreter thread, or is one. */
  predicate Coming(at: Place) { at in {Spawning, Starting} }

  predicate Waits(at: Place) { at in {Waking, Queued} }

  predicate OnIdle(at: Place) { at == Idled || at.Yielding? }

  /** The proc that is being handed the machine. */
  function Receiver(s: State): Option<Proc> {
    match s.holder
    case None => None
    case Some(g) => Target(At(s, g))
  }

  /** What holds of every proc: it has the machine, or is handing it over, just if it is the holder; it is
      on a queue just if it waits there and is not yet being handed the machine; and it sleeps on irend
      just if irend says so. */
  ghost predicate Settled(s: State, q: Proc) {
    && (HasToken(At(s, q)) <==> s.holder == Some(q))
    && (q in s.vmq <==> Waits(At(s, q)) && Receiver(s) != Some(q))
    && (q in s.idlevmq <==> OnIdle(At(s, q)) && Receiver(s) != Some(q))
    && (At(s, q) == Asleep <==> s.irend == Some(q))
  }

  /** The one being handed the machine is at its rendezvous, or on its way to it. */
  ghost predicate Receiving(s: State) {
    Receiver(s).Some? ==> var q := Receiver(s).value; Waits(At(s, q)) || At(s, q) == Idled
  }

  /** An idle machine has an interpreter thread coming to take it. */
  ghost predicate Arriving(s: State) {
    s.idle || s.creating ==> exists p: Proc :: p in s.places && Coming(At(s, p))
  }

  /** Nobody sleeps while a proc waits, but for a wake-up on its way. */
  ghost predicate WakeUpComing(s: State) {
    s.irend.Some? && s.vmq != [] ==> exists q: Proc :: q in s.places && At(s, q) == Waking
  }

  /** The procs were served in the order in which they came. */
  predicate Fifo(s: State) { s.arrived == s.served + s.vmq }

  /** The queues and the holder fit together. */
  ghost predicate Orderly(s: State) {
    (s.idle <==> s.holder == None) && NoDup(s.vmq) && NoDup(s.idlevmq) && Receiving(s) && Fifo(s)
  }

  ghost predicate Inv(s: State) {
    && Orderly(s) && Arriving(s) && WakeUpComing(s)
    && (forall q: Proc {:trigger Settled(s, q)} :: Settled(s, q))
  }

  lemma InitialInv(first: Proc)
    ensures Inv(Initial(first))
  {
    var s := Initial(first);
    assert first in s.places && Coming(At(s, first));
  }

  // ---- every step keeps the invariant ----

  lemma StillComing(s: State, t: State)
    requires Arriving(s) && (t.idle ==> s.idle) && (t.creating ==> s.creating)
    requires forall p: Proc :: p in s.places && Coming(At(s, p)) ==> p in t.places && At(t, p) == At(s, p)
    ensures Arriving(t)
  {}

  lemma StillWaking(s: State, t: State)
    requires WakeUpComing(s) && (t.irend.Some? ==> s.irend.Some?) && (t.irend.Some? && t.vmq != [] ==> s.vmq != [])
    requires forall p: Proc :: p in s.places && At(s, p) == Waking ==> p in t.places && At(t, p) == At(s, p)
    ensures WakeUpComing(t)
  {}

  lemma AcquireInv(s: State, p: Proc)
    requires Inv(s) && At(s, p) == Out
    ensures Inv(AcquireStep(s, p))
  {
    hide Settled;
    var t := AcquireStep(s, p);
    assert Settled(s, p);
    forall q: Proc
      ensures Settled(t, q) && (q != p ==> At(t, q) == At(s, q))
    {
      assert Settled(s, q);
      AcquireSettled(s, p, q);
    }
    AcquireEnds(s, p);
    StillComing(s, t);
    if s.idle || s.vmq != [] {
      StillWaking(s, t);
    } else {
      assert p in t.places && At(t, p) == Waking;
    }
  }

  lemma AcquireSettled(s: State, p: Proc, q: Proc)
    requires (s.idle <==> s.holder == None) && Settled(s, q) && Settled(s, p) && At(s, p) == Out && Receiving(s)
    ensures Settled(AcquireStep(s, p), q) && (q != p ==> At(AcquireStep(s, p), q) == At(s, q))
  {
    assert q in s.vmq + [p] <==> q in s.vmq || q == p;
  }

  lemma AcquireEnds(s: State, p: Proc)
    requires Inv(s) && At(s, p) == Out
    ensures var t := AcquireStep(s, p); Orderly(t)
  {
    assert Settled(s, p);
    if s.holder.Some? {
      assert Settled(s, s.holder.value);
    }
  }

  lemma WakeInv(s: State, p: Proc)
    requires Inv(s) && At(s, p) == Waking
    ensures Inv(WakeStep(s, p))
  {
    hide Settled;
    var t := WakeStep(s, p);
    assert Settled(s, p);
    forall q: Proc
      ensures Settled(t, q) && (Coming(At(s, q)) ==> At(t, q) == At(s, q))
    {
      assert Settled(s, q);
      if s.irend.Some? {
        assert Settled(s, s.irend.value);
      }
      WakeSettled(s, p, q);
    }
    WakeEnds(s, p);
    StillComing(s, t);
  }

  lemma WakeSettled(s: State, p: Proc, q: Proc)
    requires Settled(s, q) && Settled(s, p) && At(s, p) == Waking && (s.irend.Some? ==> Settled(s, s.irend.value))
    requires (s.idle <==> s.holder == None)
    ensures Settled(WakeStep(s, p), q) && (Coming(At(s, q)) ==> At(WakeStep(s, p), q) == At(s, q))
  {}

  lemma WakeEnds(s: State, p: Proc)
    requires Inv(s) && At(s, p) == Waking
    ensures var t := WakeStep(s, p); Orderly(t) && WakeUpComing(t)
  {
    assert Settled(s, p);
    assert s.irend.Some? ==> Settled(s, s.irend.value);
    if s.holder.Some? {
      assert Settled(s, s.holder.value);
    }
  }

  lemma ReleaseInv(s: State, p: Proc)
    requires Inv(s) && At(s, p) == Hold
    ensures Inv(ReleaseStep(s, p))
  {
    hide Settled;
    var t := ReleaseStep(s, p);
    assert Settled(s, p);
    forall q: Proc
      ensures Settled(t, q) && (q != p ==> At(t, q) == At(s, q))
    {
      assert Settled(s, q);
      ReleaseSettled(s, p, q);
    }
    ReleaseEnds(s, p);
  }

  lemma ReleaseSettled(s: State, p: Proc, q: Proc)
    requires Settled(s, q) && Settled(s, p) && At(s, p) == Hold && NoDup(s.vmq) && NoDup(s.idlevmq)
    requires (s.idle <==> s.holder == None)
    ensures Settled(ReleaseStep(s, p), q) && (q != p ==> At(ReleaseStep(s, p), q) == At(s, q))
  {
    if s.vmq != [] {
      InTail(s.vmq, q);
    } else if s.idlevmq != [] {
      InTail(s.idlevmq, q);
    }
  }

  lemma ReleaseEnds(s: State, p: Proc)
    requires Inv(s) && At(s, p) == Hold
    ensures var t := ReleaseStep(s, p); Orderly(t) && WakeUpComing(t) && Arriving(t)
  {
    var t := ReleaseStep(s, p);
    assert Settled(s, p);
    assert s.irend.Some? ==> Settled(s, s.irend.value);
    if s.vmq != [] {
      assert Settled(s, s.vmq[0]);
      InTail(s.vmq, p);
    } else if s.idlevmq != [] {
      assert Settled(s, s.idlevmq[0]);
      InTail(s.idlevmq, p);
    } else if !s.creating {
      assert p in t.places && Coming(At(t, p));
    }
    if s.creating {
      var c: Proc :| c in s.places && Coming(At(s, c));
      assert c in t.places && At(t, c) == At(s, c);
    }
  }

  lemma YieldInv(s: State, p: Proc)
    requires Inv(s) && At(s, p) == Hold
    ensures Inv(YieldStep(s, p))
  {
    hide Settled;
    if s.vmq != [] {
      var t := YieldStep(s, p);
      assert Settled(s, p);
      forall q: Proc
        ensures Settled(t, q) && (q != p ==> At(t, q) == At(s, q))
      {
        assert Settled(s, q);
        YieldSettled(s, p, q);
      }
      YieldEnds(s, p);
      StillComing(s, t);
    }
  }

  lemma YieldSettled(s: State, p: Proc, q: Proc)
    requires Settled(s, q) && Settled(s, p) && At(s, p) == Hold && NoDup(s.vmq) && s.vmq != []
    ensures Settled(YieldStep(s, p), q) && (q != p ==> At(YieldStep(s, p), q) == At(s, q))
  {
    InTail(s.vmq, q);
    InTail(s.vmq, p);
    assert q in [p] + s.idlevmq <==> q == p || q in s.idlevmq;
  }

  lemma YieldEnds(s: State, p: Proc)
    requires Inv(s) && At(s, p) == Hold && s.vmq != []
    ensures var t := YieldStep(s, p); Orderly(t) && WakeUpComing(t)
  {
    assert Settled(s, p) && Settled(s, s.vmq[0]);
    InTail(s.vmq, p);
    assert s.irend.Some? ==> Settled(s, s.irend.value);
  }

  lemma MeetInv(s: State, p: Proc)
    requires Inv(s) && Enabled(s, Meet(p))
    ensures Inv(MeetStep(s, p, Target(At(s, p)).value))
  {
    hide Settled;
    var r := Target(At(s, p)).value;
    var t := MeetStep(s, p, r);
    assert Settled(s, p) && Settled(s, r);
    forall q: Proc
      ensures Settled(t, q) && (Coming(At(s, q)) || At(s, q) == Waking ==> At(t, q) == At(s, q))
    {
      assert Settled(s, q);
      MeetSettled(s, p, r, q);
    }
    MeetEnds(s, p, r);
    StillComing(s, t);
    StillWaking(s, t);
  }

  lemma MeetSettled(s: State, p: Proc, r: Proc, q: Proc)
    requires Settled(s, q) && Settled(s, p) && Settled(s, r) && Enabled(s, Meet(p)) && r == Target(At(s, p)).value
    ensures Settled(MeetStep(s, p, r), q)
    ensures (Coming(At(s, q)) || At(s, q) == Waking ==> At(MeetStep(s, p, r), q) == At(s, q))
  {}

  lemma MeetEnds(s: State, p: Proc, r: Proc)
    requires Inv(s) && Enabled(s, Meet(p)) && r == Target(At(s, p)).value
    ensures var t := MeetStep(s, p, r); Orderly(t)
  {
    assert Settled(s, p) && Settled(s, r);
  }

  lemma SpawnInv(s: State, p: Proc, n: Proc)
    requires Inv(s) && At(s, p) == Spawning && n !in s.places
    ensures Inv(Next(s, Spawn(p, n)))
  {
    hide Settled;
    var t := Next(s, Spawn(p, n));
    assert Settled(s, p) && Settled(s, n);
    forall q: Proc
      ensures Settled(t, q) && (q != p && q != n ==> At(t, q) == At(s, q))
    {
      assert Settled(s, q);
      SpawnSettled(s, p, n, q);
    }
    SpawnEnds(s, p, n);
    assert n in t.places && Coming(At(t, n));
    StillWaking(s, t);
  }

  lemma SpawnSettled(s: State, p: Proc, n: Proc, q: Proc)
    requires Settled(s, q) && Settled(s, p) && Settled(s, n) && At(s, p) == Spawning && n !in s.places
    requires (s.idle <==> s.holder == None)
    ensures Settled(Next(s, Spawn(p, n)), q) && (q != p && q != n ==> At(Next(s, Spawn(p, n)), q) == At(s, q))
  {}

  lemma SpawnEnds(s: State, p: Proc, n: Proc)
    requires Inv(s) && At(s, p) == Spawning && n !in s.places
    ensures var t := Next(s, Spawn(p, n)); Orderly(t)
  {
    assert Settled(s, p) && Settled(s, n);
    if s.holder.Some? {
      assert Settled(s, s.holder.value);
    }
  }

  lemma StartInv(s: State, p: Proc)
    requires Inv(s) && At(s, p) == Starting
    ensures Inv(StartStep(s, p))
  {
    hide Settled;
    var t := StartStep(s, p);
    assert Settled(s, p);
    forall q: Proc
      ensures Settled(t, q) && (q != p ==> At(t, q) == At(s, q))
    {
      assert Settled(s, q);
      StartSettled(s, p, q);
    }
    StartEnds(s, p);
    StillWaking(s, t);
  }

  lemma StartSettled(s: State, p: Proc, q: Proc)
    requires Settled(s, q) && Settled(s, p) && At(s, p) == Starting && (s.idle <==> s.holder == None) && Receiving(s)
    ensures Settled(StartStep(s, p), q) && (q != p ==> At(StartStep(s, p), q) == At(s, q))
  {
    assert q in [p] + s.idlevmq <==> q == p || q in s.idlevmq;
  }

  lemma StartEnds(s: State, p: Proc)
    requires Inv(s) && At(s, p) == Starting
    ensures var t := StartStep(s, p); Orderly(t) && Arriving(t)
  {
    assert Settled(s, p);
    if s.holder.Some? {
      assert Settled(s, s.holder.value);
    }
  }

  lemma RestInv(s: State, p: Proc)
    requires Inv(s) && At(s, p) == Hold
    ensures Inv(RestStep(s, p))
  {
    hide Settled;
    if s.vmq == [] {
      var t := RestStep(s, p);
      assert Settled(s, p);
      forall q: Proc
        ensures Settled(t, q) && (q != p ==> At(t, q) == At(s, q))
      {
        assert Settled(s, q);
        RestSettled(s, p, q);
      }
      RestEnds(s, p);
      StillComing(s, t);
    }
  }

  lemma RestSettled(s: State, p: Proc, q: Proc)
    requires Settled(s, q) && Settled(s, p) && At(s, p) == Hold && s.vmq == []
    ensures Settled(RestStep(s, p), q) && (q != p ==> At(RestStep(s, p), q) == At(s, q))
  {}

  lemma RestEnds(s: State, p: Proc)
    requires Inv(s) && At(s, p) == Hold && s.vmq == []
    ensures var t := RestStep(s, p); Orderly(t)
  {
    assert Settled(s, p);
  }

  lemma NextInv(s: State, e: Step)
    requires Inv(s)
    ensures Inv(Next(s, e))
  {
    hide Inv;
    if Enabled(s, e) {
      match e
      case Acquire(p) => AcquireInv(s, p);
      case Wake(p) => WakeInv(s, p);
      case Release(p) => ReleaseInv(s, p);
      case Yield(p) => YieldInv(s, p);
      case Meet(p) => MeetInv(s, p);
      case Spawn(p, q) => SpawnInv(s, p, q);
      case Start(p) => StartInv(s, p);
      case Rest(p) => RestInv(s, p);
    }
  }

  /** The invariant holds after every interleaving of steps of any number of procs. */
  lemma {:induction false} RunInv(first: Proc, es: seq<Step>)
    ensures Inv(Run(Initial(first), es))
  {
    hide Inv;
    InitialInv(first);
    if es != [] {
      RunInv(first, es[..|es| - 1]);
      NextInv(Run(Initial(first), es[..|es| - 1]), es[|es| - 1]);
    }
  }

  // ---- what it means ----

  /** At any time the machine is idle, or one proc runs it, or one hand-over is on its way: exactly one of these. */
  lemma OneToken(s: State)
    requires Inv(s)
    ensures s.idle ==> forall p: Proc :: !HasToken(At(s, p))
    ensures !s.idle ==>
              exists p: Proc :: HasToken(At(s, p))
                && forall q: Proc {:trigger At(s, q)} :: HasToken(At(s, q)) ==> q == p
  {
    forall p: Proc
      ensures HasToken(At(s, p)) <==> s.holder == Some(p)
    {
      assert Settled(s, p);
    }
    if !s.idle {
      assert HasToken(At(s, s.holder.value));
    }
  }

  /** Two procs never sleep on irend, and a proc that goes to sleep finds nobody there: `Sleep` does not panic. */
  lemma OneSleeper(s: State, p: Proc, q: Proc)
    requires Inv(s)
    ensures At(s, p) == Asleep && At(s, q) == Asleep ==> p == q
    ensures At(s, p) == Hold ==> s.irend == None
  {
    assert Settled(s, p) && Settled(s, q);
    assert s.irend.Some? ==> Settled(s, s.irend.value);
  }

  /** A hand-over completes: the other is at its rendezvous, or will be after its wake-up call. */
  lemma HandOverCompletes(s: State, p: Proc)
    requires Inv(s) && Target(At(s, p)).Some?
    ensures var q := Target(At(s, p)).value;
            var t := if At(s, q) == Waking then Next(s, Wake(q)) else s;
            Enabled(t, Meet(p)) && At(Next(t, Meet(p)), q) == Hold
  {
    assert Settled(s, p) && Settled(s, Target(At(s, p)).value);
    assert s.irend.Some? ==> Settled(s, s.irend.value);
  }

  /** A proc in the queue has been promised the machine: if the holder sleeps, a wake-up is on its way
      that will end its sleep. */
  lemma NoLostWakeUp(s: State, p: Proc)
    requires Inv(s) && p in s.vmq && s.irend.Some?
    ensures exists q: Proc :: q in s.places && Enabled(s, Wake(q)) && At(Next(s, Wake(q)), s.irend.value) == Hold
  {
    var q: Proc :| q in s.places && At(s, q) == Waking;
    assert Settled(s, q) && Settled(s, s.irend.value);
    assert Enabled(s, Wake(q)) && At(Next(s, Wake(q)), s.irend.value) == Hold;
  }

  /** The queue is served first come, first served: later arrivals never get ahead. */
  lemma {:induction false} ServedInOrder(first: Proc, es: seq<Step>)
    ensures var s := Run(Initial(first), es); s.served <= s.arrived
  {
    RunInv(first, es);
  }
}
