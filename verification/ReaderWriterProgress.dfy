/**
 The reader/writer lock lets everyone through: from every state it can get into, whoever waits gets in when the others
 go on, and out again; and readers are in together.
 */
module ReaderWriterProgress {
  import opened Sequences
  import opened Procs
  import opened ReaderWriter

  /** In `rlock`, and in `wlock`. */
  predicate ReaderComes(at: Place) { at in {RWait, RHasX, RInL, RCounted, RUse, RDoneK, RLeaving} }

  predicate WriterComes(at: Place) { at in {WWait, WHasX, WUse, WWaitK} }

  /** How far a proc is from the outside. */
  function Far(at: Place): nat {
    match at
    case Out => 0
    case RWait => 12
    case RHasX => 11
    case RInL => 10
    case RCounted => 9
    case RUse => 8
    case RDoneK => 7
    case RLeaving => 6
    case Reading => 5
    case ULock => 4
    case ULast => 3
    case UUse => 2
    case UDone => 1
    case WWait => 7
    case WHasX => 6
    case WUse => 5
    case WWaitK => 4
    case Writing => 3
    case VUse => 2
    case VX => 1
  }

  /** What a step of q does to r: nobody is further off than before, and whoever comes keeps coming until it is in. */
  ghost predicate Follows(s: State, t: State, r: Proc) {
    var at, to := At(s, r), At(t, r);
    && Far(to) <= Far(at)
    && (ReaderComes(at) ==> ReaderComes(to) || to == Reading)
    && (WriterComes(at) ==> WriterComes(to) || to == Writing)
  }

  /** Whoever is first in a queue waits there. */
  lemma FirstWaits(s: State, p: Proc)
    requires Ready(s, p)
    ensures s.x.queue != [] ==> At(s, s.x.queue[0]) in {RWait, WWait}
    ensures s.k.queue != [] ==> At(s, s.k.queue[0]) == WWaitK
  {
    if s.x.queue != [] {
      assert s.x.queue[0] in s.x.queue;
    }
    if s.k.queue != [] {
      assert s.k.queue[0] in s.k.queue;
    }
  }

  lemma LeaveXFollows(s: State, p: Proc, to: Place, r: Proc)
    requires Ready(s, p) && (At(s, p), to) in {(RLeaving, Reading), (VX, Out)}
    ensures Follows(s, LeaveX(s, p, to), r) && Far(At(LeaveX(s, p, to), p)) < Far(At(s, p))
  {
    hide Ready;
    FirstWaits(s, p);
  }

  lemma LeaveKFollows(s: State, p: Proc, to: Place, r: Proc)
    requires Ready(s, p) && (At(s, p), to) in {(UUse, UDone), (VUse, VX)}
    ensures Follows(s, LeaveK(s, p, to), r) && Far(At(LeaveK(s, p, to), p)) < Far(At(s, p))
  {
    hide Ready;
    FirstWaits(s, p);
  }

  lemma EnterKFollows(s: State, p: Proc, r: Proc)
    requires At(s, p) == WUse
    ensures Follows(s, EnterK(s, p), r) && Far(At(EnterK(s, p), p)) < Far(At(s, p))
  {}

  /** A step that concerns p alone. */
  lemma PlainFollows(s: State, p: Proc, r: Proc)
    requires At(s, p) !in {RLeaving, VX, UUse, VUse, WUse}
    ensures Follows(s, GoStep(s, p), r)
    ensures Moves(s, p) ==> Far(At(GoStep(s, p), p)) < Far(At(s, p))
  {
    hide LeaveX, LeaveK, EnterK;
  }

  lemma GoFollows(s: State, p: Proc, r: Proc)
    requires Ready(s, p)
    ensures Follows(s, GoStep(s, p), r)
    ensures Moves(s, p) ==> Far(At(GoStep(s, p), p)) < Far(At(s, p))
  {
    hide Ready, LeaveX, LeaveK, EnterK, Follows, Far;
    if At(s, p) in {RLeaving, VX} {
      LeaveXFollows(s, p, if At(s, p) == VX then Out else Reading, r);
    } else if At(s, p) in {UUse, VUse} {
      LeaveKFollows(s, p, if At(s, p) == VUse then VX else UDone, r);
    } else if At(s, p) == WUse {
      EnterKFollows(s, p, r);
    } else {
      PlainFollows(s, p, r);
    }
  }

  // ---- everyone gets through ----

  /** How far the procs ps are from the outside, together. */
  function Distance(s: State, ps: seq<Proc>): nat {
    if ps == [] then 0 else Far(At(s, ps[0])) + Distance(s, ps[1..])
  }

  lemma {:induction false} DistanceLess(s: State, t: State, ps: seq<Proc>, q: Proc)
    requires forall r: Proc {:trigger At(t, r)} :: Far(At(t, r)) <= Far(At(s, r))
    ensures Distance(t, ps) <= Distance(s, ps)
    ensures q in ps && Far(At(t, q)) < Far(At(s, q)) ==> Distance(t, ps) < Distance(s, ps)
  {
    hide Far, At;
    if ps != [] {
      DistanceLess(s, t, ps[1..], q);
      assert q in ps ==> q == ps[0] || q in ps[1..];
      assert Far(At(t, ps[0])) <= Far(At(s, ps[0]));
    }
  }

  /** A list of all the procs in a set. */
  lemma {:induction false} Listed(a: set<Proc>) returns (ps: seq<Proc>)
    ensures forall q :: q in a ==> q in ps
  {
    if a == {} {
      ps := [];
    } else {
      var p :| p in a;
      var rest := Listed(a - {p});
      ps := [p] + rest;
      forall q | q in a
        ensures q in ps
      {
        assert q == p || q in rest;
      }
    }
  }

  /** The procs ps are all that are in the lock or at it. */
  ghost predicate All(s: State, ps: seq<Proc>) {
    forall q :: At(s, q) != Out ==> q in ps
  }

  /** While p is not outside, some proc can go on, and that brings all nearer to the outside. */
  lemma OneGoes(s: State, ps: seq<Proc>, p: Proc) returns (q: Proc)
    requires Inv(s) && All(s, ps) && At(s, p) != Out
    ensures Inv(GoStep(s, q)) && All(GoStep(s, q), ps) && Distance(GoStep(s, q), ps) < Distance(s, ps)
    ensures Follows(s, GoStep(s, q), p)
  {
    hide Inv, Moves, GoStep, Far, Settled, Global;
    q := NoDeadlock(s, p);
    var t := GoStep(s, q);
    NextInv(s, Go(q));
    MoverReady(s, q);
    forall r: Proc
      ensures Follows(s, t, r)
    {
      GoFollows(s, q, r);
    }
    forall r: Proc
      ensures Far(At(t, r)) <= Far(At(s, r))
    {
      assert Follows(s, t, r);
    }
    NoneAtAll(s, q);
    GoFollows(s, q, q);
    DistanceLess(s, t, ps, q);
    forall r | At(t, r) != Out
      ensures r in ps
    {
      assert Follows(s, t, r);
      FarOut(At(s, r));
      FarOut(At(t, r));
    }
  }

  lemma MoverReady(s: State, q: Proc)
    requires Inv(s)
    ensures Ready(s, q)
  {
    assert Settled(s, q);
  }

  lemma FarOut(at: Place)
    ensures Far(at) == 0 <==> at == Out
  {}

  lemma NoneAtAll(s: State, q: Proc)
    requires Moves(s, q)
    ensures At(s, q) != Out
  {}

  /** The steps gs are of procs that go on; nobody new comes. */
  ghost predicate OnlyGo(gs: seq<Step>) { forall i :: 0 <= i < |gs| ==> gs[i].Go? }

  /** Whoever has come to read gets in, and so does whoever has come to write, once the others have gone on. */
  lemma {:induction false} GetsIn(es: seq<Step>, ps: seq<Proc>, p: Proc) returns (gs: seq<Step>)
    requires All(Run(FRESH, es), ps)
    requires var at := At(Run(FRESH, es), p); ReaderComes(at) || WriterComes(at)
    ensures OnlyGo(gs)
    ensures At(Run(FRESH, es + gs), p) == if ReaderComes(At(Run(FRESH, es), p)) then Reading else Writing
    decreases Distance(Run(FRESH, es), ps)
  {
    hide Inv, GoStep, Distance, All;
    var s := Run(FRESH, es);
    RunInv(es);
    var q := OneGoes(s, ps, p);
    RunOne(es, Go(q));
    var t := Run(FRESH, es + [Go(q)]);
    if At(t, p) in {Reading, Writing} {
      gs := [Go(q)];
    } else {
      var rest := GetsIn(es + [Go(q)], ps, p);
      gs := [Go(q)] + rest;
      assert es + gs == es + [Go(q)] + rest;
    }
  }

  lemma RunOne(es: seq<Step>, e: Step)
    ensures Run(FRESH, es + [e]) == Next(Run(FRESH, es), e)
  {
    hide Next;
    assert (es + [e])[..|es|] == es;
  }

  /** And whoever is in the lock, or has come to it, gets out again. */
  lemma {:induction false} GetsOut(es: seq<Step>, ps: seq<Proc>, p: Proc) returns (gs: seq<Step>)
    requires All(Run(FRESH, es), ps)
    ensures OnlyGo(gs) && At(Run(FRESH, es + gs), p) == Out
    decreases Distance(Run(FRESH, es), ps)
  {
    hide Inv, GoStep, Distance, All;
    var s := Run(FRESH, es);
    if At(s, p) == Out {
      gs := [];
      assert es + gs == es;
    } else {
      RunInv(es);
      var q := OneGoes(s, ps, p);
      RunOne(es, Go(q));
      var rest := GetsOut(es + [Go(q)], ps, p);
      gs := [Go(q)] + rest;
      assert es + gs == es + [Go(q)] + rest;
    }
  }

  /** From every state it can get into: everyone who waits gets in, and everyone gets out, with nobody new coming. */
  lemma EveryoneGetsThrough(es: seq<Step>, p: Proc) returns (ins: seq<Step>, outs: seq<Step>)
    ensures OnlyGo(ins) && OnlyGo(outs)
    ensures var at := At(Run(FRESH, es), p);
            && (ReaderComes(at) ==> At(Run(FRESH, es + ins), p) == Reading)
            && (WriterComes(at) ==> At(Run(FRESH, es + ins), p) == Writing)
    ensures At(Run(FRESH, es + outs), p) == Out
  {
    var s := Run(FRESH, es);
    var ps := Listed(s.places.Keys);
    assert All(s, ps);
    ins := [];
    if ReaderComes(At(s, p)) || WriterComes(At(s, p)) {
      ins := GetsIn(es, ps, p);
    }
    outs := GetsOut(es, ps, p);
  }

  // ---- readers together ----

  /** No writer is in the lock or has come to it, and nobody is on the way in or out. */
  ghost predicate Quiet(s: State) {
    forall q: Proc {:trigger At(s, q)} :: At(s, q) in {Out, Reading}
  }

  /** A reader that comes then gets in by its own steps, while all who read keep reading; and one that only tries
      does as well. */
  lemma ReadersShare(s: State, p: Proc)
    requires Inv(s) && Quiet(s) && At(s, p) == Out
    ensures var t := Goes(Next(s, Read(p)), p, 6);
            forall q :: At(t, q) == if q == p then Reading else At(s, q)
    ensures Next(s, TryRead(p)) == Next(s, Read(p))
  {
    hide Inv, Global, Settled;
    QuietFree(s);
    var s1 := Next(s, Read(p));
    var s2 := GoStep(s1, p);
    var s3 := GoStep(s2, p);
    var s4 := GoStep(s3, p);
    var s5 := GoStep(s4, p);
    var s6 := GoStep(s5, p);
    GoesSix(s1, p);
  }

  function Goes(s: State, p: Proc, n: nat): State {
    if n == 0 then s else GoStep(Goes(s, p, n - 1), p)
  }

  lemma GoesOn(s: State, p: Proc, n: nat)
    ensures Goes(s, p, 0) == s && Goes(s, p, n + 1) == GoStep(Goes(s, p, n), p)
  {
    hide GoStep;
  }

  lemma GoesSix(s: State, p: Proc)
    ensures Goes(s, p, 6) == GoStep(GoStep(GoStep(GoStep(GoStep(GoStep(s, p), p), p), p), p), p)
  {
    hide GoStep, Goes;
    GoesOn(s, p, 0);
    GoesOn(s, p, 1);
    GoesOn(s, p, 2);
    GoesOn(s, p, 3);
    GoesOn(s, p, 4);
    GoesOn(s, p, 5);
  }

  lemma HoldsNothing(s: State, q: Proc)
    requires Inv(s) && Quiet(s)
    ensures s.xh != Some(q) && s.l != Some(q) && s.use != Some(q) && q !in s.x.queue
  {
    assert Settled(s, q) && At(s, q) in {Out, Reading};
  }

  lemma QuietFree(s: State)
    requires Inv(s) && Quiet(s)
    ensures !s.x.locked && s.x.queue == [] && s.l == None && s.use == None
  {
    if s.xh.Some? {
      HoldsNothing(s, s.xh.value);
    }
    if s.l.Some? {
      HoldsNothing(s, s.l.value);
    }
    if s.use.Some? {
      HoldsNothing(s, s.use.value);
    }
  }
}
