/**
 Every call of the RPC multiplexer of `emu/devmnt.c` comes to its end: once the reply is on its way, or the
 reply to the flush, the callers need only go on, and the call is completed and returns.
 */
module MountProgress {
  import opened Sequences
  import opened Procs
  import opened MountMux

  /** A call is waiting, and reply a, on its way, answers this use of it or the last flush it sent; or the reader
      is just handing the call its reply. */
  predicate Due(s: State, r: Rpc, a: Ask) {
    var p := Pr(s, r);
    && Active(p.at) && !p.done && a.who == r && a.gen == p.gen
    && ((a in Stream(s) && (a.flush ==> p.flush == Some(a.tag))) || Target(s) == Some(r))
  }

  predicate Completed(s: State, r: Rpc) {
    Active(Pr(s, r).at) && Pr(s, r).done && r !in s.queue
  }

  /** The caller that goes on: the reader or, while nobody reads, one that comes to. */
  predicate Mover(s: State, c: Rpc) {
    if s.rip.Some? then s.rip == Some(c) else Comes(s, c)
  }

  /** How far it is from taking the next reply out of the stream. */
  function Rank(s: State, c: Rpc): nat {
    match Pr(s, c).at
    case Muxing(_) => 1
    case Reading => if Pr(s, c).done then 9 else 2
    case Rousing(_) => 3
    case Flushing(reader) => if reader then 3 else 6
    case Swapping(_, _) => 4
    case Gate => 4
    case Awake => 5
    case Sending => 6
    case Drowsy => 6
    case Nudging(_) => 7
    case Gating => 8
    case _ => 0
  }

  ghost predicate Nearer(s: State, c: Rpc, t: State, c': Rpc) {
    Mover(t, c') && (|Stream(t)| < |Stream(s)| || (|Stream(t)| == |Stream(s)| && Rank(t, c') < Rank(s, c)))
  }

  /** A step that leaves the stream alone, and of the call all but its place. */
  lemma DueKept(s: State, t: State, r: Rpc, a: Ask)
    requires Due(s, r, a) && Pr(t, r) == Pr(s, r).(at := Pr(t, r).at) && Active(Pr(t, r).at)
    requires Stream(t) == Stream(s) && Target(t) == Target(s)
    ensures Due(t, r, a)
  {
    hide Stream, Target;
  }

  // ---- while nobody reads ----

  lemma SendOn(s: State, r: Rpc, a: Ask, c: Rpc)
    requires Due(s, r, a) && s.rip == None && Comes(s, c) && Pr(s, c).at == Sending
    ensures var t := GoStep(s, c, false); Due(t, r, a) && Nearer(s, c, t, c)
  {
    DueKept(s, Send(s, c, true, false), r, a);
  }

  lemma PassOn(s: State, r: Rpc, a: Ask, c: Rpc)
    requires Due(s, r, a) && s.rip == None && Comes(s, c) && Pr(s, c).at == Gate
    ensures var t := GoStep(s, c, false); Due(t, r, a) && Nearer(s, c, t, c)
  {
    DueKept(s, PassGate(s, c), r, a);
  }

  lemma BackOn(s: State, r: Rpc, a: Ask, c: Rpc)
    requires Due(s, r, a) && s.rip == None && Comes(s, c) && Pr(s, c).at in {Drowsy, Awake, Flushing(false)}
    ensures var t := GoStep(s, c, false); Due(t, r, a) && Nearer(s, c, t, c)
  {
    DueKept(s, Move(s, c, if Pr(s, c).at == Drowsy then Awake else Gate), r, a);
  }

  lemma NudgeOn(s: State, r: Rpc, a: Ask, c: Rpc)
    requires Inv(s) && Due(s, r, a) && s.rip == None && Comes(s, c) && Pr(s, c).at.Nudging?
    ensures var t := GoStep(s, c, false); Due(t, r, a) && Nearer(s, c, t, Pr(s, c).at.q)
  {
    hide Inv;
    NudgesAnother(s, c);
    DueKept(s, Wake(Move(s, c, Idle), Pr(s, c).at.q), r, a);
  }

  lemma QuietOn(s: State, r: Rpc, a: Ask, c: Rpc) returns (c': Rpc)
    requires Inv(s) && Due(s, r, a) && s.rip == None && Comes(s, c)
    ensures var t := GoStep(s, c, false); Due(t, r, a) && Nearer(s, c, t, c')
  {
    hide Inv, GoStep, Due, Nearer;
    c' := if Pr(s, c).at.Nudging? then Pr(s, c).at.q else c;
    if Pr(s, c).at == Sending {
      SendOn(s, r, a, c);
    } else if Pr(s, c).at == Gate {
      PassOn(s, r, a, c);
    } else if Pr(s, c).at.Nudging? {
      NudgeOn(s, r, a, c);
    } else {
      BackOn(s, r, a, c);
    }
  }

  // ---- the reader ----

  lemma FlushedOn(s: State, r: Rpc, a: Ask, d: Rpc)
    requires Inv(s) && Due(s, r, a) && s.rip == Some(d) && Pr(s, d).at == Flushing(true)
    ensures var t := GoStep(s, d, false); Due(t, r, a) && Nearer(s, d, t, d)
  {
    Both(s, d, r);
    DueKept(s, WriteFlush(s, d, false), r, a);
  }

  lemma ReadOn(s: State, r: Rpc, a: Ask, d: Rpc)
    requires Inv(s) && Due(s, r, a) && s.rip == Some(d) && Pr(s, d).at == Reading
    ensures var t := GoStep(s, d, false); Due(t, r, a) && Nearer(s, d, t, d)
  {
    hide Inv;
    DueKept(s, ReadReply(s, d), r, a);
  }

  lemma RouseOn(s: State, r: Rpc, a: Ask, d: Rpc)
    requires Inv(s) && Due(s, r, a) && s.rip == Some(d) && Pr(s, d).at.Rousing?
    ensures var t := GoStep(s, d, false); Due(t, r, a) && Nearer(s, d, t, d)
  {
    Both(s, d, r);
    DueKept(s, Wake(Move(s, d, Reading), Pr(s, d).at.q), r, a);
  }

  /** The reader gives up, and a sleeper is woken, or there is none and the call itself comes to read. */
  lemma GiveUpOn(s: State, r: Rpc, a: Ask, d: Rpc) returns (c: Rpc)
    requires Inv(s) && Due(s, r, a) && s.rip == Some(d) && Pr(s, d).at == Gating
    ensures var t := GoStep(s, d, false); Due(t, r, a) && Nearer(s, d, t, c)
  {
    hide Inv, FirstAsleep;
    Both(s, d, r);
    FirstAsleepMeans(s, s.queue);
    var f := FirstAsleep(s, s.queue);
    c := if f == None then r else d;
    DueKept(s, GiveUp(s, d), r, a);
  }

  /** The reader hands over a reply. */
  lemma SwapOn(s: State, r: Rpc, a: Ask, d: Rpc)
    requires Inv(s) && Due(s, r, a) && s.rip == Some(d) && Pr(s, d).at.Swapping?
    ensures var t := GoStep(s, d, false); Completed(t, r) || (Due(t, r, a) && Nearer(s, d, t, d))
  {
    hide Inv;
    Both(s, d, r);
    SwapFacts(s, d, Pr(s, d).at.q, Pr(s, d).at.a);
  }

  /** The reader looks whose reply it has. */
  lemma MuxOn(s: State, r: Rpc, a: Ask, d: Rpc)
    requires Inv(s) && Due(s, r, a) && s.rip == Some(d) && Pr(s, d).at.Muxing?
    ensures var t := GoStep(s, d, false); Completed(t, r) || (Due(t, r, a) && Nearer(s, d, t, d))
  {
    hide Inv, Find, Except;
    var b := Pr(s, d).at.a;
    Both(s, d, r);
    Whole(s, d);
    MuxFacts(s, d, b);
    if a == b {
      FoundByReply(s, r, a, d);
    }
    var f := Find(s, s.queue, b.tag);
    if f.Some? {
      ExceptMeans(s.queue, f.value);
    }
  }

  /** The reply a call waits for finds just this call. */
  lemma FoundByReply(s: State, r: Rpc, a: Ask, d: Rpc)
    requires Inv(s) && Due(s, r, a) && s.rip == Some(d) && Pr(s, d).at == Muxing(a)
    ensures Find(s, s.queue, a.tag) == Some(r)
  {
    hide Inv, Find;
    OneAsk(s, r, a);
    MuxFacts(s, d, a);
    FindMeans(s, s.queue, a.tag);
    assert r in s.queue && Matches(s, r, a.tag);
  }

  lemma NextOn(s: State, r: Rpc, a: Ask, c: Rpc) returns (c': Rpc)
    requires Inv(s) && Due(s, r, a) && Mover(s, c)
    ensures var t := GoStep(s, c, false); Completed(t, r) || (Due(t, r, a) && Nearer(s, c, t, c'))
  {
    hide Inv, GoStep, Due, Nearer, Completed;
    c' := c;
    if s.rip == None {
      c' := QuietOn(s, r, a, c);
    } else {
      Both(s, c, c);
      if Pr(s, c).at.Muxing? {
        MuxOn(s, r, a, c);
      } else if Pr(s, c).at.Swapping? {
        SwapOn(s, r, a, c);
      } else if Pr(s, c).at.Rousing? {
        RouseOn(s, r, a, c);
      } else if Pr(s, c).at == Reading {
        ReadOn(s, r, a, c);
      } else if Pr(s, c).at == Gating {
        c' := GiveUpOn(s, r, a, c);
      } else {
        FlushedOn(s, r, a, c);
      }
    }
  }

  // ---- to the end ----

  lemma FirstMover(s: State, r: Rpc, a: Ask) returns (c: Rpc)
    requires Inv(s) && Hope(s) && Due(s, r, a)
    ensures Mover(s, c)
  {
    hide Inv;
    if s.rip.Some? {
      c := s.rip.value;
    } else {
      NoReader(s, r);
      if Sleeps(s, r) {
        c :| Comes(s, c);
      } else {
        c := r;
      }
    }
  }

  /** The steps are the callers' own: no interruption, nothing from the server, no new call. */
  predicate OnlyGo(es: seq<Step>) { forall e :: e in es ==> e.Go? }

  lemma {:induction false} RunCons(s: State, e: Step, es: seq<Step>)
    ensures Run(s, [e] + es) == Run(Next(s, e), es)
  {
    hide Next;
    if es == [] {
      assert [e] + es == [e] && Run(s, [e]) == Next(Run(s, []), e);
    } else {
      var front := es[..|es| - 1];
      RunCons(s, e, front);
      assert ([e] + es)[..|es|] == [e] + front;
    }
  }

  lemma {:induction false} CompletesFrom(s: State, r: Rpc, a: Ask, c: Rpc) returns (es: seq<Step>)
    requires Inv(s) && Due(s, r, a) && Mover(s, c)
    ensures OnlyGo(es) && Completed(Run(s, es), r)
    decreases |Stream(s)|, Rank(s, c)
  {
    hide Inv, Next, Due, Mover, Completed, Stream, Rank;
    var c' := NextOn(s, r, a, c);
    var e := Go(c, false);
    NextInv(s, e);
    NextIsGo(s, c);
    var rest: seq<Step> := [];
    if !Completed(Next(s, e), r) {
      rest := CompletesFrom(Next(s, e), r, a, c');
    }
    RunCons(s, e, rest);
    es := [e] + rest;
  }

  lemma NextIsGo(s: State, c: Rpc)
    ensures Next(s, Go(c, false)) == GoStep(s, c, false)
  {
    hide GoStep;
  }

  // ---- and back ----

  /** How far a completed call is from its return. */
  function Left(s: State, r: Rpc): nat {
    match Pr(s, r).at
    case Idle => 0
    case Nudging(_) => 1
    case Awake => 1
    case Gating => 2
    case Drowsy => 2
    case Asleep => 3
    case Reading => 3
    case Gate => 4
    case _ => 5
  }

  /** The next step of a completed call, or of the reader that is to wake it. */
  lemma ReturnOn(s: State, r: Rpc) returns (x: Rpc)
    requires Inv(s) && Pr(s, r).at != Idle && Pr(s, r).done
    ensures var t := GoStep(s, x, false); Pr(t, r).done && Left(t, r) < Left(s, r)
  {
    hide Inv, Find, Except, FirstAsleep;
    Both(s, r, r);
    x := r;
    if Pr(s, r).at == Asleep {
      DoneSleeper(s, r);
      x := s.rip.value;
    }
  }

  lemma {:induction false} ReturnsFrom(s: State, r: Rpc) returns (es: seq<Step>)
    requires Inv(s) && Pr(s, r).done
    ensures OnlyGo(es) && Pr(Run(s, es), r).at == Idle
    decreases Left(s, r)
  {
    hide Inv, Next;
    es := [];
    if Pr(s, r).at != Idle {
      var x := ReturnOn(s, r);
      var e := Go(x, false);
      NextInv(s, e);
      NextIsGo(s, x);
      var rest := ReturnsFrom(Next(s, e), r);
      RunCons(s, e, rest);
      es := [e] + rest;
    }
  }

  lemma {:induction false} RunKeeps(s: State, es: seq<Step>)
    requires Inv(s)
    ensures Inv(Run(s, es))
  {
    hide Inv, Next;
    if es != [] {
      RunKeeps(s, es[..|es| - 1]);
      NextInv(Run(s, es[..|es| - 1]), es[|es| - 1]);
    }
  }

  /** A reply on its way that answers a call: its own, or the one to the last flush it sent. */
  predicate Answers(s: State, r: Rpc, a: Ask) {
    && Active(Pr(s, r).at) && a in Stream(s) && a.who == r && a.gen == Pr(s, r).gen
    && (a == Own(r, Pr(s, r).gen) || (a.flush && Pr(s, r).flush == Some(a.tag)))
  }

  /** From then on steps of the callers alone complete the call, which is then off the queue with a reply, and
      then let it return. */
  lemma Completes(s: State, r: Rpc, a: Ask) returns (es: seq<Step>, fs: seq<Step>)
    requires Inv(s) && Hope(s) && Answers(s, r, a)
    ensures OnlyGo(es) && OnlyGo(fs)
    ensures var t := Run(s, es);
            && Active(Pr(t, r).at) && Pr(t, r).done && Pr(t, r).reply.Some? && r !in t.queue
            && Pr(Run(t, fs), r).at == Idle
  {
    hide Inv, Hope;
    Both(s, r, r);
    es := [];
    if !Pr(s, r).done {
      var c := FirstMover(s, r, a);
      es := CompletesFrom(s, r, a, c);
    }
    RunKeeps(s, es);
    Both(Run(s, es), r, r);
    fs := ReturnsFrom(Run(s, es), r);
  }

  /** So in every run, whoever waits for a reply that is on its way gets it and returns. */
  lemma RunCompletes(before: seq<Step>, r: Rpc, a: Ask) returns (es: seq<Step>, fs: seq<Step>)
    requires Answers(Run(MOUNTED, before), r, a)
    ensures OnlyGo(es) && OnlyGo(fs)
    ensures var t := Run(Run(MOUNTED, before), es);
            && Active(Pr(t, r).at) && Pr(t, r).done && Pr(t, r).reply.Some? && r !in t.queue
            && Pr(Run(t, fs), r).at == Idle
  {
    hide Inv, Hope, Run;
    RunInv(before);
    NobodyForgotten(before, r);
    es, fs := Completes(Run(MOUNTED, before), r, a);
  }

  /** A new call, once it is sent and answered, is completed and returns. */
  lemma CallReturns(s: State, r: Rpc) returns (a: Ask, es: seq<Step>, fs: seq<Step>)
    requires Inv(s) && Hope(s) && Pr(s, r).at == Idle
    ensures a == Own(r, Pr(s, r).gen + 1) && OnlyGo(es) && OnlyGo(fs)
    ensures var sent := Next(Next(s, Call(r)), Go(r, true));
            var t := Run(Next(sent, Reply(a)), es);
            && a in sent.out && Pr(t, r).done && Pr(t, r).reply.Some? && r !in t.queue
            && Pr(Run(t, fs), r).at == Idle
  {
    hide Inv, Hope;
    a := Own(r, Pr(s, r).gen + 1);
    var s1 := Next(s, Call(r));
    var s2 := Next(s1, Go(r, true));
    var s3 := Next(s2, Reply(a));
    NextInv(s, Call(r));
    NextInv(s1, Go(r, true));
    NextInv(s2, Reply(a));
    HopeStays(s, Call(r));
    HopeStays(s1, Go(r, true));
    HopeStays(s2, Reply(a));
    AnswerHolder(s2, a, r, a);
    es, fs := Completes(s3, r, a);
  }

  /** An interrupted caller sends a flush with a tag never used before, and goes on as reader if it was one and
      otherwise at the gate. */
  lemma FlushSent(s: State, r: Rpc)
    requires Inv(s) && !Pr(s, r).done
    requires Pr(s, r).at in {Sending, Drowsy, Asleep, Awake, Reading}
    ensures var t, f := Next(Next(s, Interrupt(r, true)), Go(r, true)), s.next;
            && Pr(t, r).flush == Some(f) && Ask(f, r, Pr(s, r).gen, true) in t.out && t.next == f + 1
            && Pr(t, r).at == (if Pr(s, r).at == Reading then Reading else Gate)
            && t.rip == s.rip && t.queue == s.queue && f >= TAGFLS
            && forall q: Rpc {:trigger Pr(s, q)} :: Pr(s, q).flush != Some(f)
  {
    Both(s, r, r);
    forall q: Rpc
      ensures Pr(s, q).flush != Some(s.next)
    {
      assert Settled(s, q);
    }
  }
}
