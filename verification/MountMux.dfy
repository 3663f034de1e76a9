/**
 The RPC multiplexer of `emu/devmnt.c`: any number of callers share one channel to a file server. One of
 them at a time reads replies, hands each to the caller whose tag it bears, buffers and all, and passes
 the reading on when its own has come. Interrupted callers send flushes. Every section under a lock is
 one step, as is every message read or written; the steps of all callers and of the server interleave.
 */
module MountMux {
  import opened Sequences
  import opened Procs

  const TAGFLS := 0x8000

  /** An RPC, by the number of its structure; its request tag stays with it. */
  type Rpc = n: nat | n < 0x7fff

  function TagOf(r: Rpc): nat { r + 1 }

  /** A request on its way to the server or a reply on its way back. Only the tag is on the wire; as history
      it bears the RPC, which use of it this is, and whether it is a flush. */
  datatype Ask = Ask(tag: nat, who: Rpc, gen: nat, flush: bool)

  function Own(r: Rpc, gen: nat): Ask { Ask(TagOf(r), r, gen, false) }

  /** Where a caller is in `mountio` and the functions it calls. */
  datatype Place =
    | Idle                        // the structure is free
    | Sending                     // in the queue, about to write the request
    | Gate                        // about to look whether anyone reads
    | Drowsy                      // about to sleep
    | Asleep
    | Awake                       // about to look whether it is done
    | Flushing(reader: bool)      // in mntflush, about to write the flush
    | Reading                     // the reader, about to read
    | Muxing(a: Ask)              // in mountmux, with the reply read
    | Swapping(q: Rpc, a: Ask)    // it took q off the queue, to complete it
    | Rousing(q: Rpc)             // about to wake q
    | Gating                      // about to give up reading
    | Nudging(q: Rpc)             // in mntgate, about to wake q

  /** An RPC structure; `gen` counts its uses, as history. */
  datatype P = P(at: Place, done: bool, flush: Option<nat>, buf: nat, gen: nat, reply: Option<Ask>)

  /** The queue, the reader, the callers, the next flush tag, what the server has yet to answer, the replies
      in the channel, and what each buffer holds. History: whose each buffer is, and who got each flush tag. */
  datatype State = State(queue: seq<Rpc>, rip: Option<Rpc>, procs: map<Rpc, P>, next: nat, out: set<Ask>,
                         wire: seq<Ask>, held: map<nat, Ask>, owner: map<nat, Rpc>, flushes: map<nat, (Rpc, nat)>)

  function Pr(s: State, r: Rpc): P {
    if r in s.procs then s.procs[r] else P(Idle, false, None, r, 0, None)
  }

  function Put(s: State, r: Rpc, p: P): State { s.(procs := s.procs[r := p]) }

  function Move(s: State, r: Rpc, at: Place): State { Put(s, r, Pr(s, r).(at := at)) }

  /** Whose buffer b is, and what it holds. */
  function OwnerOf(s: State, b: nat): nat { if b in s.owner then s.owner[b] else b }

  function HeldIn(s: State, b: nat): Option<Ask> { if b in s.held then Some(s.held[b]) else None }

  function FlushOf(s: State, f: nat): Option<(Rpc, nat)> { if f in s.flushes then Some(s.flushes[f]) else None }

  // ---- the steps ----

  /** `mntralloc` and the first section of `mountio`. */
  function Enqueue(s: State, r: Rpc): State {
    var p := Pr(s, r);
    Put(s, r, P(Sending, false, None, p.buf, p.gen + 1, None)).(queue := [r] + s.queue)
  }

  /** The request is built in the buffer and written; the write may be interrupted, before or after. */
  function Send(s: State, r: Rpc, sent: bool, cut: bool): State {
    var a := Own(r, Pr(s, r).gen);
    var t := s.(held := s.held[Pr(s, r).buf := a], out := if sent then s.out + {a} else s.out);
    if cut then BeginFlush(t, r) else Move(t, r, Gate)
  }

  /** The section of `mntflush`. */
  function BeginFlush(s: State, r: Rpc): State {
    var p := Pr(s, r);
    Put(s, r, p.(at := Flushing(Reader(p.at)), flush := Some(s.next)))
      .(next := s.next + 1, flushes := s.flushes[s.next := (r, p.gen)])
  }

  function FlushAsk(r: Rpc, p: P): Ask { Ask(if p.flush.Some? then p.flush.value else 0, r, p.gen, true) }

  /** The flush is written, unless that is interrupted too; then back to where the caller came from. */
  function WriteFlush(s: State, r: Rpc, sent: bool): State {
    var p := Pr(s, r);
    var t := if sent then s.(out := s.out + {FlushAsk(r, p)}) else s;
    Move(t, r, if p.at == Flushing(true) then Reading else Gate)
  }

  /** The section at the gate: become the reader, or go to sleep. */
  function PassGate(s: State, r: Rpc): State {
    if s.rip == None then Move(s, r, Reading).(rip := Some(r)) else Move(s, r, Drowsy)
  }

  /** The section of `Sleep`, with `rpcattn`. */
  function FallAsleep(s: State, r: Rpc): State {
    Move(s, r, if Pr(s, r).done || s.rip == None then Awake else Asleep)
  }

  /** `Wakeup`. */
  function Wake(s: State, q: Rpc): State {
    if Pr(s, q).at == Asleep then Move(s, q, Awake) else s
  }

  /** One reply out of the channel, into the reader's buffer. */
  function ReadReply(s: State, r: Rpc): State {
    if Pr(s, r).done then Move(s, r, Gating)
    else if s.wire == [] then s
    else Move(s, r, Muxing(s.wire[0])).(wire := s.wire[1..], held := s.held[Pr(s, r).buf := s.wire[0]])
  }

  /** `q->request.tag == r->reply.tag || q->flushed && q->flushtag == r->reply.tag` */
  predicate Matches(s: State, q: Rpc, tag: nat) {
    TagOf(q) == tag || Pr(s, q).flush == Some(tag)
  }

  /** The first RPC of the queue with the tag. */
  function Find(s: State, queue: seq<Rpc>, tag: nat): Option<Rpc> {
    if queue == [] then None
    else if Matches(s, queue[0], tag) then Some(queue[0])
    else Find(s, queue[1..], tag)
  }

  /** The section of `mountmux`. */
  function Mux(s: State, r: Rpc, a: Ask): State {
    match Find(s, s.queue, a.tag)
    case None => Move(s, r, Reading)
    case Some(q) =>
      var t := s.(queue := Except(s.queue, q));
      if q == r then Put(t, r, Pr(s, r).(at := Gating, done := true, reply := Some(a)))
      else Move(t, r, Swapping(q, a))
  }

  /** The rest of `mountmux`, completing someone else: the buffers change hands. */
  function Swap(s: State, r: Rpc, q: Rpc, a: Ask): State {
    var p, o := Pr(s, r), Pr(s, q);
    Put(Put(s, r, p.(at := Rousing(q), buf := o.buf)), q, o.(buf := p.buf, done := true, reply := Some(a)))
      .(owner := s.owner[p.buf := q][o.buf := r])
  }

  /** The first RPC of the queue that sleeps and is not done. */
  function FirstAsleep(s: State, queue: seq<Rpc>): Option<Rpc> {
    if queue == [] then None
    else if Sleeps(s, queue[0]) then Some(queue[0])
    else FirstAsleep(s, queue[1..])
  }

  predicate Sleeps(s: State, q: Rpc) { Pr(s, q).at == Asleep && !Pr(s, q).done }

  /** The section of `mntgate`. */
  function GiveUp(s: State, r: Rpc): State {
    var t := s.(rip := None);
    match FirstAsleep(s, s.queue)
    case None => Move(t, r, Idle)
    case Some(q) => Move(t, r, Nudging(q))
  }

  /** The server answers a request. A flush calls off the request it flushes, if that is not answered yet. */
  function Answer(s: State, a: Ask): State {
    s.(out := s.out - {a} - (if a.flush then {Own(a.who, a.gen)} else {}), wire := s.wire + [a])
  }

  datatype Step =
    | Call(r: Rpc)
    | Go(r: Rpc, sent: bool)
    | Interrupt(r: Rpc, sent: bool)
    | Reply(a: Ask)

  /** The next step of a caller. */
  function GoStep(s: State, r: Rpc, sent: bool): State {
    match Pr(s, r).at
    case Idle => s
    case Sending => Send(s, r, true, false)
    case Gate => PassGate(s, r)
    case Drowsy => FallAsleep(s, r)
    case Asleep => s
    case Awake => Move(s, r, if Pr(s, r).done then Idle else Gate)
    case Flushing(_) => WriteFlush(s, r, sent)
    case Reading => ReadReply(s, r)
    case Muxing(a) => Mux(s, r, a)
    case Swapping(q, a) => Swap(s, r, q, a)
    case Rousing(q) => Wake(Move(s, r, Reading), q)
    case Gating => GiveUp(s, r)
    case Nudging(q) => Wake(Move(s, r, Idle), q)
  }

  /** An interruption, where a caller notices one. */
  function InterruptStep(s: State, r: Rpc, sent: bool): State {
    match Pr(s, r).at
    case Sending => Send(s, r, sent, true)
    case Drowsy => BeginFlush(s, r)
    case Asleep => BeginFlush(s, r)
    case Awake => BeginFlush(s, r)
    case Reading => if Pr(s, r).done then s else BeginFlush(s, r)
    case _ => s
  }

  function Next(s: State, e: Step): State {
    match e
    case Call(r) => if Pr(s, r).at == Idle then Enqueue(s, r) else s
    case Go(r, sent) => GoStep(s, r, sent)
    case Interrupt(r, sent) => InterruptStep(s, r, sent)
    case Reply(a) => if a in s.out then Answer(s, a) else s
  }

  /** Any interleaving of steps. */
  function Run(s: State, es: seq<Step>): State {
    if es == [] then s else Next(Run(s, es[..|es| - 1]), es[|es| - 1])
  }

  const MOUNTED := State([], None, map[], TAGFLS, {}, [], map[], map[], map[])

  // ---- the invariant ----

  predicate Reader(at: Place) {
    at in {Flushing(true), Reading, Gating} || at.Muxing? || at.Swapping? || at.Rousing?
  }

  /** The structure is in use by a call. */
  predicate Active(at: Place) { at != Idle && !at.Nudging? }

  /** The RPC being completed by the reader: off the queue, but not done. */
  function Target(s: State): Option<Rpc> {
    match s.rip
    case None => None
    case Some(r) => if Pr(s, r).at.Swapping? then Some(Pr(s, r).at.q) else None
  }

  /** The replies on their way, with the one the reader holds in front. */
  function Stream(s: State): seq<Ask> {
    match s.rip
    case None => s.wire
    case Some(r) => if Pr(s, r).at.Muxing? then [Pr(s, r).at.a] + s.wire else s.wire
  }

  predicate Present(s: State, a: Ask) { a in s.out || a in Stream(s) }

  /** The reader is about to wake q. */
  predicate Roused(s: State, q: Rpc) { s.rip.Some? && Pr(s, s.rip.value).at == Rousing(q) }

  /** What holds of every RPC. */
  ghost predicate Settled(s: State, q: Rpc) {
    var p := Pr(s, q);
    && (Reader(p.at) <==> s.rip == Some(q))
    && (q in s.queue <==> Active(p.at) && !p.done && Target(s) != Some(q))
    && OwnerOf(s, p.buf) == q
    && (p.at != Idle && p.done ==> p.reply.Some? && p.reply.value.who == q && p.reply.value.gen == p.gen)
    && (p.at != Idle && p.done ==> HeldIn(s, p.buf) == p.reply)
    && (p.at in {Gating} || p.at.Nudging? ==> p.done)
    && (p.at == Sending || p.at.Muxing? || p.at.Swapping? || p.at.Rousing? || p.at == Flushing(true) ==> !p.done)
    && (p.at.Muxing? || p.at.Swapping? ==> HeldIn(s, p.buf) == Some(p.at.a))
    && (p.at == Asleep && p.done ==> Roused(s, q))
    && (p.flush.Some? ==>
          p.at != Sending && TAGFLS <= p.flush.value < s.next && FlushOf(s, p.flush.value) == Some((q, p.gen)))
    && (p.at.Flushing? ==> p.flush.Some? && !Present(s, FlushAsk(q, p)))
    && (p.at.Rousing? || p.at.Nudging? ==> p.at.q != q)
  }

  /** What holds of every request and reply under way. */
  ghost predicate AskOk(s: State, a: Ask) {
    Present(s, a) ==>
      && !(a in s.out && a in Stream(s))
      && (a.gen == Pr(s, a.who).gen ==> Pr(s, a.who).at != Sending)
      && (a.flush ==>
            TAGFLS <= a.tag < s.next && FlushOf(s, a.tag) == Some((a.who, a.gen)) && a.gen <= Pr(s, a.who).gen)
      && (a.flush && a in Stream(s) ==> Own(a.who, a.gen) !in s.out)
      && (!a.flush ==> a == Own(a.who, Pr(s, a.who).gen) && a.who in s.queue)
  }

  /** The RPC being completed is the one the reply is for, in this use of it. */
  ghost predicate TargetOk(s: State) {
    Target(s).Some? ==>
      var q, a := Target(s).value, Pr(s, s.rip.value).at.a;
      && s.rip != Some(q) && a.who == q && a.gen == Pr(s, q).gen
      && Active(Pr(s, q).at) && Pr(s, q).at != Sending && !Pr(s, q).done
  }

  ghost predicate Distinct(st: seq<Ask>) {
    forall i, j :: 0 <= i < j < |st| ==> st[i] != st[j]
  }

  /** After the reply to a flush, none to the request it flushed. */
  ghost predicate Ordered(st: seq<Ask>) {
    forall i, j :: 0 <= i < j < |st| && st[i].flush ==> st[j] != Own(st[i].who, st[i].gen)
  }

  ghost predicate Global(s: State) {
    NoDup(s.queue) && Distinct(Stream(s)) && Ordered(Stream(s)) && TargetOk(s) && s.next >= TAGFLS
  }

  ghost predicate Inv(s: State) {
    && Global(s)
    && (forall q: Rpc {:trigger Settled(s, q)} :: Settled(s, q))
    && (forall a: Ask {:trigger AskOk(s, a)} :: AskOk(s, a))
  }

  lemma MountedInv()
    ensures Inv(MOUNTED)
  {}

  // ---- finding and removing ----

  lemma {:induction false} FindMeans(s: State, queue: seq<Rpc>, tag: nat)
    ensures var f := Find(s, queue, tag);
            && (f.Some? ==> f.value in queue && Matches(s, f.value, tag))
            && (f.None? ==> forall q :: q in queue ==> !Matches(s, q, tag))
  {
    hide Matches;
    if queue != [] {
      FindMeans(s, queue[1..], tag);
    }
  }

  lemma {:induction false} FirstAsleepMeans(s: State, queue: seq<Rpc>)
    ensures var f := FirstAsleep(s, queue);
            && (f.Some? ==> f.value in queue && Sleeps(s, f.value))
            && (f.None? ==> forall q :: q in queue ==> !Sleeps(s, q))
  {
    hide Sleeps;
    if queue != [] {
      FirstAsleepMeans(s, queue[1..]);
    }
  }

  // ---- lemmas for the steps ----

  /** What a step leaves alone stays settled. */
  lemma OtherSettled(s: State, t: State, q: Rpc)
    requires Settled(s, q) && Pr(t, q) == Pr(s, q)
    requires (q in t.queue <==> q in s.queue) && (t.rip == Some(q) <==> s.rip == Some(q))
    requires (Target(t) == Some(q) <==> Target(s) == Some(q)) && (Roused(s, q) ==> Roused(t, q))
    requires OwnerOf(t, Pr(s, q).buf) == OwnerOf(s, Pr(s, q).buf) && HeldIn(t, Pr(s, q).buf) == HeldIn(s, Pr(s, q).buf)
    requires t.next >= s.next && forall f: nat {:trigger FlushOf(t, f)} :: f < s.next ==> FlushOf(t, f) == FlushOf(s, f)
    requires Pr(s, q).at.Flushing? && !Present(s, FlushAsk(q, Pr(s, q))) ==> !Present(t, FlushAsk(q, Pr(s, q)))
    ensures Settled(t, q)
  {
    hide Target, Roused, Present, OwnerOf, HeldIn, FlushOf;
  }

  /** Different RPCs have different buffers. */
  lemma Apart(s: State, r: Rpc, q: Rpc)
    requires Inv(s) && r != q
    ensures Pr(s, r).buf != Pr(s, q).buf
  {
    hide Target, Roused, Present, OwnerOf;
    assert Settled(s, r) && Settled(s, q);
  }

  lemma Both(s: State, r: Rpc, q: Rpc)
    requires Inv(s)
    ensures Settled(s, r) && Settled(s, q) && s.next >= TAGFLS && TargetOk(s)
    ensures s.rip == Some(r) <==> Reader(Pr(s, r).at)
  {
    hide Target, Present;
  }

  lemma OneAsk(s: State, r: Rpc, a: Ask)
    requires Inv(s)
    ensures Settled(s, r) && AskOk(s, a) && s.next >= TAGFLS && TargetOk(s)
  {}

  lemma Whole(s: State, r: Rpc)
    requires Inv(s)
    ensures Settled(s, r) && Global(s)
  {}

  lemma InMore(queue: seq<Rpc>, r: Rpc, q: Rpc)
    ensures q in [r] + queue <==> q == r || q in queue
  {}

  /** The next flush tag is not under way. */
  lemma NewFlush(s: State, r: Rpc)
    requires Inv(s)
    ensures var a := Ask(s.next, r, Pr(s, r).gen, true); !Present(s, a) && a !in s.out && a !in Stream(s)
  {
    assert AskOk(s, Ask(s.next, r, Pr(s, r).gen, true));
  }

  /** Before it is sent, a request is nowhere, nor a flush of it. */
  lemma NoAsks(s: State, r: Rpc, a: Ask)
    requires Inv(s) && Pr(s, r).at == Sending
    ensures !Present(s, Own(r, Pr(s, r).gen)) && Own(r, Pr(s, r).gen) !in Stream(s)
    ensures a.who == r && a.gen == Pr(s, r).gen ==> !Present(s, a) && a !in Stream(s)
  {
    assert AskOk(s, Own(r, Pr(s, r).gen)) && AskOk(s, a);
  }

  predicate Holds(at: Place) { at.Muxing? || at.Swapping? || at.Rousing? }

  /** A step of a caller that holds no reply leaves the stream of replies. */
  lemma SameHolder(s: State, t: State, q: Rpc, a: Ask)
    requires t.rip == s.rip && t.wire == s.wire
    requires s.rip.Some? ==>
               || Pr(t, s.rip.value).at == Pr(s, s.rip.value).at
               || (!Holds(Pr(t, s.rip.value).at) && !Holds(Pr(s, s.rip.value).at))
    ensures Stream(t) == Stream(s) && Target(t) == Target(s) && Roused(t, q) == Roused(s, q)
    ensures t.out == s.out ==> Present(t, a) == Present(s, a)
  {}

  lemma GateHolder(s: State, t: State, q: Rpc, a: Ask)
    requires t.wire == s.wire && t.out == s.out
    requires s.rip.None? && t.rip.Some? ==> !Holds(Pr(t, t.rip.value).at)
    requires s.rip.Some? ==> t.rip == s.rip && Pr(t, s.rip.value).at == Pr(s, s.rip.value).at
    ensures Stream(t) == Stream(s) && Target(t) == Target(s) && Roused(t, q) == Roused(s, q)
    ensures Present(t, a) == Present(s, a)
  {}

  // ---- every step keeps it ----

  lemma EnqueueSelf(s: State, r: Rpc)
    requires Inv(s) && Pr(s, r).at == Idle
    ensures Settled(Enqueue(s, r), r)
  {
    hide Stream, Roused, Present, Inv;
    Both(s, r, r);
    SameHolder(s, Enqueue(s, r), r, FlushAsk(r, Pr(Enqueue(s, r), r)));
  }

  lemma EnqueueOther(s: State, r: Rpc, q: Rpc)
    requires Inv(s) && Pr(s, r).at == Idle && q != r
    ensures Settled(Enqueue(s, r), q)
  {
    hide Stream, Roused, Present, Inv, Settled;
    Both(s, r, q);
    InMore(s.queue, r, q);
    Apart(s, r, q);
    SameHolder(s, Enqueue(s, r), q, FlushAsk(q, Pr(s, q)));
    OtherSettled(s, Enqueue(s, r), q);
  }

  lemma EnqueueAsk(s: State, r: Rpc, a: Ask)
    requires Inv(s) && Pr(s, r).at == Idle
    ensures AskOk(Enqueue(s, r), a)
  {
    hide Stream, Roused, Present, Inv;
    OneAsk(s, r, a);
    InMore(s.queue, r, a.who);
    SameHolder(s, Enqueue(s, r), r, a);
  }

  lemma EnqueueGlobal(s: State, r: Rpc)
    requires Inv(s) && Pr(s, r).at == Idle
    ensures Global(Enqueue(s, r))
  {
    hide Stream, Roused, Present, Inv;
    Whole(s, r);
    SameHolder(s, Enqueue(s, r), r, Own(r, 0));
  }

  lemma SendSelf(s: State, r: Rpc, sent: bool, cut: bool)
    requires Inv(s) && Pr(s, r).at == Sending
    ensures Settled(Send(s, r, sent, cut), r)
  {
    hide Stream, Roused, Inv;
    Both(s, r, r);
    NewFlush(s, r);
    SameHolder(s, Send(s, r, sent, cut), r, FlushAsk(r, Pr(Send(s, r, sent, cut), r)));
  }

  lemma SendOther(s: State, r: Rpc, sent: bool, cut: bool, q: Rpc)
    requires Inv(s) && Pr(s, r).at == Sending && q != r
    ensures Settled(Send(s, r, sent, cut), q)
  {
    hide Stream, Roused, Inv, Settled;
    Both(s, r, q);
    Apart(s, r, q);
    SameHolder(s, Send(s, r, sent, cut), q, FlushAsk(q, Pr(s, q)));
    OtherSettled(s, Send(s, r, sent, cut), q);
  }

  lemma SendAsk(s: State, r: Rpc, sent: bool, cut: bool, a: Ask)
    requires Inv(s) && Pr(s, r).at == Sending
    ensures AskOk(Send(s, r, sent, cut), a)
  {
    hide Stream, Roused, Inv;
    OneAsk(s, r, a);
    NoAsks(s, r, a);
    SameHolder(s, Send(s, r, sent, cut), r, a);
  }

  lemma SendGlobal(s: State, r: Rpc, sent: bool, cut: bool)
    requires Inv(s) && Pr(s, r).at == Sending
    ensures Global(Send(s, r, sent, cut))
  {
    hide Stream, Roused, Present, Inv;
    Whole(s, r);
    SameHolder(s, Send(s, r, sent, cut), r, Own(r, 0));
  }

  lemma BeginFlushSelf(s: State, r: Rpc)
    requires Inv(s) && Pr(s, r).at in {Drowsy, Asleep, Awake, Reading} && (Pr(s, r).at == Reading ==> !Pr(s, r).done)
    ensures Settled(BeginFlush(s, r), r)
  {
    hide Stream, Roused, Present, Inv;
    Both(s, r, r);
    NewFlush(s, r);
    SameHolder(s, BeginFlush(s, r), r, FlushAsk(r, Pr(BeginFlush(s, r), r)));
  }

  lemma BeginFlushOther(s: State, r: Rpc, q: Rpc)
    requires Inv(s) && Pr(s, r).at in {Drowsy, Asleep, Awake, Reading} && (Pr(s, r).at == Reading ==> !Pr(s, r).done)
    requires q != r
    ensures Settled(BeginFlush(s, r), q)
  {
    hide Stream, Roused, Present, Inv, Settled;
    Both(s, r, q);
    Apart(s, r, q);
    SameHolder(s, BeginFlush(s, r), q, FlushAsk(q, Pr(s, q)));
    OtherSettled(s, BeginFlush(s, r), q);
  }

  lemma BeginFlushAsk(s: State, r: Rpc, a: Ask)
    requires Inv(s) && Pr(s, r).at in {Drowsy, Asleep, Awake, Reading} && (Pr(s, r).at == Reading ==> !Pr(s, r).done)
    ensures AskOk(BeginFlush(s, r), a)
  {
    hide Stream, Roused, Present, Inv;
    OneAsk(s, r, a);
    SameHolder(s, BeginFlush(s, r), r, a);
  }

  lemma BeginFlushGlobal(s: State, r: Rpc)
    requires Inv(s) && Pr(s, r).at in {Drowsy, Asleep, Awake, Reading} && (Pr(s, r).at == Reading ==> !Pr(s, r).done)
    ensures Global(BeginFlush(s, r))
  {
    hide Stream, Roused, Present, Inv;
    Whole(s, r);
    SameHolder(s, BeginFlush(s, r), r, Own(r, 0));
  }

  lemma WriteFlushSelf(s: State, r: Rpc, sent: bool)
    requires Inv(s) && Pr(s, r).at.Flushing?
    ensures Settled(WriteFlush(s, r, sent), r)
  {
    hide Stream, Roused, Inv;
    Both(s, r, r);
    SameHolder(s, WriteFlush(s, r, sent), r, FlushAsk(r, Pr(WriteFlush(s, r, sent), r)));
  }

  lemma WriteFlushOther(s: State, r: Rpc, sent: bool, q: Rpc)
    requires Inv(s) && Pr(s, r).at.Flushing? && q != r
    ensures Settled(WriteFlush(s, r, sent), q)
  {
    hide Stream, Roused, Inv, Settled;
    Both(s, r, q);
    Apart(s, r, q);
    SameHolder(s, WriteFlush(s, r, sent), q, FlushAsk(q, Pr(s, q)));
    OtherSettled(s, WriteFlush(s, r, sent), q);
  }

  lemma WriteFlushAsk(s: State, r: Rpc, sent: bool, a: Ask)
    requires Inv(s) && Pr(s, r).at.Flushing?
    ensures AskOk(WriteFlush(s, r, sent), a)
  {
    hide Stream, Roused, Inv;
    OneAsk(s, r, a);
    Both(s, r, a.who);
    SameHolder(s, WriteFlush(s, r, sent), r, a);
  }

  lemma WriteFlushGlobal(s: State, r: Rpc, sent: bool)
    requires Inv(s) && Pr(s, r).at.Flushing?
    ensures Global(WriteFlush(s, r, sent))
  {
    hide Stream, Roused, Present, Inv;
    Whole(s, r);
    SameHolder(s, WriteFlush(s, r, sent), r, Own(r, 0));
  }

  lemma PassGateSelf(s: State, r: Rpc)
    requires Inv(s) && Pr(s, r).at == Gate
    ensures Settled(PassGate(s, r), r)
  {
    hide Stream, Roused, Present, Inv;
    Both(s, r, r);
    GateHolder(s, PassGate(s, r), r, FlushAsk(r, Pr(PassGate(s, r), r)));
  }

  lemma PassGateOther(s: State, r: Rpc, q: Rpc)
    requires Inv(s) && Pr(s, r).at == Gate && q != r
    ensures Settled(PassGate(s, r), q)
  {
    hide Stream, Roused, Present, Inv, Settled;
    Both(s, r, q);
    Apart(s, r, q);
    GateHolder(s, PassGate(s, r), q, FlushAsk(q, Pr(s, q)));
    OtherSettled(s, PassGate(s, r), q);
  }

  lemma PassGateAsk(s: State, r: Rpc, a: Ask)
    requires Inv(s) && Pr(s, r).at == Gate
    ensures AskOk(PassGate(s, r), a)
  {
    hide Stream, Roused, Present, Inv;
    OneAsk(s, r, a);
    GateHolder(s, PassGate(s, r), r, a);
  }

  lemma PassGateGlobal(s: State, r: Rpc)
    requires Inv(s) && Pr(s, r).at == Gate
    ensures Global(PassGate(s, r))
  {
    hide Stream, Roused, Present, Inv;
    Whole(s, r);
    GateHolder(s, PassGate(s, r), r, Own(r, 0));
  }

  lemma FallAsleepSelf(s: State, r: Rpc)
    requires Inv(s) && Pr(s, r).at == Drowsy
    ensures Settled(FallAsleep(s, r), r)
  {
    hide Stream, Roused, Present, Inv;
    Both(s, r, r);
    SameHolder(s, FallAsleep(s, r), r, FlushAsk(r, Pr(FallAsleep(s, r), r)));
  }

  lemma FallAsleepOther(s: State, r: Rpc, q: Rpc)
    requires Inv(s) && Pr(s, r).at == Drowsy && q != r
    ensures Settled(FallAsleep(s, r), q)
  {
    hide Stream, Roused, Present, Inv, Settled;
    Both(s, r, q);
    Apart(s, r, q);
    SameHolder(s, FallAsleep(s, r), q, FlushAsk(q, Pr(s, q)));
    OtherSettled(s, FallAsleep(s, r), q);
  }

  lemma FallAsleepAsk(s: State, r: Rpc, a: Ask)
    requires Inv(s) && Pr(s, r).at == Drowsy
    ensures AskOk(FallAsleep(s, r), a)
  {
    hide Stream, Roused, Present, Inv;
    OneAsk(s, r, a);
    SameHolder(s, FallAsleep(s, r), r, a);
  }

  lemma FallAsleepGlobal(s: State, r: Rpc)
    requires Inv(s) && Pr(s, r).at == Drowsy
    ensures Global(FallAsleep(s, r))
  {
    hide Stream, Roused, Present, Inv;
    Whole(s, r);
    SameHolder(s, FallAsleep(s, r), r, Own(r, 0));
  }

  lemma LookSelf(s: State, r: Rpc)
    requires Inv(s) && Pr(s, r).at == Awake
    ensures Settled(Move(s, r, if Pr(s, r).done then Idle else Gate), r)
  {
    hide Stream, Roused, Present, Inv;
    Both(s, r, r);
    SameHolder(s, Move(s, r, if Pr(s, r).done then Idle else Gate), r, FlushAsk(r, Pr(Move(s, r, if Pr(s,
               r).done then Idle else Gate), r)));
  }

  lemma LookOther(s: State, r: Rpc, q: Rpc)
    requires Inv(s) && Pr(s, r).at == Awake && q != r
    ensures Settled(Move(s, r, if Pr(s, r).done then Idle else Gate), q)
  {
    hide Stream, Roused, Present, Inv, Settled;
    Both(s, r, q);
    Apart(s, r, q);
    SameHolder(s, Move(s, r, if Pr(s, r).done then Idle else Gate), q, FlushAsk(q, Pr(s, q)));
    OtherSettled(s, Move(s, r, if Pr(s, r).done then Idle else Gate), q);
  }

  lemma LookAsk(s: State, r: Rpc, a: Ask)
    requires Inv(s) && Pr(s, r).at == Awake
    ensures AskOk(Move(s, r, if Pr(s, r).done then Idle else Gate), a)
  {
    hide Stream, Roused, Present, Inv;
    OneAsk(s, r, a);
    SameHolder(s, Move(s, r, if Pr(s, r).done then Idle else Gate), r, a);
  }

  lemma LookGlobal(s: State, r: Rpc)
    requires Inv(s) && Pr(s, r).at == Awake
    ensures Global(Move(s, r, if Pr(s, r).done then Idle else Gate))
  {
    hide Stream, Roused, Present, Inv;
    Whole(s, r);
    SameHolder(s, Move(s, r, if Pr(s, r).done then Idle else Gate), r, Own(r, 0));
  }

  // ---- the steps of the reader ----

  lemma ReadSelf(s: State, r: Rpc)
    requires Inv(s) && Pr(s, r).at == Reading
    ensures Settled(ReadReply(s, r), r)
  {
    hide Stream, Roused, Present, Inv;
    Both(s, r, r);
    ReadHolder(s, r, r, Own(r, 0));
  }

  lemma ReadOther(s: State, r: Rpc, q: Rpc)
    requires Inv(s) && Pr(s, r).at == Reading && q != r
    ensures Settled(ReadReply(s, r), q)
  {
    hide Stream, Roused, Present, Inv, Settled;
    Both(s, r, q);
    Apart(s, r, q);
    ReadHolder(s, r, q, FlushAsk(q, Pr(s, q)));
    OtherSettled(s, ReadReply(s, r), q);
  }

  lemma ReadAsk(s: State, r: Rpc, a: Ask)
    requires Inv(s) && Pr(s, r).at == Reading
    ensures AskOk(ReadReply(s, r), a)
  {
    hide Stream, Roused, Present, Inv;
    OneAsk(s, r, a);
    ReadHolder(s, r, r, a);
  }

  lemma ReadGlobal(s: State, r: Rpc)
    requires Inv(s) && Pr(s, r).at == Reading
    ensures Global(ReadReply(s, r))
  {
    hide Stream, Roused, Present, Inv;
    Whole(s, r);
    ReadHolder(s, r, r, Own(r, 0));
  }

  lemma ReadHolder(s: State, r: Rpc, q: Rpc, a: Ask)
    requires Pr(s, r).at == Reading && s.rip == Some(r)
    ensures var t := ReadReply(s, r);
            && Stream(t) == Stream(s) && Target(t) == Target(s) && Roused(t, q) == Roused(s, q)
            && Present(t, a) == Present(s, a)
  {
    assert s.wire != [] ==> [s.wire[0]] + s.wire[1..] == s.wire;
  }

  /** The reply the reader holds: if it is for an RPC in the queue, for its present use, and nothing more is
      under way for that; and the reply to a request always is. */
  lemma MuxFacts(s: State, r: Rpc, a: Ask)
    requires Inv(s) && Pr(s, r).at == Muxing(a)
    ensures s.rip == Some(r) && Target(s) == None && !Roused(s, r) && Stream(s) == [a] + s.wire && r in s.queue
    ensures var f := Find(s, s.queue, a.tag);
            && (f.Some? ==>
                  && f.value in s.queue && a.who == f.value && a.gen == Pr(s, f.value).gen
                  && Active(Pr(s, f.value).at) && !Pr(s, f.value).done && Pr(s, f.value).at != Sending
                  && Own(f.value, a.gen) !in s.out && Own(f.value, a.gen) !in s.wire)
            && (!a.flush ==> f.Some?)
  {
    hide Find;
    assert Settled(s, r) && AskOk(s, a);
    assert Stream(s)[0] == a && Present(s, a);
    FindMeans(s, s.queue, a.tag);
    var f := Find(s, s.queue, a.tag);
    if f.Some? {
      assert Settled(s, f.value);
      NoneBehind(s, a);
    } else {
      assert !a.flush ==> Matches(s, a.who, a.tag);
    }
  }

  lemma NoneBehind(s: State, a: Ask)
    requires Distinct(Stream(s)) && Ordered(Stream(s)) && Stream(s) == [a] + s.wire && AskOk(s, a)
    ensures Own(a.who, a.gen) !in s.out && Own(a.who, a.gen) !in s.wire
  {
    assert Stream(s)[0] == a;
    forall j | 0 <= j < |s.wire|
      ensures s.wire[j] != Own(a.who, a.gen)
    {
      assert Stream(s)[j + 1] == s.wire[j];
    }
  }

  lemma MuxHolder(s: State, r: Rpc, a: Ask, q: Rpc, b: Ask)
    requires s.rip == Some(r) && Pr(s, r).at == Muxing(a)
    ensures var t, f := Mux(s, r, a), Find(s, s.queue, a.tag);
            && t.rip == s.rip && Stream(t) == s.wire && Target(t) == (if f.Some? && f.value != r then f else None)
            && !Roused(t, q) && !Roused(s, q) && (Present(t, b) <==> b in s.out || b in s.wire)
            && (Present(s, b) <==> b in s.out || b in [a] + s.wire)
  {
    hide Find, Except;
  }

  lemma MuxSelf(s: State, r: Rpc, a: Ask)
    requires Inv(s) && Pr(s, r).at == Muxing(a)
    ensures Settled(Mux(s, r, a), r)
  {
    hide Stream, Target, Roused, Present, Inv, Find, Except;
    MuxFacts(s, r, a);
    Both(s, r, r);
    Whole(s, r);
    MuxHolder(s, r, a, r, FlushAsk(r, Pr(s, r)));
    ExceptMeans(s.queue, r);
    if Find(s, s.queue, a.tag).Some? {
      ExceptMeans(s.queue, Find(s, s.queue, a.tag).value);
    }
  }

  lemma MuxOther(s: State, r: Rpc, a: Ask, q: Rpc)
    requires Inv(s) && Pr(s, r).at == Muxing(a) && q != r
    ensures Settled(Mux(s, r, a), q)
  {
    hide Stream, Target, Roused, Present, Inv, Find, Except;
    MuxFacts(s, r, a);
    Both(s, r, q);
    Whole(s, r);
    MuxHolder(s, r, a, q, FlushAsk(q, Pr(s, q)));
    if Find(s, s.queue, a.tag).Some? {
      ExceptMeans(s.queue, Find(s, s.queue, a.tag).value);
    }
  }

  lemma MuxAsk(s: State, r: Rpc, a: Ask, b: Ask)
    requires Inv(s) && Pr(s, r).at == Muxing(a)
    ensures AskOk(Mux(s, r, a), b)
  {
    hide Stream, Target, Roused, Present, Inv, Find, Except;
    MuxFacts(s, r, a);
    OneAsk(s, r, b);
    Whole(s, r);
    MuxHolder(s, r, a, r, b);
    assert b in [a] + s.wire <==> b == a || b in s.wire;
    if Find(s, s.queue, a.tag).Some? {
      ExceptMeans(s.queue, Find(s, s.queue, a.tag).value);
    }
  }

  lemma MuxGlobal(s: State, r: Rpc, a: Ask)
    requires Inv(s) && Pr(s, r).at == Muxing(a)
    ensures Global(Mux(s, r, a))
  {
    hide Stream, Target, Roused, Present, Inv, Find, Except;
    MuxFacts(s, r, a);
    Whole(s, r);
    MuxHolder(s, r, a, r, a);
    TailOk(a, s.wire);
    if Find(s, s.queue, a.tag).Some? {
      ExceptMeans(s.queue, Find(s, s.queue, a.tag).value);
    }
  }

  lemma TailOk(a: Ask, st: seq<Ask>)
    requires Distinct([a] + st) && Ordered([a] + st)
    ensures Distinct(st) && Ordered(st)
  {
    forall i, j | 0 <= i < j < |st|
      ensures st[i] != st[j] && (st[i].flush ==> st[j] != Own(st[i].who, st[i].gen))
    {
      assert ([a] + st)[i + 1] == st[i] && ([a] + st)[j + 1] == st[j];
    }
  }

  // ---- completing another ----

  lemma SwapHolder(s: State, r: Rpc, q: Rpc, a: Ask, x: Rpc, b: Ask)
    requires s.rip == Some(r) && Pr(s, r).at == Swapping(q, a) && q != r
    ensures var t := Swap(s, r, q, a);
            && t.rip == s.rip && Stream(t) == Stream(s) && Target(t) == None && Target(s) == Some(q)
            && (Roused(t, x) <==> x == q) && !Roused(s, x) && Present(t, b) == Present(s, b)
  {}

  lemma SwapFacts(s: State, r: Rpc, q: Rpc, a: Ask)
    requires Inv(s) && Pr(s, r).at == Swapping(q, a)
    ensures s.rip == Some(r) && q != r && a.who == q && a.gen == Pr(s, q).gen && q !in s.queue && r in s.queue
    ensures Active(Pr(s, q).at) && Pr(s, q).at != Sending && !Reader(Pr(s, q).at) && !Pr(s, q).done && !Pr(s, r).done
    ensures HeldIn(s, Pr(s, r).buf) == Some(a) && Pr(s, r).buf != Pr(s, q).buf
  {
    hide Present;
    assert Settled(s, r) && Settled(s, q);
    Apart(s, r, q);
  }

  lemma SwapSelf(s: State, r: Rpc, q: Rpc, a: Ask)
    requires Inv(s) && Pr(s, r).at == Swapping(q, a)
    ensures Settled(Swap(s, r, q, a), r) && Settled(Swap(s, r, q, a), q)
  {
    hide Stream, Target, Roused, Present, Inv;
    SwapFacts(s, r, q, a);
    Both(s, r, q);
    SwapHolder(s, r, q, a, r, FlushAsk(r, Pr(s, r)));
    SwapHolder(s, r, q, a, q, FlushAsk(q, Pr(s, q)));
    var t := Swap(s, r, q, a);
    assert FlushAsk(q, Pr(t, q)) == FlushAsk(q, Pr(s, q)) && FlushAsk(r, Pr(t, r)) == FlushAsk(r, Pr(s, r));
  }

  lemma SwapOther(s: State, r: Rpc, q: Rpc, a: Ask, x: Rpc)
    requires Inv(s) && Pr(s, r).at == Swapping(q, a) && x != r && x != q
    ensures Settled(Swap(s, r, q, a), x)
  {
    hide Stream, Target, Roused, Present, Inv, Settled;
    SwapFacts(s, r, q, a);
    Both(s, r, x);
    Apart(s, r, x);
    Apart(s, q, x);
    SwapHolder(s, r, q, a, x, FlushAsk(x, Pr(s, x)));
    OtherSettled(s, Swap(s, r, q, a), x);
  }

  lemma SwapAsk(s: State, r: Rpc, q: Rpc, a: Ask, b: Ask)
    requires Inv(s) && Pr(s, r).at == Swapping(q, a)
    ensures AskOk(Swap(s, r, q, a), b)
  {
    hide Stream, Target, Roused, Present, Inv;
    SwapFacts(s, r, q, a);
    OneAsk(s, r, b);
    SwapHolder(s, r, q, a, r, b);
  }

  lemma SwapGlobal(s: State, r: Rpc, q: Rpc, a: Ask)
    requires Inv(s) && Pr(s, r).at == Swapping(q, a)
    ensures Global(Swap(s, r, q, a))
  {
    hide Stream, Target, Roused, Present, Inv;
    SwapFacts(s, r, q, a);
    Whole(s, r);
    SwapHolder(s, r, q, a, r, a);
  }

  // ---- waking ----

  /** The caller r goes on to `to` and wakes q. */
  function Rouse(s: State, r: Rpc, to: Place, q: Rpc): State { Wake(Move(s, r, to), q) }

  /** A caller that is about to wake another, and where it goes then. */
  predicate Wakes(s: State, r: Rpc, to: Place, q: Rpc) {
    (Pr(s, r).at == Rousing(q) && to == Reading) || (Pr(s, r).at == Nudging(q) && to == Idle)
  }

  lemma RouseHolder(s: State, r: Rpc, to: Place, q: Rpc, x: Rpc, b: Ask)
    requires Inv(s) && Wakes(s, r, to, q)
    ensures var t := Rouse(s, r, to, q);
            && q != r && t.rip == s.rip && Stream(t) == Stream(s) && Target(t) == Target(s)
            && (x != q && Pr(s, x).at == Asleep && Pr(s, x).done ==> Roused(t, x)) && Present(t, b) == Present(s, b)
  {
    assert Settled(s, r) && Settled(s, q) && Settled(s, x);
    if s.rip.Some? {
      assert Settled(s, s.rip.value);
    }
  }

  lemma RouseSelf(s: State, r: Rpc, to: Place, q: Rpc)
    requires Inv(s) && Wakes(s, r, to, q)
    ensures Settled(Rouse(s, r, to, q), r)
  {
    hide Stream, Target, Roused, Present, Inv;
    Both(s, r, q);
    RouseHolder(s, r, to, q, r, FlushAsk(r, Pr(s, r)));
  }

  lemma RouseRoused(s: State, r: Rpc, to: Place, q: Rpc)
    requires Inv(s) && Wakes(s, r, to, q)
    ensures Settled(Rouse(s, r, to, q), q)
  {
    hide Stream, Target, Roused, Present, Inv;
    Both(s, r, q);
    RouseHolder(s, r, to, q, q, FlushAsk(q, Pr(s, q)));
  }

  lemma RouseOther(s: State, r: Rpc, to: Place, q: Rpc, x: Rpc)
    requires Inv(s) && Wakes(s, r, to, q) && x != r && x != q
    ensures Settled(Rouse(s, r, to, q), x)
  {
    hide Stream, Target, Roused, Present, Inv;
    Both(s, r, x);
    RouseHolder(s, r, to, q, x, FlushAsk(x, Pr(s, x)));
  }

  lemma RouseAsk(s: State, r: Rpc, to: Place, q: Rpc, b: Ask)
    requires Inv(s) && Wakes(s, r, to, q)
    ensures AskOk(Rouse(s, r, to, q), b)
  {
    hide Stream, Target, Roused, Present, Inv;
    OneAsk(s, r, b);
    RouseHolder(s, r, to, q, r, b);
  }

  lemma RouseGlobal(s: State, r: Rpc, to: Place, q: Rpc)
    requires Inv(s) && Wakes(s, r, to, q)
    ensures Global(Rouse(s, r, to, q))
  {
    hide Stream, Roused, Present, Inv;
    Whole(s, r);
    Both(s, r, q);
    RouseHolder(s, r, to, q, r, Own(r, 0));
  }

  // ---- giving up reading ----

  lemma GiveUpHolder(s: State, r: Rpc, x: Rpc, b: Ask)
    requires s.rip == Some(r) && Pr(s, r).at == Gating
    ensures var t := GiveUp(s, r);
            && t.rip == None && Stream(t) == Stream(s) == s.wire && Target(t) == Target(s) == None
            && !Roused(s, x) && Present(t, b) == Present(s, b)
  {
    hide FirstAsleep;
  }

  lemma GiveUpSelf(s: State, r: Rpc)
    requires Inv(s) && Pr(s, r).at == Gating
    ensures Settled(GiveUp(s, r), r)
  {
    hide Stream, Target, Roused, Present, Inv, FirstAsleep;
    Both(s, r, r);
    FirstAsleepMeans(s, s.queue);
    GiveUpHolder(s, r, r, FlushAsk(r, Pr(s, r)));
  }

  lemma GiveUpOther(s: State, r: Rpc, x: Rpc)
    requires Inv(s) && Pr(s, r).at == Gating && x != r
    ensures Settled(GiveUp(s, r), x)
  {
    hide Stream, Target, Roused, Present, Inv, FirstAsleep;
    Both(s, r, x);
    GiveUpHolder(s, r, x, FlushAsk(x, Pr(s, x)));
  }

  lemma GiveUpAsk(s: State, r: Rpc, b: Ask)
    requires Inv(s) && Pr(s, r).at == Gating
    ensures AskOk(GiveUp(s, r), b)
  {
    hide Stream, Target, Roused, Present, Inv, FirstAsleep;
    OneAsk(s, r, b);
    GiveUpHolder(s, r, r, b);
  }

  lemma GiveUpGlobal(s: State, r: Rpc)
    requires Inv(s) && Pr(s, r).at == Gating
    ensures Global(GiveUp(s, r))
  {
    hide Stream, Target, Roused, Present, Inv, FirstAsleep;
    Whole(s, r);
    GiveUpHolder(s, r, r, Own(r, 0));
  }

  // ---- the server ----

  lemma AnswerHolder(s: State, a: Ask, x: Rpc, b: Ask)
    requires a in s.out
    ensures var t := Answer(s, a);
            && Stream(t) == Stream(s) + [a] && Target(t) == Target(s) && Roused(t, x) == Roused(s, x)
            && (b in t.out <==> b in s.out && b != a && !(a.flush && b == Own(a.who, a.gen)))
            && (Present(t, b) ==> Present(s, b))
  {}

  lemma AnswerSettled(s: State, a: Ask, x: Rpc)
    requires Inv(s) && a in s.out
    ensures Settled(Answer(s, a), x)
  {
    hide Stream, Target, Roused, Present, Inv, Settled;
    Both(s, x, x);
    AnswerHolder(s, a, x, FlushAsk(x, Pr(s, x)));
    OtherSettled(s, Answer(s, a), x);
  }

  lemma AnswerAsk(s: State, a: Ask, b: Ask)
    requires Inv(s) && a in s.out
    ensures AskOk(Answer(s, a), b)
  {
    hide Stream, Target, Roused, Inv;
    OneAsk(s, a.who, b);
    OneAsk(s, a.who, a);
    AnswerHolder(s, a, a.who, b);
    AnswerHolder(s, a, a.who, Own(b.who, b.gen));
  }

  lemma AnswerGlobal(s: State, a: Ask)
    requires Inv(s) && a in s.out
    ensures Global(Answer(s, a))
  {
    hide Stream, Roused, Settled;
    AnswerHolder(s, a, a.who, a);
    assert AskOk(s, a);
    forall i | 0 <= i < |Stream(s)|
      ensures Stream(s)[i] != a && (Stream(s)[i].flush ==> a != Own(Stream(s)[i].who, Stream(s)[i].gen))
    {
      assert AskOk(s, Stream(s)[i]) && Stream(s)[i] in Stream(s);
    }
  }

  // ---- any step ----

  lemma GoSettled(s: State, r: Rpc, sent: bool, q: Rpc)
    requires Inv(s)
    ensures Settled(GoStep(s, r, sent), q)
  {
    hide Inv, Settled, Send, PassGate, FallAsleep, WriteFlush, ReadReply, Mux, Swap, Wake, GiveUp;
    match Pr(s, r).at
    case Idle => Both(s, q, q);
    case Asleep => Both(s, q, q);
    case Sending => if q == r { SendSelf(s, r, true, false); } else { SendOther(s, r, true, false, q); }
    case Gate => if q == r { PassGateSelf(s, r); } else { PassGateOther(s, r, q); }
    case Drowsy => if q == r { FallAsleepSelf(s, r); } else { FallAsleepOther(s, r, q); }
    case Awake => if q == r { LookSelf(s, r); } else { LookOther(s, r, q); }
    case Flushing(_) => if q == r { WriteFlushSelf(s, r, sent); } else { WriteFlushOther(s, r, sent, q); }
    case Reading => if q == r { ReadSelf(s, r); } else { ReadOther(s, r, q); }
    case Muxing(a) => if q == r { MuxSelf(s, r, a); } else { MuxOther(s, r, a, q); }
    case Swapping(o, a) => if q == r || q == o { SwapSelf(s, r, o, a); } else { SwapOther(s, r, o, a, q); }
    case Rousing(o) => RouseAny(s, r, Reading, o, q);
    case Gating => if q == r { GiveUpSelf(s, r); } else { GiveUpOther(s, r, q); }
    case Nudging(o) => RouseAny(s, r, Idle, o, q);
  }

  lemma RouseAny(s: State, r: Rpc, to: Place, o: Rpc, q: Rpc)
    requires Inv(s) && Wakes(s, r, to, o)
    ensures Settled(Wake(Move(s, r, to), o), q)
  {
    hide Inv, Settled, Wake;
    if q == r {
      RouseSelf(s, r, to, o);
    } else if q == o {
      RouseRoused(s, r, to, o);
    } else {
      RouseOther(s, r, to, o, q);
    }
  }

  lemma GoAsk(s: State, r: Rpc, sent: bool, b: Ask)
    requires Inv(s)
    ensures AskOk(GoStep(s, r, sent), b)
  {
    hide Inv, AskOk, Send, PassGate, FallAsleep, WriteFlush, ReadReply, Mux, Swap, Wake, GiveUp;
    match Pr(s, r).at
    case Idle => OneAsk(s, r, b);
    case Asleep => OneAsk(s, r, b);
    case Sending => SendAsk(s, r, true, false, b);
    case Gate => PassGateAsk(s, r, b);
    case Drowsy => FallAsleepAsk(s, r, b);
    case Awake => LookAsk(s, r, b);
    case Flushing(_) => WriteFlushAsk(s, r, sent, b);
    case Reading => ReadAsk(s, r, b);
    case Muxing(a) => MuxAsk(s, r, a, b);
    case Swapping(o, a) => SwapAsk(s, r, o, a, b);
    case Rousing(o) => RouseAsk(s, r, Reading, o, b);
    case Gating => GiveUpAsk(s, r, b);
    case Nudging(o) => RouseAsk(s, r, Idle, o, b);
  }

  lemma GoGlobal(s: State, r: Rpc, sent: bool)
    requires Inv(s)
    ensures Global(GoStep(s, r, sent))
  {
    hide Inv, Global, Send, PassGate, FallAsleep, WriteFlush, ReadReply, Mux, Swap, Wake, GiveUp;
    match Pr(s, r).at
    case Idle => Whole(s, r);
    case Asleep => Whole(s, r);
    case Sending => SendGlobal(s, r, true, false);
    case Gate => PassGateGlobal(s, r);
    case Drowsy => FallAsleepGlobal(s, r);
    case Awake => LookGlobal(s, r);
    case Flushing(_) => WriteFlushGlobal(s, r, sent);
    case Reading => ReadGlobal(s, r);
    case Muxing(a) => MuxGlobal(s, r, a);
    case Swapping(o, a) => SwapGlobal(s, r, o, a);
    case Rousing(o) => RouseGlobal(s, r, Reading, o);
    case Gating => GiveUpGlobal(s, r);
    case Nudging(o) => RouseGlobal(s, r, Idle, o);
  }

  lemma InterruptInv(s: State, r: Rpc, sent: bool, q: Rpc, b: Ask)
    requires Inv(s)
    ensures var t := InterruptStep(s, r, sent); Settled(t, q) && AskOk(t, b) && Global(t)
  {
    hide Inv, Settled, AskOk, Global, Send, BeginFlush;
    var at := Pr(s, r).at;
    if at == Sending {
      if q == r { SendSelf(s, r, sent, true); } else { SendOther(s, r, sent, true, q); }
      SendAsk(s, r, sent, true, b);
      SendGlobal(s, r, sent, true);
    } else if at in {Drowsy, Asleep, Awake, Reading} && (at == Reading ==> !Pr(s, r).done) {
      if q == r { BeginFlushSelf(s, r); } else { BeginFlushOther(s, r, q); }
      BeginFlushAsk(s, r, b);
      BeginFlushGlobal(s, r);
    } else {
      Both(s, r, q);
      OneAsk(s, r, b);
      Whole(s, r);
    }
  }

  lemma NextKeeps(s: State, e: Step, q: Rpc, b: Ask)
    requires Inv(s)
    ensures var t := Next(s, e); Settled(t, q) && AskOk(t, b) && Global(t)
  {
    hide Inv, Settled, AskOk, Global, Enqueue, GoStep, InterruptStep, Answer;
    Both(s, q, q);
    OneAsk(s, q, b);
    Whole(s, q);
    match e
    case Call(r) =>
      if Pr(s, r).at == Idle {
        if q == r { EnqueueSelf(s, r); } else { EnqueueOther(s, r, q); }
        EnqueueAsk(s, r, b);
        EnqueueGlobal(s, r);
      }
    case Go(r, sent) =>
      GoSettled(s, r, sent, q);
      GoAsk(s, r, sent, b);
      GoGlobal(s, r, sent);
    case Interrupt(r, sent) => InterruptInv(s, r, sent, q, b);
    case Reply(a) =>
      if a in s.out {
        AnswerSettled(s, a, q);
        AnswerAsk(s, a, b);
        AnswerGlobal(s, a);
      }
  }

  lemma NextInv(s: State, e: Step)
    requires Inv(s)
    ensures Inv(Next(s, e))
  {
    hide Settled, AskOk, Global, Next;
    var t := Next(s, e);
    NextKeeps(s, e, 0, Own(0, 0));
    forall q: Rpc
      ensures Settled(t, q)
    {
      NextKeeps(s, e, q, Own(0, 0));
    }
    forall b: Ask
      ensures AskOk(t, b)
    {
      NextKeeps(s, e, 0, b);
    }
  }

  /** The invariant holds after every interleaving of steps of the callers and of the server. */
  lemma {:induction false} RunInv(es: seq<Step>)
    ensures Inv(Run(MOUNTED, es))
  {
    hide Inv, Next;
    if es == [] {
      MountedInv();
    } else {
      RunInv(es[..|es| - 1]);
      NextInv(Run(MOUNTED, es[..|es| - 1]), es[|es| - 1]);
    }
  }

  // ---- what it means ----

  /** At most one caller reads the channel. */
  lemma OneReader(s: State, p: Rpc, q: Rpc)
    requires Inv(s) && Reader(Pr(s, p).at) && Reader(Pr(s, q).at)
    ensures p == q
  {
    assert Settled(s, p) && Settled(s, q);
  }

  /** No two RPCs ever share a buffer, for all the swapping. */
  lemma BuffersApart(s: State, p: Rpc, q: Rpc)
    requires Inv(s) && p != q
    ensures Pr(s, p).buf != Pr(s, q).buf
  {
    Apart(s, p, q);
  }

  /** A call that returns has a reply to this very request, or to a flush of it, and the buffer it has by
      then holds that reply. */
  lemma RightReply(s: State, r: Rpc)
    requires Inv(s) && Active(Pr(s, r).at) && Pr(s, r).done
    ensures var p := Pr(s, r);
            && p.reply.Some? && p.reply.value.who == r && p.reply.value.gen == p.gen
            && HeldIn(s, p.buf) == p.reply && r !in s.queue
  {
    assert Settled(s, r);
  }

  /** A call is completed by a reply with its own tag, or with the tag of the last flush it sent. */
  lemma CompletedByTag(s: State, r: Rpc, a: Ask)
    requires Inv(s) && Pr(s, r).at == Muxing(a) && Find(s, s.queue, a.tag).Some?
    ensures var q := Find(s, s.queue, a.tag).value;
            || a == Own(q, Pr(s, q).gen)
            || (a.flush && Pr(s, q).flush == Some(a.tag) && a.who == q && a.gen == Pr(s, q).gen)
  {
    MuxFacts(s, r, a);
    FindMeans(s, s.queue, a.tag);
    assert Stream(s)[0] == a && AskOk(s, a);
  }

  /** No reply to a request is thrown away: the caller is still waiting for it. */
  lemma ReplyFindsCaller(s: State, r: Rpc, a: Ask)
    requires Inv(s) && Pr(s, r).at == Muxing(a) && !a.flush
    ensures Find(s, s.queue, a.tag) == Some(a.who)
  {
    MuxFacts(s, r, a);
  }

  /** An RPC that is completed is on the queue once, and then no more. */
  lemma LeavesOnce(s: State, r: Rpc, a: Ask)
    requires Inv(s) && Pr(s, r).at == Muxing(a)
    ensures var f, t := Find(s, s.queue, a.tag), Next(s, Go(r, true));
            f.Some? ==> f.value in s.queue && f.value !in t.queue && |t.queue| == |s.queue| - 1
  {
    MuxFacts(s, r, a);
    var f := Find(s, s.queue, a.tag);
    if f.Some? {
      ExceptMeans(s.queue, f.value);
      ExceptLength(s.queue, f.value);
    }
  }

  // ---- nobody is forgotten ----

  /** The caller will come to the gate, or wake one that will. */
  predicate Comes(s: State, c: Rpc) {
    var p := Pr(s, c);
    || (p.at in {Sending, Gate, Drowsy, Awake, Flushing(false)} && !p.done)
    || (p.at.Nudging? && Sleeps(s, p.at.q))
  }

  /** While nobody reads, no caller sleeps without another coming to read. */
  ghost predicate Hope(s: State) {
    s.rip == None && (exists q: Rpc :: Sleeps(s, q)) ==> exists c: Rpc :: Comes(s, c)
  }

  /** While nobody reads, a step changes its caller, and perhaps wakes a sleeper. */
  lemma QuietStep(s: State, r: Rpc, sent: bool, x: Rpc)
    requires Inv(s) && s.rip == None && x != r
    ensures var t := GoStep(s, r, sent);
            Pr(t, x) == Pr(s, x) || (Pr(s, x).at == Asleep && Pr(t, x) == Pr(s, x).(at := Awake))
    ensures Pr(InterruptStep(s, r, sent), x) == Pr(s, x)
  {
    hide Inv, Settled, AskOk, Find, Except, FirstAsleep;
    NoReader(s, r);
  }

  lemma OwnStep(s: State, c: Rpc, sent: bool)
    requires Inv(s) && s.rip == None && Comes(s, c) && GoStep(s, c, sent).rip == None
    ensures Comes(GoStep(s, c, sent), c) || (Pr(s, c).at.Nudging? && Comes(GoStep(s, c, sent), Pr(s, c).at.q))
  {
    hide Inv, Settled, AskOk, ReadReply, Mux, Swap, GiveUp;
    NudgesAnother(s, c);
  }

  lemma NudgesAnother(s: State, c: Rpc)
    requires Inv(s)
    ensures Pr(s, c).at.Nudging? ==> Pr(s, c).at.q != c
  {
    assert Settled(s, c);
  }

  lemma OwnInterrupt(s: State, c: Rpc, sent: bool)
    requires Inv(s) && s.rip == None && (Comes(s, c) || Sleeps(s, c))
    ensures Comes(InterruptStep(s, c, sent), c)
  {
    hide Inv, Settled, AskOk;
    NoReader(s, c);
    NudgesAnother(s, c);
  }

  /** Who comes to read still comes, or another in its place, until there is a reader. */
  lemma ComesStays(s: State, e: Step, c: Rpc) returns (c': Rpc)
    requires Inv(s) && s.rip == None && Next(s, e).rip == None && Comes(s, c)
    ensures Comes(Next(s, e), c')
  {
    hide Inv, GoStep, InterruptStep;
    NudgesAnother(s, c);
    var d := if Pr(s, c).at.Nudging? then Pr(s, c).at.q else c;
    match e
    case Go(r, sent) => c' := ComesOn(s, r, sent, c, d);
    case Interrupt(r, sent) => c' := ComesStill(s, r, sent, c, d);
    case Call(r) =>
      var t := Next(s, e);
      assert Pr(t, c) == Pr(s, c) && Pr(t, d) == Pr(s, d);
      c' := c;
    case Reply(a) =>
      var t := Next(s, e);
      assert Pr(t, c) == Pr(s, c) && Pr(t, d) == Pr(s, d);
      c' := c;
  }

  lemma ComesOn(s: State, r: Rpc, sent: bool, c: Rpc, d: Rpc) returns (c': Rpc)
    requires Inv(s) && s.rip == None && GoStep(s, r, sent).rip == None && Comes(s, c)
    requires d == if Pr(s, c).at.Nudging? then Pr(s, c).at.q else c
    ensures Comes(GoStep(s, r, sent), c')
  {
    hide Inv, GoStep;
    NudgesAnother(s, c);
    SleepsOn(s, r, sent);
    if r == c {
      OwnStep(s, c, sent);
    } else {
      QuietStep(s, r, sent, c);
      if r != d {
        QuietStep(s, r, sent, d);
      }
    }
    c' := if Comes(GoStep(s, r, sent), c) then c else d;
  }

  lemma ComesStill(s: State, r: Rpc, sent: bool, c: Rpc, d: Rpc) returns (c': Rpc)
    requires Inv(s) && s.rip == None && InterruptStep(s, r, sent).rip == None && Comes(s, c)
    requires d == if Pr(s, c).at.Nudging? then Pr(s, c).at.q else c
    ensures Comes(InterruptStep(s, r, sent), c')
  {
    hide Inv, InterruptStep;
    NudgesAnother(s, c);
    if r == c || r == d {
      OwnInterrupt(s, r, sent);
    }
    if r != c {
      QuietStep(s, r, sent, c);
    }
    if r != d {
      QuietStep(s, r, sent, d);
    }
    c' := if Comes(InterruptStep(s, r, sent), c) then c else d;
  }

  lemma SleepsOn(s: State, d: Rpc, sent: bool)
    ensures Pr(s, d).at == Asleep ==> GoStep(s, d, sent) == s
  {
    hide Find, Except, FirstAsleep;
  }

  lemma NoReader(s: State, r: Rpc)
    requires Inv(s) && s.rip == None
    ensures !Reader(Pr(s, r).at)
  {
    assert Settled(s, r);
  }

  /** Nobody falls asleep while nobody reads. */
  lemma SleptBefore(s: State, e: Step, q: Rpc)
    requires Inv(s) && s.rip == None && Sleeps(Next(s, e), q)
    ensures Sleeps(s, q)
  {
    hide Inv, Settled, AskOk, Find, Except, FirstAsleep;
    if e.Go? {
      NoReader(s, e.r);
    }
  }

  /** Giving up reading, the reader sees to it that the first sleeper wakes. */
  lemma GiveUpNudges(s: State, e: Step, q: Rpc) returns (c: Rpc)
    requires Inv(s) && s.rip.Some? && Next(s, e).rip == None && Sleeps(Next(s, e), q)
    ensures Comes(Next(s, e), c)
  {
    hide AskOk, Find, Except, FirstAsleep, Target, Present;
    c := s.rip.value;
    assert Settled(s, c) && Settled(s, q);
    StaysReader(s, e);
    FirstAsleepMeans(s, s.queue);
    GiveUpHolder(s, c, q, Own(0, 0));
    assert q in s.queue;
  }

  lemma StaysReader(s: State, e: Step)
    requires Inv(s) && s.rip.Some? && Next(s, e).rip == None
    ensures e.Go? && e.r == s.rip.value && Pr(s, e.r).at == Gating
  {
    hide FirstAsleep, Find, Except, Inv, Settled;
    if e.Go? {
      Both(s, e.r, e.r);
    }
  }

  lemma HopeStays(s: State, e: Step)
    requires Inv(s) && Hope(s)
    ensures Hope(Next(s, e))
  {
    hide Inv, Next, Comes, Sleeps;
    var t := Next(s, e);
    if t.rip == None && exists q: Rpc :: Sleeps(t, q) {
      var q: Rpc :| Sleeps(t, q);
      if s.rip.Some? {
        var c := GiveUpNudges(s, e, q);
      } else {
        SleptBefore(s, e, q);
        var c: Rpc :| Comes(s, c);
        var c' := ComesStays(s, e, c);
      }
    }
  }

  lemma DoneSleeper(s: State, q: Rpc)
    requires Inv(s) && Pr(s, q).at == Asleep && Pr(s, q).done
    ensures Roused(s, q)
  {
    assert Settled(s, q);
  }

  /** In no run is a sleeper forgotten: while nobody reads, some caller is on its way to; and a sleeper that
      is done is about to be woken by the reader. */
  lemma {:induction false} NobodyForgotten(es: seq<Step>, q: Rpc)
    ensures var s := Run(MOUNTED, es);
            Hope(s) && (Pr(s, q).at == Asleep && Pr(s, q).done ==> Roused(s, q))
  {
    hide Inv, Next, Comes, Sleeps, Roused;
    RunInv(es);
    if Pr(Run(MOUNTED, es), q).at == Asleep && Pr(Run(MOUNTED, es), q).done {
      DoneSleeper(Run(MOUNTED, es), q);
    }
    if es == [] {
      NoneSleeps();
    } else {
      NobodyForgotten(es[..|es| - 1], q);
      RunInv(es[..|es| - 1]);
      HopeStays(Run(MOUNTED, es[..|es| - 1]), es[|es| - 1]);
    }
  }

  lemma NoneSleeps()
    ensures Hope(MOUNTED)
  {}
}
