/** The reader/writer lock. Every section under a spin lock is one step, as is taking the spin lock l of
    the reader count or the spin lock of k; the steps of any number of procs interleave. */
module ReaderWriter {
  import opened Sequences
  import opened Procs
  import opened QueueLocks

  /** Where a proc is in `rlock`, `runlock`, `wlock` and `wunlock`. */
  datatype Place =
    | Out
    | RWait     // rlock: queued for x
    | RHasX     // about to take l
    | RInL      // about to count itself
    | RCounted  // canqlock: about to try the spin lock of k
    | RUse      // canqlock: in the spin lock of k
    | RDoneK    // about to leave l
    | RLeaving  // about to leave x
    | Reading
    | ULock     // runlock: in l, about to count itself out
    | ULast     // qunlock: about to take the spin lock of k
    | UUse      // qunlock: in the spin lock of k
    | UDone     // about to leave l
    | WWait     // wlock: queued for x
    | WHasX     // qlock: about to take the spin lock of k
    | WUse      // qlock: in the spin lock of k
    | WWaitK    // queued for k
    | Writing
    | VUse      // wunlock: in the spin lock of k
    | VX        // about to leave x

  /** Who has k, as history: the readers together, or one writer. */
  datatype Owner = Free | Readers | Writer(p: Proc)

  /** The lock, and the places of the procs. History: who has x, who has k, the procs counted in
      `readers`, and who came to queue for x and who was let through, in order. */
  datatype State = State(x: Lock, k: Lock, l: Option<Proc>, use: Option<Proc>, readers: int, places: map<Proc, Place>,
                         xh: Option<Proc>, ko: Owner, inside: set<Proc>, came: seq<Proc>, through: seq<Proc>)

  function At(s: State, p: Proc): Place {
    if p in s.places then s.places[p] else Out
  }

  function Put(s: State, p: Proc, at: Place): State { s.(places := s.places[p := at]) }

  datatype Step = Read(p: Proc) | TryRead(p: Proc) | Write(p: Proc) | Go(p: Proc)

  /** `qlock(&l->x)`. */
  function EnterX(s: State, p: Proc, has: Place, waits: Place): State {
    var t := s.(x := Enter(s.x, p));
    if s.x.locked then Put(t, p, waits).(came := s.came + [p]) else Put(t, p, has).(xh := Some(p))
  }

  /** `canqlock(&l->x)`; it may also fail on the spin lock, and then changes nothing. */
  function TryX(s: State, p: Proc): State {
    if s.x.locked then s else EnterX(s, p, RHasX, RWait)
  }

  /** `qunlock(&l->x)`. */
  function LeaveX(s: State, p: Proc, to: Place): State {
    var t := Put(s.(x := Leave(s.x)), p, to);
    match Heir(s.x)
    case None => t.(xh := None)
    case Some(q) => Put(t, q, if At(s, q) == RWait then RHasX else WHasX).(xh := Some(q), through := s.through + [q])
  }

  /** `qlock(&l->k)`, in its spin lock. */
  function EnterK(s: State, p: Proc): State {
    var t := s.(k := Enter(s.k, p), use := None);
    if s.k.locked then Put(t, p, WWaitK) else Put(t, p, Writing).(ko := Writer(p))
  }

  /** `canqlock(&l->k)`, in its spin lock. */
  function TryK(s: State, p: Proc): State {
    var t := Put(s.(use := None), p, RDoneK);
    if s.k.locked then t else t.(k := Enter(s.k, p), ko := Readers)
  }

  /** `qunlock(&l->k)`, in its spin lock. */
  function LeaveK(s: State, p: Proc, to: Place): State {
    var t := Put(s.(k := Leave(s.k), use := None), p, to);
    match Heir(s.k)
    case None => t.(ko := Free)
    case Some(q) => Put(t, q, Writing).(ko := Writer(q))
  }

  function CountIn(s: State, p: Proc): State {
    Put(s, p, RCounted).(readers := s.readers + 1, inside := s.inside + {p})
  }

  function CountOut(s: State, p: Proc): State {
    Put(s, p, if s.readers - 1 == 0 then ULast else UDone).(readers := s.readers - 1, inside := s.inside - {p})
  }

  /** Taking the spin lock l, or that of k. */
  function TakeL(s: State, p: Proc, to: Place): State {
    if s.l == None then Put(s, p, to).(l := Some(p)) else s
  }

  function TakeUse(s: State, p: Proc, to: Place): State {
    if s.use == None then Put(s, p, to).(use := Some(p)) else s
  }

  /** The next step of a proc that is in one of the calls, or begins to leave the lock. If `canqlock`
      cannot take the spin lock of k, `rlock` goes on as if it had. */
  function GoStep(s: State, p: Proc): State {
    match At(s, p)
    case RHasX => TakeL(s, p, RInL)
    case RInL => CountIn(s, p)
    case RCounted => if s.use == None then TakeUse(s, p, RUse) else Put(s, p, RDoneK)
    case RUse => TryK(s, p)
    case RDoneK => Put(s, p, RLeaving).(l := None)
    case RLeaving => LeaveX(s, p, Reading)
    case Reading => TakeL(s, p, ULock)
    case ULock => CountOut(s, p)
    case ULast => TakeUse(s, p, UUse)
    case UUse => LeaveK(s, p, UDone)
    case UDone => Put(s, p, Out).(l := None)
    case WHasX => TakeUse(s, p, WUse)
    case WUse => EnterK(s, p)
    case Writing => TakeUse(s, p, VUse)
    case VUse => LeaveK(s, p, VX)
    case VX => LeaveX(s, p, Out)
    case _ => s
  }

  function Next(s: State, e: Step): State {
    match e
    case Read(p) => if At(s, p) == Out then EnterX(s, p, RHasX, RWait) else s
    case TryRead(p) => if At(s, p) == Out then TryX(s, p) else s
    case Write(p) => if At(s, p) == Out then EnterX(s, p, WHasX, WWait) else s
    case Go(p) => GoStep(s, p)
  }

  /** Any interleaving of steps. */
  function Run(s: State, es: seq<Step>): State {
    if es == [] then s else Next(Run(s, es[..|es| - 1]), es[|es| - 1])
  }

  const FRESH := State(Lock(false, []), Lock(false, []), None, None, 0, map[], None, Free, {}, [], [])

  // ---- the invariant ----

  predicate HasX(at: Place) { at in {RHasX, RInL, RCounted, RUse, RDoneK, RLeaving, WHasX, WUse, WWaitK, Writing,
                 VUse, VX} }

  predicate HasL(at: Place) { at in {RInL, RCounted, RUse, RDoneK, ULock, ULast, UUse, UDone} }

  predicate HasUse(at: Place) { at in {RUse, UUse, WUse, VUse} }

  predicate Counted(at: Place) { at in {RCounted, RUse, RDoneK, RLeaving, Reading, ULock} }

  /** Counted, and past `canqlock`. */
  predicate Settles(at: Place) { at in {RDoneK, RLeaving, Reading, ULock} }

  predicate LastOut(at: Place) { at in {ULast, UUse} }

  /** What holds of every proc. */
  ghost predicate Settled(s: State, q: Proc) {
    && (HasX(At(s, q)) <==> s.xh == Some(q))
    && (HasL(At(s, q)) <==> s.l == Some(q))
    && (HasUse(At(s, q)) <==> s.use == Some(q))
    && (q in s.x.queue <==> At(s, q) in {RWait, WWait})
    && (q in s.k.queue <==> At(s, q) == WWaitK)
    && (q in s.inside <==> Counted(At(s, q)))
    && (At(s, q) in {Writing, VUse} <==> s.ko == Writer(q))
    && (Settles(At(s, q)) ==> s.ko == Readers)
    && (LastOut(At(s, q)) ==> s.ko == Readers && s.inside == {})
  }

  ghost predicate Global(s: State) {
    && (s.x.locked <==> s.xh.Some?) && NoDup(s.x.queue) && (s.x.queue != [] ==> s.x.locked)
    && (s.k.locked <==> s.ko != Free) && NoDup(s.k.queue) && (s.k.queue != [] ==> s.ko == Readers)
    && (forall q :: q in s.k.queue ==> s.xh == Some(q))
    && s.readers == |s.inside|
    && (s.ko == Free ==> forall q :: q in s.inside ==> s.xh == Some(q) && s.l == Some(q))
    && (s.ko == Readers ==> s.inside != {} || (s.l.Some? && LastOut(At(s, s.l.value))))
    && (s.ko.Writer? ==> s.inside == {} && s.xh == Some(s.ko.p))
    && s.came == s.through + s.x.queue
  }

  /** The procs that a step looks at. */
  ghost predicate Anchored(s: State) {
    && (s.xh.Some? ==> Settled(s, s.xh.value))
    && (s.l.Some? ==> Settled(s, s.l.value))
    && (s.use.Some? ==> Settled(s, s.use.value))
    && (s.x.queue != [] ==> Settled(s, s.x.queue[0]))
    && (s.k.queue != [] ==> Settled(s, s.k.queue[0]))
  }

  ghost predicate Inv(s: State) {
    Global(s) && forall q: Proc {:trigger Settled(s, q)} :: Settled(s, q)
  }

  lemma FreshInv()
    ensures Inv(FRESH)
  {}

  // ---- every step keeps it ----

  /** What a step of p rests on. */
  ghost predicate Ready(s: State, p: Proc) {
    Global(s) && Anchored(s) && Settled(s, p)
  }

  lemma EnterXSettled(s: State, p: Proc, has: Place, waits: Place, q: Proc)
    requires Ready(s, p) && Settled(s, q) && At(s, p) == Out && (has, waits) in {(RHasX, RWait), (WHasX, WWait)}
    ensures Settled(EnterX(s, p, has, waits), q)
  {
    InMore(s.x.queue, p, q);
  }

  lemma EnterXGlobal(s: State, p: Proc, has: Place, waits: Place)
    requires Ready(s, p) && At(s, p) == Out && (has, waits) in {(RHasX, RWait), (WHasX, WWait)}
    ensures Global(EnterX(s, p, has, waits))
  {
    InMore(s.x.queue, p, p);
  }

  lemma LeaveXSettled(s: State, p: Proc, to: Place, q: Proc)
    requires Ready(s, p) && Settled(s, q) && (At(s, p), to) in {(RLeaving, Reading), (VX, Out)}
    ensures Settled(LeaveX(s, p, to), q)
  {
    if s.x.queue != [] {
      InTail(s.x.queue, q);
    }
  }

  lemma LeaveXGlobal(s: State, p: Proc, to: Place)
    requires Ready(s, p) && (At(s, p), to) in {(RLeaving, Reading), (VX, Out)}
    ensures Global(LeaveX(s, p, to))
  {
    if s.x.queue != [] {
      InTail(s.x.queue, p);
    }
  }

  lemma EnterKSettled(s: State, p: Proc, q: Proc)
    requires Ready(s, p) && Settled(s, q) && At(s, p) == WUse
    ensures Settled(EnterK(s, p), q)
  {
    NoneWaits(s, p);
  }

  lemma EnterKGlobal(s: State, p: Proc)
    requires Ready(s, p) && At(s, p) == WUse
    ensures Global(EnterK(s, p))
  {
    NoneWaits(s, p);
  }

  /** At most one writer waits for k, the one that has x. */
  lemma OneWaits(s: State)
    requires Global(s)
    ensures s.k.queue != [] ==> s.k.queue == [s.k.queue[0]] && s.xh == Some(s.k.queue[0])
  {
    forall i | 0 <= i < |s.k.queue|
      ensures s.xh == Some(s.k.queue[i])
    {
      assert s.k.queue[i] in s.k.queue;
    }
    Distinct(s.k.queue);
  }

  lemma Distinct(q: seq<Proc>)
    requires NoDup(q)
    ensures |q| > 1 ==> q[0] != q[1]
  {}

  lemma NoneWaits(s: State, p: Proc)
    requires Ready(s, p) && HasX(At(s, p)) && At(s, p) != WWaitK
    ensures s.k.queue == []
  {
    OneWaits(s);
  }

  lemma TryKSettled(s: State, p: Proc, q: Proc)
    requires Ready(s, p) && Settled(s, q) && At(s, p) == RUse
    ensures Settled(TryK(s, p), q)
  {}

  lemma TryKGlobal(s: State, p: Proc)
    requires Ready(s, p) && At(s, p) == RUse
    ensures Global(TryK(s, p))
  {}

  lemma LeaveKSettled(s: State, p: Proc, to: Place, q: Proc)
    requires Ready(s, p) && Settled(s, q) && (At(s, p), to) in {(UUse, UDone), (VUse, VX)}
    ensures Settled(LeaveK(s, p, to), q)
  {
    OneWaits(s);
  }

  lemma LeaveKGlobal(s: State, p: Proc, to: Place)
    requires Ready(s, p) && (At(s, p), to) in {(UUse, UDone), (VUse, VX)}
    ensures Global(LeaveK(s, p, to))
  {
    OneWaits(s);
  }

  lemma CountInKeeps(s: State, p: Proc, q: Proc)
    requires Ready(s, p) && Settled(s, q) && At(s, p) == RInL
    ensures Settled(CountIn(s, p), q) && Global(CountIn(s, p))
  {}

  lemma CountOutSettled(s: State, p: Proc, q: Proc)
    requires Ready(s, p) && Settled(s, q) && At(s, p) == ULock
    ensures Settled(CountOut(s, p), q)
  {
    assert p in s.inside && |s.inside - {p}| == |s.inside| - 1;
  }

  lemma CountOutGlobal(s: State, p: Proc)
    requires Ready(s, p) && At(s, p) == ULock
    ensures Global(CountOut(s, p))
  {
    assert p in s.inside && |s.inside - {p}| == |s.inside| - 1;
  }

  lemma TakeLKeeps(s: State, p: Proc, to: Place, q: Proc)
    requires Ready(s, p) && Settled(s, q) && (At(s, p), to) in {(RHasX, RInL), (Reading, ULock)}
    ensures Settled(TakeL(s, p, to), q) && Global(TakeL(s, p, to))
  {}

  lemma TakeUseSettled(s: State, p: Proc, to: Place, q: Proc)
    requires Ready(s, p) && Settled(s, q)
    requires (At(s, p), to) in {(RCounted, RUse), (ULast, UUse), (WHasX, WUse), (Writing, VUse)}
    ensures Settled(TakeUse(s, p, to), q)
  {}

  lemma TakeUseGlobal(s: State, p: Proc, to: Place)
    requires Ready(s, p) && (At(s, p), to) in {(RCounted, RUse), (ULast, UUse), (WHasX, WUse), (Writing, VUse)}
    ensures Global(TakeUse(s, p, to))
  {}

  lemma LeaveLKeeps(s: State, p: Proc, to: Place, q: Proc)
    requires Ready(s, p) && Settled(s, q) && (At(s, p), to) in {(RDoneK, RLeaving), (UDone, Out)}
    ensures Settled(Put(s, p, to).(l := None), q) && Global(Put(s, p, to).(l := None))
  {}

  /** A reader that counted itself finds the spin lock of k free: to hold it a proc must have x or l. */
  lemma UseIsFree(s: State, p: Proc)
    requires Ready(s, p) && At(s, p) == RCounted
    ensures s.use == None
  {}

  lemma NextSettled(s: State, e: Step, q: Proc)
    requires Ready(s, e.p) && Settled(s, q)
    ensures Settled(Next(s, e), q)
  {
    hide Settled, Global, Anchored, Ready, EnterX, LeaveX, EnterK, TryK, LeaveK, CountIn, CountOut, TakeL, TakeUse;
    var p := e.p;
    if !e.Go? {
      if At(s, p) == Out {
        EnterXSettled(s, p, if e.Write? then WHasX else RHasX, if e.Write? then WWait else RWait, q);
      }
    } else {
      match At(s, p)
      case Out =>
      case RWait =>
      case WWait =>
      case WWaitK =>
      case RHasX => TakeLKeeps(s, p, RInL, q);
      case RInL => CountInKeeps(s, p, q);
      case RCounted =>
        UseIsFree(s, p);
        TakeUseSettled(s, p, RUse, q);
      case RUse => TryKSettled(s, p, q);
      case RDoneK => LeaveLKeeps(s, p, RLeaving, q);
      case RLeaving => LeaveXSettled(s, p, Reading, q);
      case Reading => TakeLKeeps(s, p, ULock, q);
      case ULock => CountOutSettled(s, p, q);
      case ULast => TakeUseSettled(s, p, UUse, q);
      case UUse => LeaveKSettled(s, p, UDone, q);
      case UDone => LeaveLKeeps(s, p, Out, q);
      case WHasX => TakeUseSettled(s, p, WUse, q);
      case WUse => EnterKSettled(s, p, q);
      case Writing => TakeUseSettled(s, p, VUse, q);
      case VUse => LeaveKSettled(s, p, VX, q);
      case VX => LeaveXSettled(s, p, Out, q);
    }
  }

  lemma NextGlobal(s: State, e: Step)
    requires Ready(s, e.p)
    ensures Global(Next(s, e))
  {
    hide Settled, Global, Anchored, EnterX, LeaveX, EnterK, TryK, LeaveK, CountIn, CountOut, TakeL, TakeUse;
    var p := e.p;
    if !e.Go? {
      if At(s, p) == Out {
        EnterXGlobal(s, p, if e.Write? then WHasX else RHasX, if e.Write? then WWait else RWait);
      }
    } else {
      match At(s, p)
      case Out =>
      case RWait =>
      case WWait =>
      case WWaitK =>
      case RHasX => TakeLKeeps(s, p, RInL, p);
      case RInL => CountInKeeps(s, p, p);
      case RCounted =>
        UseIsFree(s, p);
        TakeUseGlobal(s, p, RUse);
      case RUse => TryKGlobal(s, p);
      case RDoneK => LeaveLKeeps(s, p, RLeaving, p);
      case RLeaving => LeaveXGlobal(s, p, Reading);
      case Reading => TakeLKeeps(s, p, ULock, p);
      case ULock => CountOutGlobal(s, p);
      case ULast => TakeUseGlobal(s, p, UUse);
      case UUse => LeaveKGlobal(s, p, UDone);
      case UDone => LeaveLKeeps(s, p, Out, p);
      case WHasX => TakeUseGlobal(s, p, WUse);
      case WUse => EnterKGlobal(s, p);
      case Writing => TakeUseGlobal(s, p, VUse);
      case VUse => LeaveKGlobal(s, p, VX);
      case VX => LeaveXGlobal(s, p, Out);
    }
  }

  lemma NextInv(s: State, e: Step)
    requires Inv(s)
    ensures Inv(Next(s, e))
  {
    hide Settled, Global, Next;
    assert Settled(s, e.p) && Anchored(s);
    NextGlobal(s, e);
    forall q: Proc
      ensures Settled(Next(s, e), q)
    {
      assert Settled(s, q);
      NextSettled(s, e, q);
    }
  }

  lemma {:induction false} RunInv(es: seq<Step>)
    ensures Inv(Run(FRESH, es))
  {
    hide Inv, Next;
    if es == [] {
      FreshInv();
    } else {
      RunInv(es[..|es| - 1]);
      NextInv(Run(FRESH, es[..|es| - 1]), es[|es| - 1]);
    }
  }

  // ---- what it means ----

  /** No writer with a reader or with another writer; and a reader has been counted. */
  lemma Exclusion(s: State, p: Proc, q: Proc)
    requires Inv(s) && p != q
    ensures At(s, p) == Writing ==> At(s, q) !in {Writing, Reading}
    ensures At(s, p) in {Reading, Writing} ==> s.k.locked
    ensures At(s, p) == Reading ==> s.readers > 0
  {
    assert Settled(s, p) && Settled(s, q);
  }

  /** The result of `canqlock` may be ignored: its spin lock is always free, so that afterwards k is held,
      and it is the readers who hold it. */
  lemma CanqlockServes(s: State, p: Proc)
    requires Inv(s) && At(s, p) == RCounted
    ensures var t := Next(s, Go(p)); At(t, p) == RUse && var u := Next(t, Go(p)); u.k.locked && u.ko == Readers
  {
    assert Anchored(s) && Settled(s, p);
    UseIsFree(s, p);
    NextInv(s, Go(p));
    NextInv(Next(s, Go(p)), Go(p));
    assert Settled(Next(Next(s, Go(p)), Go(p)), p);
  }

  /** k is never freed while a writer waits for it, nor x while anyone does; and whoever comes to x is let
      through in order. */
  lemma {:induction false} HandedOver(es: seq<Step>)
    ensures var s := Run(FRESH, es);
            && (s.x.queue != [] ==> s.x.locked) && (s.k.queue != [] ==> s.k.locked)
            && s.came == s.through + s.x.queue
  {
    RunInv(es);
  }

  /** The next step of q takes it further. */
  predicate Moves(s: State, q: Proc) { At(GoStep(s, q), q) != At(s, q) }

  lemma UseMoves(s: State, u: Proc)
    requires Inv(s) && s.use == Some(u)
    ensures Moves(s, u)
  {
    assert Settled(s, u) && Anchored(s);
  }

  lemma HolderMoves(s: State, h: Proc) returns (q: Proc)
    requires Inv(s) && s.l == Some(h)
    ensures Moves(s, q)
  {
    assert Settled(s, h);
    q := h;
    if At(s, h) in {RCounted, ULast} && s.use.Some? {
      q := s.use.value;
      UseMoves(s, q);
    }
  }

  lemma InsideMoves(s: State, i: Proc) returns (q: Proc)
    requires Inv(s) && At(s, i) in {Reading, RCounted, RUse, RDoneK, ULock}
    ensures Moves(s, q)
  {
    assert Settled(s, i);
    if s.l.Some? {
      q := HolderMoves(s, s.l.value);
    } else {
      q := i;
    }
  }

  lemma FirstMoves(s: State, h: Proc) returns (q: Proc)
    requires Inv(s) && s.xh == Some(h)
    ensures Moves(s, q)
  {
    assert Settled(s, h) && Anchored(s);
    q := h;
    if At(s, h) == WWaitK {
      if s.l.Some? {
        q := HolderMoves(s, s.l.value);
      } else {
        var i :| i in s.inside;
        assert Settled(s, i);
        q := InsideMoves(s, i);
      }
    } else if s.l.Some? && At(s, h) in {RHasX, RInL, RCounted} {
      q := HolderMoves(s, s.l.value);
    } else if s.use.Some? && At(s, h) in {WHasX, Writing} {
      q := s.use.value;
      UseMoves(s, q);
    } else if s.x.queue != [] {
      assert Settled(s, s.x.queue[0]);
    }
  }

  /** The locks never block each other for good: while any proc is in the lock or waits for it, there is
      one that can take a further step. */
  lemma NoDeadlock(s: State, p: Proc) returns (q: Proc)
    requires Inv(s) && At(s, p) != Out
    ensures Moves(s, q)
  {
    assert Settled(s, p);
    if s.xh.Some? {
      q := FirstMoves(s, s.xh.value);
    } else if s.l.Some? {
      q := HolderMoves(s, s.l.value);
    } else {
      assert p !in s.x.queue;
      q := InsideMoves(s, p);
    }
  }
}
