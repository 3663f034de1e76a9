/**
 The run queue of `emu/dis.c`: the threads of the virtual machine that are ready to run, linked through
 `link`, and the turns in which the interpreter loop runs them.
 */
module VmRunq {
  import opened Sequences
  import opened Procs

  type Prog = Proc

  /** What happens to the queue while a thread runs: `addrun`, `delrunq`, and the push to the front of
      `acquire` and `pushrun`. */
  datatype Event = Add(p: Prog) | Remove(p: Prog) | Push(p: Prog)

  /** A thread that is on the queue is not put there again. */
  function Apply(q: seq<Prog>, e: Event): seq<Prog> {
    match e
    case Add(p) => if p in q then q else q + [p]
    case Remove(p) => Except(q, p)
    case Push(p) => if p in q then q else [p] + q
  }

  function ApplyAll(q: seq<Prog>, es: seq<Event>): seq<Prog>
    decreases |es|
  {
    if es == [] then q else ApplyAll(Apply(q, es[0]), es[1..])
  }

  /** The thread that ran, if it is still in front, goes to the end. */
  function Rotated(q: seq<Prog>, r: Prog): seq<Prog> {
    if q != [] && q[0] == r then q[1..] + [r] else q
  }

  /** One turn of the loop of `vmachine`: the first thread runs. */
  function Turn(q: seq<Prog>, es: seq<Event>): seq<Prog> {
    if q == [] then ApplyAll(q, es) else Rotated(ApplyAll(q, es), q[0])
  }

  /** The queue after i turns. */
  function QueueAt(q: seq<Prog>, turns: seq<seq<Event>>, i: nat): seq<Prog>
    requires i <= |turns|
    decreases i
  {
    if i == 0 then q else QueueAt(Turn(q, turns[0]), turns[1..], i - 1)
  }

  function Pushes(es: seq<Event>): nat {
    if es == [] then 0 else (if es[0].Push? then 1 else 0) + Pushes(es[1..])
  }

  function AllPushes(turns: seq<seq<Event>>): nat {
    if turns == [] then 0 else Pushes(turns[0]) + AllPushes(turns[1..])
  }

  // ---- waiting ----

  /** The threads in front of p. */
  function Ahead(q: seq<Prog>, p: Prog): seq<Prog> {
    if q == [] || q[0] == p then [] else [q[0]] + Ahead(q[1..], p)
  }

  lemma {:induction false} AheadIn(q: seq<Prog>, p: Prog)
    requires NoDup(q) && p in q
    ensures NoDup(Ahead(q, p)) && p !in Ahead(q, p) && (Ahead(q, p) == [] <==> q[0] == p)
    ensures Ahead(q, p) != [] ==> Ahead(q, p)[0] == q[0]
    ensures forall x :: x in Ahead(q, p) ==> x in q
  {
    if q[0] != p {
      InTail(q, p);
      InTail(q, q[0]);
      AheadIn(q[1..], p);
    }
  }

  lemma {:induction false} AheadAdd(q: seq<Prog>, p: Prog, x: Prog)
    requires p in q
    ensures Ahead(q + [x], p) == Ahead(q, p)
  {
    if q[0] != p {
      assert (q + [x])[1..] == q[1..] + [x];
      AheadAdd(q[1..], p, x);
    }
  }

  lemma {:induction false} AheadRemove(q: seq<Prog>, p: Prog, x: Prog)
    requires p in q && x != p
    ensures Ahead(Except(q, x), p) == Except(Ahead(q, p), x)
  {
    if q[0] != p && q[0] != x {
      AheadRemove(q[1..], p, x);
    }
  }

  /** How the queue stands, in a turn of r, for p that was behind k others and has seen n pushes. */
  ghost predicate Waiting(q: seq<Prog>, r: Prog, p: Prog, k: nat, n: nat) {
    && NoDup(q) && p in q && p != r
    && |Ahead(q, p)| <= k - 1 + n + (if r in Ahead(q, p) then 1 else 0)
    && (n == 0 && r in Ahead(q, p) ==> q[0] == r)
  }

  lemma EventKeeps(q: seq<Prog>, e: Event, r: Prog, p: Prog, k: nat, n: nat)
    requires Waiting(q, r, p, k, n) && e != Remove(p)
    ensures Waiting(Apply(q, e), r, p, k, n + if e.Push? then 1 else 0)
  {
    var q', a := Apply(q, e), Ahead(q, p);
    AheadIn(q, p);
    match e {
      case Add(x) =>
        AheadAdd(q, p, x);
        InMore(q, x, p);
      case Push(x) =>
        InMore(q, x, p);
        if x !in q {
          assert q'[1..] == q;
        }
      case Remove(x) =>
        AheadRemove(q, p, x);
        ExceptMeans(q, x);
        ExceptMeans(a, x);
        if x in a {
          ExceptLength(a, x);
        } else {
          ExceptNone(a, x);
        }
    }
  }

  lemma {:induction false} EventsKeep(q: seq<Prog>, es: seq<Event>, r: Prog, p: Prog, k: nat, n: nat)
    requires Waiting(q, r, p, k, n) && Remove(p) !in es
    ensures Waiting(ApplyAll(q, es), r, p, k, n + Pushes(es))
    decreases |es|
  {
    hide Waiting, Apply;
    if es != [] {
      EventKeeps(q, es[0], r, p, k, n);
      EventsKeep(Apply(q, es[0]), es[1..], r, p, k, n + if es[0].Push? then 1 else 0);
    }
  }

  /** In every turn of another a waiting thread comes at least one place nearer, but for those pushed in
      front of it, each of which may cost two. */
  lemma TurnNearer(q: seq<Prog>, es: seq<Event>, p: Prog)
    requires NoDup(q) && p in q && q[0] != p && Remove(p) !in es
    ensures var q' := Turn(q, es);
            NoDup(q') && p in q' && |Ahead(q', p)| <= |Ahead(q, p)| - 1 + 2 * Pushes(es)
  {
    hide NoDup, ApplyAll, Pushes;
    var r, k := q[0], |Ahead(q, p)|;
    AheadIn(q, p);
    assert Ahead(q, p)[0] == r;
    EventsKeep(q, es, r, p, k, 0);
    var t := ApplyAll(q, es);
    AheadIn(t, p);
    if t[0] == r {
      RotatedNearer(t, p);
    }
  }

  lemma RotatedNearer(t: seq<Prog>, p: Prog)
    requires NoDup(t) && p in t && t[0] != p
    ensures var q := Rotated(t, t[0]); NoDup(q) && p in q && |Ahead(q, p)| == |Ahead(t, p)| - 1
  {
    InTail(t, p);
    InTail(t, t[0]);
    InMore(t[1..], t[0], p);
    AheadAdd(t[1..], p, t[0]);
  }

  /** A thread that stays ready runs, at the latest, after as many turns as there are threads before it, and
      two for every one pushed in front. */
  lemma {:induction false} Served(q: seq<Prog>, turns: seq<seq<Event>>, p: Prog) returns (i: nat)
    requires NoDup(q) && p in q && forall t :: t in turns ==> Remove(p) !in t
    requires |turns| >= |Ahead(q, p)| + 2 * AllPushes(turns)
    ensures i <= |turns| && i <= |Ahead(q, p)| + 2 * AllPushes(turns)
    ensures QueueAt(q, turns, i) != [] && QueueAt(q, turns, i)[0] == p
    decreases |turns|
  {
    AheadIn(q, p);
    if q[0] == p {
      i := 0;
    } else {
      TurnNearer(q, turns[0], p);
      i := Served(Turn(q, turns[0]), turns[1..], p);
      i := i + 1;
    }
  }

  // ---- the linked queue ----

  /** The last thread once thread k is taken out. */
  lemma LastLeft(q: seq<Prog>, k: nat)
    requires NoDup(q) && k < |q|
    ensures var rest := q[..k] + q[k + 1..];
            && (q[k] == q[|q| - 1] <==> k == |q| - 1)
            && (rest == [] <==> |q| == 1)
            && (rest != [] ==> rest[|rest| - 1] == if k == |q| - 1 then q[k - 1] else q[|q| - 1])
  {}

  class RunQueue {
    var runhd: Option<Prog>
    var runtl: Option<Prog>
    var link: Links
    ghost var run: seq<Prog>

    ghost predicate Valid()
      reads this
    {
      && NoDup(run) && Queue(link, runhd, run)
      && runtl == if run == [] then None else Some(run[|run| - 1])
    }

    constructor ()
      ensures Valid() && run == []
    {
      runhd, runtl, link, run := None, None, map[], [];
    }

    /** `addrun` of a thread without a function of its own to do it. */
    method AddRun(p: Prog)
      requires Valid() && p !in run
      modifies this
      ensures Valid() && run == Apply(old(run), Add(p)) && run == old(run) + [p]
    {
      QueueFrame(link, runhd, run, p, None);
      InMore(run, p, p);
      link := link[p := None];
      if runhd == None {
        runhd := Some(p);
        assert run + [p] == [p] && Queue(link, None, []);
      } else {
        QueueAppend(link, runhd, run, p);
        assert link[p := None] == link;
        link := link[runtl.value := Some(p)];
      }
      runtl := Some(p);
      run := run + [p];
    }

    /** `pushrun`, and the end of `acquire`. */
    method PushRun(p: Prog)
      requires Valid() && p !in run
      modifies this
      ensures Valid() && run == Apply(old(run), Push(p)) && run == [p] + old(run)
    {
      QueueFrame(link, runhd, run, p, runhd);
      InMore(run, p, p);
      link := link[p := runhd];
      runhd := Some(p);
      if NextOf(link, p) == None {
        runtl := Some(p);
      }
      assert ([p] + run)[1..] == run;
      run := [p] + run;
    }

    /** `delrun`. */
    method DelRun() returns (p: Prog)
      requires Valid() && run != []
      modifies this
      ensures Valid() && p == old(run)[0] && run == old(run)[1..]
    {
      p := runhd.value;
      InTail(run, p);
      runhd := NextOf(link, p);
      if NextOf(link, p) == None {
        runtl := None;
      }
      run := run[1..];
    }

    /** `delrunq`: the thread leaves the queue, if it is there. */
    method DelRunq(p: Prog)
      requires Valid()
      modifies this
      ensures Valid() && run == Apply(old(run), Remove(p))
    {
      var prev: Option<Prog>, f := None, runhd;
      ghost var k := 0;
      assert run[0..] == run;
      while f != None && f != Some(p)
        invariant k <= |run| && Valid() && run == old(run) && Queue(link, f, run[k..])
        invariant (k == 0 ==> prev == None && f == runhd) && (k > 0 ==> prev == Some(run[k - 1]))
        invariant forall i :: 0 <= i < k ==> run[i] != p
        decreases |run| - k
      {
        assert run[k..][0] == run[k] && run[k..][1..] == run[k + 1..];
        prev, f := f, NextOf(link, f.value);
        k := k + 1;
      }
      if f == None {
        ExceptNone(run, p);
        return;
      }
      assert run[k..][0] == run[k] == p;
      Unlink(prev, p, k);
    }

    method Unlink(prev: Option<Prog>, p: Prog, ghost k: nat)
      requires Valid() && k < |run| && run[k] == p
      requires if k == 0 then prev == None else prev == Some(run[k - 1])
      modifies this
      ensures Valid() && run == Except(old(run), p)
    {
      hide Except, Queue, NoDup;
      ghost var rest := run[..k] + run[k + 1..];
      ExceptAt(run, k);
      ExceptMeans(run, p);
      LastLeft(run, k);
      if prev == None {
        QueueFrom(link, runhd, run, 1);
        runhd := NextOf(link, p);
        assert rest == run[1..];
      } else {
        QueueUnlink(link, runhd, run, k);
        link := link[prev.value := NextOf(link, p)];
      }
      if runtl == Some(p) {
        runtl := prev;
      }
      assert runtl == if rest == [] then None else Some(rest[|rest| - 1]);
      run := rest;
    }

    /** `delruntail`. */
    method DelRunTail() returns (p: Prog)
      requires Valid() && run != []
      modifies this
      ensures Valid() && p == old(run)[|old(run)| - 1] && run == old(run)[..|old(run)| - 1]
    {
      p := runtl.value;
      ExceptAt(run, |run| - 1);
      DelRunq(p);
    }

    /** The end of a turn of `vmachine`, in which r ran. */
    method Rotate(r: Prog)
      requires Valid()
      modifies this
      ensures Valid() && run == Rotated(old(run), r)
    {
      if runhd != None && runhd == Some(r) && runhd != runtl {
        ghost var rest := run[1..];
        InTail(run, r);
        InMore(rest, r, r);
        runhd := NextOf(link, r);
        QueueFrame(link, runhd, rest, r, None);
        link := link[r := None];
        QueueAppend(link, runhd, rest, r);
        assert link[r := None] == link;
        link := link[runtl.value := Some(r)];
        runtl := Some(r);
        run := rest + [r];
      } else if runhd == Some(r) {
        assert run == [r] && run[1..] + [r] == run;
      }
    }
  }
}
