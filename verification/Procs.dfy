/** Procs, and queues of them linked through each proc's `qnext`. */
module Procs {
  import opened Sequences

  type Proc = nat

  datatype Option<T> = None | Some(value: T)

  type Links = map<Proc, Option<Proc>>

  function NextOf(qnext: Links, p: Proc): Option<Proc> {
    if p in qnext then qnext[p] else None
  }

  /** The procs `q`, in order, hang off `head`. */
  predicate Queue(qnext: Links, head: Option<Proc>, q: seq<Proc>)
    decreases |q|
  {
    if q == [] then head == None else head == Some(q[0]) && Queue(qnext, NextOf(qnext, q[0]), q[1..])
  }

  lemma InMore(s: seq<Proc>, p: Proc, q: Proc)
    ensures q in s + [p] <==> q in s || q == p
    ensures q in [p] + s <==> q in s || q == p
    ensures p !in s && NoDup(s) ==> NoDup(s + [p]) && NoDup([p] + s)
  {}

  /** A proc outside a queue may be linked anywhere. */
  lemma {:induction false} QueueFrame(qnext: Links, head: Option<Proc>, q: seq<Proc>, p: Proc, n: Option<Proc>)
    requires Queue(qnext, head, q) && p !in q
    ensures Queue(qnext[p := n], head, q)
    decreases |q|
  {
    if q != [] {
      QueueFrame(qnext, NextOf(qnext, q[0]), q[1..], p, n);
    }
  }

  /** Linking a new proc behind the last one. */
  lemma {:induction false} QueueAppend(qnext: Links, head: Option<Proc>, q: seq<Proc>, p: Proc)
    requires Queue(qnext, head, q) && q != [] && NoDup(q) && p !in q
    ensures Queue(qnext[p := None][q[|q| - 1] := Some(p)], head, q + [p])
    decreases |q|
  {
    var links := qnext[p := None][q[|q| - 1] := Some(p)];
    assert (q + [p])[1..] == q[1..] + [p];
    if |q| == 1 {
      assert Queue(links, NextOf(links, q[0]), [p]);
    } else {
      InTail(q, q[0]);
      assert q[1..][|q| - 2] == q[|q| - 1];
      QueueAppend(qnext, NextOf(qnext, q[0]), q[1..], p);
      assert q[0] != q[|q| - 1] && q[0] != p;
    }
  }

  /** Taking a proc out of the middle: the one before it is linked to the one behind it. */
  lemma {:induction false} QueueUnlink(list: Links, head: Option<Proc>, q: seq<Proc>, k: nat)
    requires Queue(list, head, q) && NoDup(q) && 0 < k < |q|
    ensures Queue(list[q[k - 1] := NextOf(list, q[k])], head, q[..k] + q[k + 1..])
    decreases |q|
  {
    var links, rest := list[q[k - 1] := NextOf(list, q[k])], q[..k] + q[k + 1..];
    InTail(q, q[0]);
    assert rest[0] == q[0];
    if k == 1 {
      assert rest[1..] == q[2..];
      QueueFrom(list, head, q, 2);
      QueueFrame(list, NextOf(list, q[1]), q[2..], q[0], NextOf(list, q[1]));
    } else {
      assert rest[1..] == q[1..][..k - 1] + q[1..][k..];
      QueueUnlink(list, NextOf(list, q[0]), q[1..], k - 1);
    }
  }

  /** Every part of a queue to its end is a queue. */
  lemma {:induction false} QueueFrom(list: Links, head: Option<Proc>, q: seq<Proc>, k: nat)
    requires Queue(list, head, q) && 0 < k <= |q|
    ensures Queue(list, NextOf(list, q[k - 1]), q[k..])
    decreases |q|
  {
    if k > 1 {
      QueueFrom(list, NextOf(list, q[0]), q[1..], k - 1);
      assert q[1..][k - 1..] == q[k..];
    } else {
      assert q[1..] == q[k..];
    }
  }
}
