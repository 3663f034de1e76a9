/**
 The queue of a mount, linked through `list`: the sections of `emu/devmnt.c` that change it do what the
 steps of the multiplexer say.
 */
module MountQueue {
  import opened Sequences
  import opened Procs
  import opened MountMux

  lemma {:induction false} FindAt(s: State, q: seq<Rpc>, k: nat, tag: nat)
    requires k <= |q| && forall i :: 0 <= i < k ==> !Matches(s, q[i], tag)
    ensures Find(s, q, tag) == Find(s, q[k..], tag)
  {
    hide Matches;
    if k == 0 {
      assert q[0..] == q;
    } else {
      FindAt(s, q[1..], k - 1, tag);
      assert q[1..][k - 1..] == q[k..];
    }
  }

  class Mnt {
    var head: Option<Proc>
    var list: Links
    ghost var queue: seq<Rpc>

    ghost predicate Valid()
      reads this
    {
      NoDup(queue) && Queue(list, head, queue)
    }

    constructor ()
      ensures Valid() && queue == []
    {
      head, list, queue := None, map[], [];
    }

    /** The first section of `mountio`: the RPC goes to the front. */
    method Enqueue(r: Rpc)
      requires Valid() && r !in queue
      modifies this
      ensures Valid() && queue == [r] + old(queue)
    {
      QueueFrame(list, head, queue, r, head);
      list := list[r := head];
      head := Some(r);
      assert ([r] + queue)[1..] == queue;
      queue := [r] + queue;
    }

    /** `mntqrm`: the RPC leaves the queue, if it is there. */
    method Remove(r: Rpc)
      requires Valid()
      modifies this
      ensures Valid() && queue == Except(old(queue), r)
    {
      var prev: Option<Proc>, cur := None, head;
      ghost var k := 0;
      assert queue[0..] == queue;
      while cur.Some?
        invariant k <= |queue| && Valid() && queue == old(queue) && Queue(list, cur, queue[k..])
        invariant (k == 0 ==> prev == None && cur == head) && (k > 0 ==> prev == Some(queue[k - 1]))
        invariant forall i :: 0 <= i < k ==> queue[i] != r
        decreases |queue| - k
      {
        assert queue[k..][0] == queue[k] && queue[k..][1..] == queue[k + 1..];
        if cur.value == r {
          Unlink(prev, r, k);
          return;
        }
        prev, cur := cur, NextOf(list, cur.value);
        k := k + 1;
      }
      ExceptNone(queue, r);
    }

    /** `*l = q->list`, where l is the link that leads to q. */
    method Unlink(prev: Option<Proc>, q: Rpc, ghost k: nat)
      requires Valid() && k < |queue| && queue[k] == q
      requires if k == 0 then prev == None else prev == Some(queue[k - 1])
      modifies this
      ensures Valid() && queue == Except(old(queue), q)
    {
      hide Except;
      ExceptAt(queue, k);
      ExceptMeans(queue, q);
      if prev == None {
        InTail(queue, q);
        head := NextOf(list, q);
        assert queue[..0] + queue[1..] == queue[1..];
      } else {
        QueueUnlink(list, head, queue, k);
        list := list[prev.value := NextOf(list, q)];
      }
      queue := Except(queue, q);
    }

    /** The section of `mountmux`: the first RPC with the tag leaves the queue. The tags are those of the
        state s, in which the queue is the one here. */
    method MuxSection(s: State, tag: nat) returns (q: Option<Rpc>)
      requires Valid() && s.queue == queue
      modifies this
      ensures Valid() && q == Find(s, s.queue, tag)
      ensures queue == if q.Some? then Except(s.queue, q.value) else s.queue
    {
      hide Matches, Except;
      var prev: Option<Proc>, cur := None, head;
      ghost var k := 0;
      assert queue[0..] == queue;
      while cur.Some?
        invariant k <= |queue| && Valid() && queue == s.queue && Queue(list, cur, queue[k..])
        invariant (k == 0 ==> prev == None && cur == head) && (k > 0 ==> prev == Some(queue[k - 1]))
        invariant forall i :: 0 <= i < k ==> !Matches(s, queue[i], tag)
        decreases |queue| - k
      {
        assert queue[k..][0] == queue[k] && queue[k..][1..] == queue[k + 1..];
        FindAt(s, queue, k, tag);
        var r: Rpc := cur.value;
        if Matches(s, r, tag) {
          Unlink(prev, r, k);
          return Some(r);
        }
        prev, cur := cur, NextOf(list, r);
        k := k + 1;
      }
      FindAt(s, queue, k, tag);
      q := None;
    }
  }
}
