/**
 Whole runs of the pool allocator: any sequence of allocations and releases, and what its callers may
 rely on between the two calls for a block.
 */
module PoolRun {
  import opened Sequences
  import opened PoolTree
  import opened PoolBlocks
  import opened PoolState
  import opened Pools

  datatype Snap = Snap(heap: Heap, tail: Tails, arena: Arena, u: int)

  /** A call: an allocation with the address it returned, or the release of a block. */
  datatype Call = Alloc(asize: nat, r: int) | Release(b: int)

  ghost function Shot(p: Pool): Snap
    reads p
  {
    Snap(p.heap, p.tail, p.arena, p.quanta + 1)
  }

  ghost predicate Sound(s: Snap) {
    exists t: Tree :: Open(s.heap, s.tail, s.arena, t, s.u, NIL)
  }

  function InUse(s: Snap): set<int> { Live(s.heap, s.arena) }

  /** Block b has not been touched from s to t. */
  ghost predicate Same(s: Snap, t: Snap, b: int) {
    Untouched(s.heap, s.tail, t.heap, t.tail, b)
  }

  /** A call keeps the pool sound, hands out a block with room for the data, its header and its tail, or takes
      one back, and touches no other block in use. */
  ghost predicate Does(s: Snap, e: Call, t: Snap) {
    && Sound(s) && Sound(t)
    && match e
       case Alloc(asize, r) =>
         if r == NIL then t == s else
           && r - 8 !in InUse(s) && InUse(t) == InUse(s) + {r - 8} && Hd(t.heap, r - 8).size >= asize + BHDRSIZE
           && forall x {:trigger Same(s, t, x)} :: x in InUse(s) ==> Same(s, t, x)
       case Release(b) =>
         && b in InUse(s) && InUse(t) == InUse(s) - {b}
         && forall x {:trigger Same(s, t, x)} :: x in InUse(t) ==> Same(s, t, x)
  }

  method Allocate(p: Pool, asize: nat, brk: int) returns (r: int)
    requires p.Valid()
    requires brk != -1 && p.Asks(asize) ==>
               FreshMemory(p.heap, p.arena, p.quanta + 1, (brk + 7) / 8 * 8,
                           p.Grant(p.Rounded(asize)) + 2 * (p.quanta + 1))
    modifies p
    ensures p.Valid() && Does(old(Shot(p)), Alloc(asize, r), Shot(p))
  {
    hide Open, Untouched, Live, Total, TreeOk;
    assert Sound(Shot(p));
    p.RoundedMeans(asize);
    r := p.PoolAlloc(asize, brk);
    assert Sound(Shot(p));
  }

  method Return(p: Pool, b: int)
    requires p.Valid() && b in Live(p.heap, p.arena)
    modifies p
    ensures p.Valid() && Does(old(Shot(p)), Release(b), Shot(p))
  {
    hide Open, Untouched, Live, Total, TreeOk;
    assert Sound(Shot(p));
    p.PoolFree(b);
    assert Sound(Shot(p));
  }

  /** The blocks handed out and not taken back by the first k calls, each with the call that handed it out. */
  function Out(es: seq<Call>, k: nat): map<int, nat>
    requires k <= |es|
  {
    if k == 0 then map[] else
      match es[k - 1]
      case Alloc(_, r) => if r == NIL then Out(es, k - 1) else Out(es, k - 1)[r - 8 := k - 1]
      case Release(b) => Out(es, k - 1) - {b}
  }

  ghost predicate IsRun(ss: seq<Snap>, es: seq<Call>) {
    && |ss| == |es| + 1 && InUse(ss[0]) == {}
    && forall k {:trigger es[k]} :: 0 <= k < |es| ==> Does(ss[k], es[k], ss[k + 1])
  }

  /** The block handed out by call g: it has not been touched since, and holds what was asked for. */
  ghost predicate Kept(ss: seq<Snap>, es: seq<Call>, k: nat, b: int, g: nat)
    requires k < |ss| == |es| + 1
  {
    && g < k && es[g].Alloc? && es[g].r == b + 8 != NIL
    && Same(ss[g + 1], ss[k], b) && Hd(ss[k].heap, b).size >= es[g].asize + BHDRSIZE
  }

  /** At any point of any run the blocks in use are those handed out and not taken back, each as it was
      handed out and large enough, and no two of them overlap. */
  lemma {:induction false} RunKeeps(ss: seq<Snap>, es: seq<Call>, k: nat)
    requires IsRun(ss, es) && k <= |es|
    ensures InUse(ss[k]) == Out(es, k).Keys
    ensures forall b :: b in Out(es, k) ==> Kept(ss, es, k, b, Out(es, k)[b])
    ensures forall b, c :: b in Out(es, k) && c in Out(es, k) && b != c ==>
              Next(ss[k].heap, b) <= c || Next(ss[k].heap, c) <= b
  {
    hide Open, Untouched, Live, Kept;
    if k > 0 {
      RunKeeps(ss, es, k - 1);
      assert Does(ss[k - 1], es[k - 1], ss[k]);
      forall b | b in Out(es, k)
        ensures Kept(ss, es, k, b, Out(es, k)[b])
      {
        StillKept(ss, es, k, b);
      }
      forall b, c | b in Out(es, k) && c in Out(es, k) && b != c
        ensures Next(ss[k].heap, b) <= c || Next(ss[k].heap, c) <= b
      {
        InUseApart(ss[k], b, c);
      }
    }
  }

  lemma StillKept(ss: seq<Snap>, es: seq<Call>, k: nat, b: int)
    requires IsRun(ss, es) && 0 < k <= |es| && b in Out(es, k)
    requires InUse(ss[k - 1]) == Out(es, k - 1).Keys
    requires b in Out(es, k - 1) ==> Kept(ss, es, k - 1, b, Out(es, k - 1)[b])
    ensures Kept(ss, es, k, b, Out(es, k)[b])
  {
    hide Open, Untouched, Live;
    var e, s, t := es[k - 1], ss[k - 1], ss[k];
    assert Does(s, e, t);
    if e.Alloc? && e.r != NIL && e.r == b + 8 {
      Unchanged(t, b);
    } else {
      var g := Out(es, k - 1)[b];
      Unchanged(s, b);
      assert Same(s, t, b);
      assert Does(ss[g], es[g], ss[g + 1]);
      KeptOn(ss, es, k - 1, b, g);
    }
  }

  lemma Unchanged(s: Snap, b: int)
    ensures Same(s, s, b)
  {}

  lemma KeptOn(ss: seq<Snap>, es: seq<Call>, k: nat, b: int, g: nat)
    requires k + 1 < |ss| == |es| + 1 && Kept(ss, es, k, b, g) && Same(ss[k], ss[k + 1], b)
    requires Sound(ss[g + 1]) && b in InUse(ss[g + 1])
    ensures Kept(ss, es, k + 1, b, g)
  {
    var r, s, t := ss[g + 1], ss[k], ss[k + 1];
    HasSize(r, b);
    UntouchedTwice(r.heap, r.tail, s.heap, s.tail, t.heap, t.tail, b);
    assert Hd(s.heap, b) == Hd(r.heap, b) && Hd(t.heap, b) == Hd(s.heap, b);
  }

  lemma HasSize(s: Snap, b: int)
    requires Sound(s) && b in InUse(s)
    ensures Hd(s.heap, b).size > 0
  {
    var t: Tree :| Open(s.heap, s.tail, s.arena, t, s.u, NIL);
    At(s.heap, s.tail, s.arena, s.u, b);
  }

  lemma InUseApart(s: Snap, b: int, c: int)
    requires Sound(s) && b in InUse(s) && c in InUse(s) && b != c
    ensures Next(s.heap, b) <= c || Next(s.heap, c) <= b
  {
    var t: Tree :| Open(s.heap, s.tail, s.arena, t, s.u, NIL);
    Disjoint(s.heap, s.tail, s.arena, s.u, b, c);
  }
}
