/**
 The blocks of the pool allocator: boundary tags that tile each chain of memory between its leader and
 its end mark.
 */
module PoolBlocks {
  import opened Sequences
  import opened Multiples
  import opened PoolTree

  /** Tail words, by the address where the block ends. */
  type Tails = map<int, int>

  function TailOf(tail: Tails, x: int): int {
    if x in tail then tail[x] else NIL
  }

  /** B2NB: where the next block begins. */
  function Next(h: Heap, b: int): int {
    b + Hd(h, b).size
  }

  /** The blocks, the end marks, the leaders in the order of the chain list, and the end mark of each
      block's chain. */
  datatype Arena = Arena(blocks: set<int>, ends: set<int>, leaders: seq<int>, limit: map<int, int>)

  function LimitOf(a: Arena, b: int): int {
    if b in a.limit then a.limit[b] else NIL
  }

  /** A block ends where another block or the end mark of its chain begins, and its tail points to it. */
  ghost predicate BlockOk(h: Heap, tail: Tails, a: Arena, u: int, b: int)
    requires u > 0
  {
    var n := Next(h, b);
    && 0 < b && u <= Hd(h, b).size && Hd(h, b).size % u == 0 && n < TOP
    && TailOf(tail, n) == b && LimitOf(a, b) in a.ends
    && (if n in a.blocks then n !in a.ends && LimitOf(a, n) == LimitOf(a, b) else n == LimitOf(a, b))
    && (Hd(h, b).magic == MAGIC_E <==> b in a.leaders)
  }

  /** No block or end mark begins inside a block. */
  ghost predicate Clear(h: Heap, a: Arena, b: int) {
    forall x :: x in a.blocks || x in a.ends ==> !(b < x < Next(h, b))
  }

  /** What is not a leader begins where a block ends, and the tail there points to that block. */
  ghost predicate Follows(h: Heap, tail: Tails, a: Arena, x: int) {
    var p := TailOf(tail, x);
    p in a.blocks && Next(h, p) == x
  }

  /** A leader has the size of one unit, and its chain ends csize beyond it. */
  ghost predicate LeaderOk(h: Heap, a: Arena, u: int, i: nat)
    requires i < |a.leaders|
  {
    var l := a.leaders[i];
    && l in a.blocks && Hd(h, l).size == u && l + Hd(h, l).csize == LimitOf(a, l)
    && Hd(h, l).clink == if i + 1 < |a.leaders| then a.leaders[i + 1] else NIL
  }

  /** Nothing begins in the unit an end mark takes up. */
  ghost predicate EndClear(a: Arena, u: int, e: int) {
    forall x :: x in a.blocks || x in a.ends ==> !(e < x < e + u)
  }

  ghost predicate Tiled(h: Heap, tail: Tails, a: Arena, u: int) {
    && u > 0
    && (forall b {:trigger BlockOk(h, tail, a, u, b)} :: b in a.blocks ==> BlockOk(h, tail, a, u, b))
    && (forall b {:trigger Clear(h, a, b)} :: b in a.blocks ==> Clear(h, a, b))
    && (forall x {:trigger Follows(h, tail, a, x)} :: (x in a.blocks && x !in a.leaders) || x in a.ends ==>
          Follows(h, tail, a, x))
    && (forall i {:trigger LeaderOk(h, a, u, i)} :: 0 <= i < |a.leaders| ==> LeaderOk(h, a, u, i))
    && (forall x {:trigger EndClear(a, u, x)} :: x in a.ends ==> EndClear(a, u, x))
    && (forall x :: x in a.ends ==> x !in a.blocks && 0 < x < TOP && Hd(h, x).magic == MAGIC_E)
    && NoDup(a.leaders)
  }

  /** All that holds of one block. */
  lemma At(h: Heap, tail: Tails, a: Arena, u: int, b: int)
    requires Tiled(h, tail, a, u)
    ensures b in a.blocks ==>
              && BlockOk(h, tail, a, u, b) && Clear(h, a, b) && (b !in a.leaders ==> Follows(h, tail, a, b))
              && b !in a.ends
    ensures b in a.ends ==>
              Follows(h, tail, a, b) && b !in a.blocks && EndClear(a, u, b) && 0 < b < TOP && Hd(h, b).magic == MAGIC_E
    ensures b in a.leaders ==> b in a.blocks && Hd(h, b).size == u
    ensures u > 0
  {
    assert b in a.blocks ==> BlockOk(h, tail, a, u, b) && Clear(h, a, b);
    assert b in a.ends ==> EndClear(a, u, b);
    assert (b in a.blocks && b !in a.leaders) || b in a.ends ==> Follows(h, tail, a, b);
    if b in a.leaders {
      var i :| 0 <= i < |a.leaders| && a.leaders[i] == b;
      assert LeaderOk(h, a, u, i);
    }
  }

  /** Headers that keep their sizes, chain links and leadership keep the tiling. */
  lemma TiledFrame(h: Heap, h': Heap, tail: Tails, a: Arena, u: int)
    requires Tiled(h, tail, a, u)
    requires forall b :: b in a.blocks || b in a.ends ==>
      && Hd(h', b).size == Hd(h, b).size && Hd(h', b).csize == Hd(h, b).csize && Hd(h', b).clink == Hd(h, b).clink
      && (Hd(h', b).magic == MAGIC_E <==> Hd(h, b).magic == MAGIC_E)
    ensures Tiled(h', tail, a, u)
  {
    forall b | b in a.blocks
      ensures BlockOk(h', tail, a, u, b) && Clear(h', a, b)
    {
      At(h, tail, a, u, b);
    }
    forall x | (x in a.blocks && x !in a.leaders) || x in a.ends
      ensures Follows(h', tail, a, x)
    {
      At(h, tail, a, u, x);
    }
    forall i | 0 <= i < |a.leaders|
      ensures LeaderOk(h', a, u, i)
    {
      assert LeaderOk(h, a, u, i);
    }
    forall x | x in a.ends
      ensures EndClear(a, u, x)
    {
      At(h, tail, a, u, x);
    }
  }

  /** Two blocks do not overlap. */
  lemma Disjoint(h: Heap, tail: Tails, a: Arena, u: int, b: int, c: int)
    requires Tiled(h, tail, a, u) && b in a.blocks && c in a.blocks && b != c
    ensures Next(h, b) <= c || Next(h, c) <= b
  {
    At(h, tail, a, u, b);
    At(h, tail, a, u, c);
  }

  // ---- joining ----

  function Without(a: Arena, c: int): Arena { a.(blocks := a.blocks - {c}) }

  /** The headers after b took in the block after it. */
  ghost predicate Joined(h: Heap, h': Heap, a: Arena, b: int) {
    var c := Next(h, b);
    && Hd(h', b).size == Hd(h, b).size + Hd(h, c).size && Hd(h', b).magic != MAGIC_E
    && forall x {:trigger Hd(h', x)} :: (x in a.blocks || x in a.ends) && x != b && x != c ==>
         && Hd(h', x).size == Hd(h, x).size && Hd(h', x).csize == Hd(h, x).csize && Hd(h', x).clink == Hd(h, x).clink
         && Hd(h', x).magic == Hd(h, x).magic
  }

  /** b takes in the block after it. */
  lemma Join(h: Heap, h': Heap, tail: Tails, a: Arena, u: int, b: int)
    requires Tiled(h, tail, a, u) && b in a.blocks && Next(h, b) in a.blocks && Next(h, b) !in a.leaders
    requires b !in a.leaders
    requires Joined(h, h', a, b)
    ensures Tiled(h', tail[Next(h', b) := b], Without(a, Next(h, b)), u)
  {
    hide BlockOk, Clear, Follows, LeaderOk, Joined, NoDup;
    var t', a' := tail[Next(h', b) := b], Without(a, Next(h, b));
    forall x | x in a'.blocks
      ensures BlockOk(h', t', a', u, x) && Clear(h', a', x)
    {
      JoinBlock(h, h', tail, a, u, b, x);
    }
    forall x | (x in a'.blocks && x !in a'.leaders) || x in a'.ends
      ensures Follows(h', t', a', x)
    {
      JoinFollows(h, h', tail, a, u, b, x);
    }
    forall i | 0 <= i < |a'.leaders|
      ensures LeaderOk(h', a', u, i)
    {
      JoinLeader(h, h', tail, a, u, b, i);
    }
    forall x | x in a.ends
      ensures Hd(h', x).magic == MAGIC_E && EndClear(a', u, x)
    {
      JoinEnd(h, h', tail, a, u, b, x);
    }
  }

  lemma JoinBlock(h: Heap, h': Heap, tail: Tails, a: Arena, u: int, b: int, x: int)
    requires Tiled(h, tail, a, u) && b in a.blocks && Next(h, b) in a.blocks && Next(h, b) !in a.leaders
    requires b !in a.leaders
    requires Joined(h, h', a, b) && x in a.blocks && x != Next(h, b)
    ensures BlockOk(h', tail[Next(h', b) := b], Without(a, Next(h, b)), u, x) && Clear(h', Without(a, Next(h, b)), x)
  {
    hide Tiled;
    var c := Next(h, b);
    At(h, tail, a, u, b);
    At(h, tail, a, u, c);
    At(h, tail, a, u, x);
    ModSum(Hd(h, b).size, Hd(h, c).size, u);
  }

  lemma JoinFollows(h: Heap, h': Heap, tail: Tails, a: Arena, u: int, b: int, x: int)
    requires Tiled(h, tail, a, u) && b in a.blocks && Next(h, b) in a.blocks && Next(h, b) !in a.leaders
    requires b !in a.leaders
    requires Joined(h, h', a, b) && ((x in a.blocks && x !in a.leaders && x != Next(h, b)) || x in a.ends)
    ensures Follows(h', tail[Next(h', b) := b], Without(a, Next(h, b)), x)
  {
    hide Tiled;
    var c := Next(h, b);
    At(h, tail, a, u, b);
    At(h, tail, a, u, c);
    At(h, tail, a, u, x);
    At(h, tail, a, u, TailOf(tail, x));
  }

  lemma JoinLeader(h: Heap, h': Heap, tail: Tails, a: Arena, u: int, b: int, i: nat)
    requires Tiled(h, tail, a, u) && b in a.blocks && Next(h, b) in a.blocks && Next(h, b) !in a.leaders
    requires b !in a.leaders
    requires Joined(h, h', a, b) && i < |a.leaders|
    ensures LeaderOk(h', Without(a, Next(h, b)), u, i)
  {
    assert LeaderOk(h, a, u, i) && a.leaders[i] in a.leaders;
  }

  lemma JoinEnd(h: Heap, h': Heap, tail: Tails, a: Arena, u: int, b: int, x: int)
    requires Tiled(h, tail, a, u) && b in a.blocks && Next(h, b) in a.blocks && Joined(h, h', a, b) && x in a.ends
    ensures Hd(h', x).magic == MAGIC_E && EndClear(Without(a, Next(h, b)), u, x)
  {
    At(h, tail, a, u, x);
  }

  // ---- splitting ----

  function With(a: Arena, t: int, l: int): Arena { a.(blocks := a.blocks + {t}, limit := a.limit[t := l]) }

  /** The headers after b gave up all but its first `size` bytes. */
  ghost predicate Cut(h: Heap, h': Heap, a: Arena, b: int, size: int) {
    var t := b + size;
    && Hd(h', b).size == size && Hd(h', t).size == Hd(h, b).size - size && Hd(h', b).magic != MAGIC_E
    && Hd(h', t).magic != MAGIC_E
    && forall x {:trigger Hd(h', x)} :: (x in a.blocks || x in a.ends) && x != b ==>
         && Hd(h', x).size == Hd(h, x).size && Hd(h', x).csize == Hd(h, x).csize && Hd(h', x).clink == Hd(h, x).clink
         && Hd(h', x).magic == Hd(h, x).magic
  }

  function CutTails(tail: Tails, h: Heap, b: int, size: int): Tails { tail[b + size := b][Next(h, b) := b + size] }

  /** b gives up all but its first `size` bytes to a new block. */
  lemma Split(h: Heap, h': Heap, tail: Tails, a: Arena, u: int, b: int, size: int)
    requires Tiled(h, tail, a, u) && b in a.blocks && b !in a.leaders && u <= size < Hd(h, b).size && size % u == 0
    requires Cut(h, h', a, b, size)
    ensures Tiled(h', CutTails(tail, h, b, size), With(a, b + size, LimitOf(a, b)), u)
    ensures b + size !in a.blocks && b + size !in a.ends
  {
    hide BlockOk, Follows, LeaderOk, Cut, NoDup;
    var t, t', a' := b + size, CutTails(tail, h, b, size), With(a, b + size, LimitOf(a, b));
    At(h, tail, a, u, b);
    forall x | x in a'.blocks
      ensures BlockOk(h', t', a', u, x) && Clear(h', a', x)
    {
      SplitBlock(h, h', tail, a, u, b, size, x);
    }
    forall x | (x in a'.blocks && x !in a'.leaders) || x in a'.ends
      ensures Follows(h', t', a', x)
    {
      SplitFollows(h, h', tail, a, u, b, size, x);
    }
    forall i | 0 <= i < |a'.leaders|
      ensures LeaderOk(h', a', u, i)
    {
      SplitLeader(h, h', tail, a, u, b, size, i);
    }
    forall x | x in a.ends
      ensures Hd(h', x).magic == MAGIC_E && EndClear(a', u, x)
    {
      SplitEnd(h, h', tail, a, u, b, size, x);
    }
  }

  lemma SplitBlock(h: Heap, h': Heap, tail: Tails, a: Arena, u: int, b: int, size: int, x: int)
    requires Tiled(h, tail, a, u) && b in a.blocks && b !in a.leaders && u <= size < Hd(h, b).size && size % u == 0
    requires Cut(h, h', a, b, size) && (x in a.blocks || x == b + size)
    ensures BlockOk(h', CutTails(tail, h, b, size), With(a, b + size, LimitOf(a, b)), u, x)
    ensures Clear(h', With(a, b + size, LimitOf(a, b)), x)
  {
    hide Tiled;
    var t := b + size;
    At(h, tail, a, u, b);
    At(h, tail, a, u, t);
    At(h, tail, a, u, x);
    ModSum(Hd(h, b).size, size, u);
    UnitLeft(Hd(h, b).size - size, u);
    if x in a.blocks && x != b {
      Disjoint(h, tail, a, u, x, b);
    }
  }

  lemma SplitFollows(h: Heap, h': Heap, tail: Tails, a: Arena, u: int, b: int, size: int, x: int)
    requires Tiled(h, tail, a, u) && b in a.blocks && b !in a.leaders && u <= size < Hd(h, b).size && size % u == 0
    requires Cut(h, h', a, b, size) && ((x in a.blocks && x !in a.leaders) || x in a.ends || x == b + size)
    ensures Follows(h', CutTails(tail, h, b, size), With(a, b + size, LimitOf(a, b)), x)
  {
    hide Tiled;
    At(h, tail, a, u, b);
    At(h, tail, a, u, b + size);
    At(h, tail, a, u, x);
  }

  lemma SplitLeader(h: Heap, h': Heap, tail: Tails, a: Arena, u: int, b: int, size: int, i: nat)
    requires Tiled(h, tail, a, u) && b in a.blocks && b !in a.leaders && u <= size < Hd(h, b).size
    requires Cut(h, h', a, b, size) && i < |a.leaders|
    ensures LeaderOk(h', With(a, b + size, LimitOf(a, b)), u, i)
  {
    assert LeaderOk(h, a, u, i) && a.leaders[i] in a.leaders;
    At(h, tail, a, u, b);
  }

  lemma SplitEnd(h: Heap, h': Heap, tail: Tails, a: Arena, u: int, b: int, size: int, x: int)
    requires Tiled(h, tail, a, u) && b in a.blocks && u <= size < Hd(h, b).size && Cut(h, h', a, b, size) && x in a.ends
    ensures Hd(h', x).magic == MAGIC_E && EndClear(With(a, b + size, LimitOf(a, b)), u, x)
  {
    At(h, tail, a, u, x);
    At(h, tail, a, u, b);
  }

  lemma UnitLeft(x: int, u: int)
    requires u > 0 && x > 0 && x % u == 0
    ensures x >= u
  {
    var k := x / u;
    assert x == u * k;
    if k >= 1 { ScaleBound(u, k); }
  }

  // ---- more memory ----

  /** Memory from t on that nothing in use reaches. */
  ghost predicate FreshMemory(h: Heap, a: Arena, u: int, t: int, alloc: int) {
    && 0 < t && t + alloc < TOP
    && (forall b :: b in a.blocks ==> Next(h, b) <= t || t + alloc <= b)
    && (forall e :: e in a.ends ==> e + u <= t || t + alloc <= e)
  }

  function Chained(a: Arena, u: int, t: int, ns: int): Arena {
    Arena(a.blocks + {t, t + u}, a.ends + {t + u + ns}, [t] + a.leaders, a.limit[t := t + u + ns][t + u := t + u + ns])
  }

  /** Chains have end marks of their own. */
  ghost predicate OwnEnds(a: Arena) {
    forall i, j {:trigger a.leaders[i], a.leaders[j]} :: 0 <= i < j < |a.leaders| ==>
          LimitOf(a, a.leaders[i]) != LimitOf(a, a.leaders[j])
  }

  /** The headers of a new chain: leader, one block, end mark. */
  ghost predicate NewHeaders(h: Heap, h': Heap, a: Arena, u: int, t: int, ns: int) {
    && Hd(h', t) ==
       Hd(h, t).(magic := MAGIC_E, size := u, csize := ns + u, clink := if |a.leaders| > 0 then a.leaders[0] else NIL)
    && Hd(h', t + u).size == ns && Hd(h', t + u).magic != MAGIC_E && Hd(h', t + u + ns).magic == MAGIC_E
    && forall x {:trigger Hd(h', x)} :: x in a.blocks || x in a.ends ==> Hd(h', x) == Hd(h, x)
  }

  function ChainTails(tail: Tails, u: int, t: int, ns: int): Tails { tail[t + u := t][t + u + ns := t + u] }

  lemma NewChain(h: Heap, h': Heap, tail: Tails, a: Arena, u: int, t: int, ns: int)
    requires Tiled(h, tail, a, u) && FreshMemory(h, a, u, t, ns + u + u) && ns >= u && ns % u == 0
    requires NewHeaders(h, h', a, u, t, ns)
    requires OwnEnds(a)
    ensures Tiled(h', ChainTails(tail, u, t, ns), Chained(a, u, t, ns), u) && OwnEnds(Chained(a, u, t, ns))
    ensures forall x :: x in a.blocks || x in a.ends ==> x != t && x != t + u && x != t + u + ns
  {
    hide BlockOk, Follows, Clear, LeaderOk, NewHeaders, FreshMemory;
    var t', a', e := ChainTails(tail, u, t, ns), Chained(a, u, t, ns), t + u + ns;
    forall x | x in a.blocks || x in a.ends
      ensures x != t && x != t + u && x != e && (x in a.ends ==> Hd(h', x).magic == MAGIC_E)
    {
      Apart(h, h', tail, a, u, t, ns, x);
    }
    NewEnd(h, h', tail, a, u, t, ns);
    forall x | x in a'.ends
      ensures EndClear(a', u, x)
    {
      ChainEnd(h, h', tail, a, u, t, ns, x);
    }
    forall x | x in a'.blocks
      ensures BlockOk(h', t', a', u, x) && Clear(h', a', x)
    {
      ChainBlock(h, h', tail, a, u, t, ns, x);
      ChainClear(h, h', tail, a, u, t, ns, x);
    }
    forall x | (x in a'.blocks && x !in a'.leaders) || x in a'.ends
      ensures Follows(h', t', a', x)
    {
      ChainFollows(h, h', tail, a, u, t, ns, x);
    }
    forall i | 0 <= i < |a'.leaders|
      ensures LeaderOk(h', a', u, i)
    {
      ChainLeader(h, h', tail, a, u, t, ns, i);
    }
    ChainOwn(h, h', tail, a, u, t, ns);
  }

  lemma ChainOwn(h: Heap, h': Heap, tail: Tails, a: Arena, u: int, t: int, ns: int)
    requires Tiled(h, tail, a, u) && OwnEnds(a)
    requires forall x :: x in a.blocks || x in a.ends ==> x != t && x != t + u && x != t + u + ns
    ensures NoDup(Chained(a, u, t, ns).leaders) && OwnEnds(Chained(a, u, t, ns))
  {
    var a' := Chained(a, u, t, ns);
    forall i, j | 0 <= i < j < |a'.leaders|
      ensures a'.leaders[i] != a'.leaders[j] && LimitOf(a', a'.leaders[i]) != LimitOf(a', a'.leaders[j])
    {
      LimitIn(h, tail, a, u, j - 1);
      LeaderIn(h, tail, a, u, j - 1);
      if i > 0 {
        LeaderIn(h, tail, a, u, i - 1);
        assert LimitOf(a, a.leaders[i - 1]) != LimitOf(a, a.leaders[j - 1]);
      }
    }
  }

  lemma LeaderIn(h: Heap, tail: Tails, a: Arena, u: int, i: nat)
    requires Tiled(h, tail, a, u) && i < |a.leaders|
    ensures a.leaders[i] in a.blocks
  {
    assert LeaderOk(h, a, u, i);
  }

  lemma NewEnd(h: Heap, h': Heap, tail: Tails, a: Arena, u: int, t: int, ns: int)
    requires FreshMemory(h, a, u, t, ns + u + u) && NewHeaders(h, h', a, u, t, ns) && u > 0 && ns > 0
    ensures 0 < t && t + u + ns < TOP && Hd(h', t + u + ns).magic == MAGIC_E
  {}

  /** What is in use does not reach into the new memory. */
  lemma Apart(h: Heap, h': Heap, tail: Tails, a: Arena, u: int, t: int, ns: int, x: int)
    requires Tiled(h, tail, a, u) && FreshMemory(h, a, u, t, ns + u + u) && ns >= u && NewHeaders(h, h', a, u, t, ns)
    requires (x in a.blocks || x in a.ends)
    ensures x != t && x != t + u && x != t + u + ns && Hd(h', x) == Hd(h, x)
    ensures (x in a.ends ==> Hd(h, x).magic == MAGIC_E)
    ensures x + u <= t || t + ns + u + u <= x
    ensures x in a.blocks ==> Next(h, x) <= t || t + ns + u + u <= x
  {
    At(h, tail, a, u, x);
  }

  lemma ChainBlock(h: Heap, h': Heap, tail: Tails, a: Arena, u: int, t: int, ns: int, x: int)
    requires Tiled(h, tail, a, u) && FreshMemory(h, a, u, t, ns + u + u) && ns >= u && ns % u == 0
    requires NewHeaders(h, h', a, u, t, ns) && x in Chained(a, u, t, ns).blocks
    ensures BlockOk(h', ChainTails(tail, u, t, ns), Chained(a, u, t, ns), u, x)
  {
    hide Tiled, FreshMemory;
    At(h, tail, a, u, t);
    NewEnd(h, h', tail, a, u, t, ns);
    ModZero(u, u, 1);
    At(h, tail, a, u, t + u);
    forall y | y in a.blocks || y in a.ends
      ensures y + u <= t || t + ns + u + u <= y
    {
      Apart(h, h', tail, a, u, t, ns, y);
    }
    if x in a.blocks {
      At(h, tail, a, u, x);
      Apart(h, h', tail, a, u, t, ns, x);
      At(h, tail, a, u, Next(h, x));
      Apart(h, h', tail, a, u, t, ns, Next(h, x));
    }
  }

  lemma ChainClear(h: Heap, h': Heap, tail: Tails, a: Arena, u: int, t: int, ns: int, x: int)
    requires Tiled(h, tail, a, u) && FreshMemory(h, a, u, t, ns + u + u) && ns >= u && ns % u == 0
    requires NewHeaders(h, h', a, u, t, ns) && x in Chained(a, u, t, ns).blocks
    ensures Clear(h', Chained(a, u, t, ns), x)
  {
    hide Tiled, FreshMemory;
    At(h, tail, a, u, t);
    NewEnd(h, h', tail, a, u, t, ns);
    ModZero(u, u, 1);
    At(h, tail, a, u, t + u);
    forall y | y in a.blocks || y in a.ends
      ensures y + u <= t || t + ns + u + u <= y
    {
      Apart(h, h', tail, a, u, t, ns, y);
    }
    if x in a.blocks {
      At(h, tail, a, u, x);
      Apart(h, h', tail, a, u, t, ns, x);
      At(h, tail, a, u, Next(h, x));
      Apart(h, h', tail, a, u, t, ns, Next(h, x));
    }
  }

  lemma ChainEnd(h: Heap, h': Heap, tail: Tails, a: Arena, u: int, t: int, ns: int, x: int)
    requires Tiled(h, tail, a, u) && FreshMemory(h, a, u, t, ns + u + u) && ns >= u && NewHeaders(h, h', a, u, t, ns)
    requires x in Chained(a, u, t, ns).ends
    ensures EndClear(Chained(a, u, t, ns), u, x)
  {
    hide Tiled, FreshMemory;
    forall y | y in a.blocks || y in a.ends
      ensures y + u <= t || t + ns + u + u <= y
    {
      Apart(h, h', tail, a, u, t, ns, y);
    }
    At(h, tail, a, u, x);
  }

  lemma ChainFollows(h: Heap, h': Heap, tail: Tails, a: Arena, u: int, t: int, ns: int, x: int)
    requires Tiled(h, tail, a, u) && FreshMemory(h, a, u, t, ns + u + u) && ns >= u && ns % u == 0
    requires NewHeaders(h, h', a, u, t, ns)
    requires var a' := Chained(a, u, t, ns); (x in a'.blocks && x !in a'.leaders) || x in a'.ends
    ensures Follows(h', ChainTails(tail, u, t, ns), Chained(a, u, t, ns), x)
  {
    hide Tiled, FreshMemory;
    At(h, tail, a, u, x);
    if x in a.blocks || x in a.ends {
      Apart(h, h', tail, a, u, t, ns, x);
      assert x !in a.leaders;
      Apart(h, h', tail, a, u, t, ns, TailOf(tail, x));
    }
  }

  lemma ChainLeader(h: Heap, h': Heap, tail: Tails, a: Arena, u: int, t: int, ns: int, i: nat)
    requires Tiled(h, tail, a, u) && FreshMemory(h, a, u, t, ns + u + u) && ns >= u && NewHeaders(h, h', a, u, t, ns)
    requires i <= |a.leaders|
    ensures LeaderOk(h', Chained(a, u, t, ns), u, i)
  {
    if i > 0 {
      assert LeaderOk(h, a, u, i - 1);
      Apart(h, h', tail, a, u, t, ns, a.leaders[i - 1]);
    }
  }

  function Extended(a: Arena, e: int, alloc: int): Arena {
    Arena(a.blocks + {e}, (a.ends - {e}) + {e + alloc}, a.leaders,
          (map b | b in a.limit :: if a.limit[b] == e then e + alloc else a.limit[b])[e := e + alloc])
  }

  /** The headers after the end mark e of the first chain became a block. */
  ghost predicate Grown(h: Heap, h': Heap, a: Arena, l: int, e: int, alloc: int) {
    && Hd(h', l) == Hd(h, l).(csize := Hd(h, l).csize + alloc)
    && Hd(h', e).size == alloc && Hd(h', e).magic != MAGIC_E && Hd(h', e + alloc).magic == MAGIC_E
    && forall x {:trigger Hd(h', x)} :: (x in a.blocks || x in a.ends) && x != l && x != e ==> Hd(h', x) == Hd(h, x)
  }

  /** The first chain grows by memory that follows its end mark: the end mark becomes a block. */
  lemma ExtendChain(h: Heap, h': Heap, tail: Tails, a: Arena, u: int, l: int, e: int, alloc: int)
    requires Tiled(h, tail, a, u) && OwnEnds(a) && |a.leaders| > 0 && alloc >= u && alloc % u == 0
    requires l == a.leaders[0] && e == LimitOf(a, l) && e in a.ends && FreshMemory(h, a, u, e + u, alloc)
    requires Grown(h, h', a, l, e, alloc)
    ensures Tiled(h', tail[e + alloc := e], Extended(a, e, alloc), u) && OwnEnds(Extended(a, e, alloc))
    ensures forall x :: x in a.blocks || x in a.ends ==> x != e + alloc
  {
    hide BlockOk, Follows, Clear, LeaderOk, Grown, FreshMemory, NoDup;
    var t', a' := tail[e + alloc := e], Extended(a, e, alloc);
    LeaderIn(h, tail, a, u, 0);
    At(h, tail, a, u, e);
    forall x | x in a.blocks || x in a.ends
      ensures x != e + alloc && (x in a'.ends ==> Hd(h', x).magic == MAGIC_E)
    {
      Beyond(h, h', tail, a, u, l, e, alloc, x);
    }
    forall x | x in a'.ends
      ensures EndClear(a', u, x)
    {
      ExtendEnd(h, h', tail, a, u, l, e, alloc, x);
    }
    GrownEnd(h, h', a, u, l, e, alloc);
    forall x | x in a'.blocks
      ensures BlockOk(h', t', a', u, x) && Clear(h', a', x)
    {
      ExtendBlock(h, h', tail, a, u, l, e, alloc, x);
      ExtendClear(h, h', tail, a, u, l, e, alloc, x);
    }
    forall x | (x in a'.blocks && x !in a'.leaders) || x in a'.ends
      ensures Follows(h', t', a', x)
    {
      ExtendFollows(h, h', tail, a, u, l, e, alloc, x);
    }
    forall i | 0 <= i < |a'.leaders|
      ensures LeaderOk(h', a', u, i)
    {
      ExtendLeader(h, h', tail, a, u, l, e, alloc, i);
    }
    ExtendOwn(h, tail, a, u, e, alloc);

  }

  lemma GrownEnd(h: Heap, h': Heap, a: Arena, u: int, l: int, e: int, alloc: int)
    requires u > 0 && alloc >= u && FreshMemory(h, a, u, e + u, alloc) && Grown(h, h', a, l, e, alloc) && 0 < e
    ensures 0 < e + alloc < TOP && Hd(h', e + alloc).magic == MAGIC_E
  {}

  /** What is in use stays clear of the memory that follows the end mark. */
  lemma Beyond(h: Heap, h': Heap, tail: Tails, a: Arena, u: int, l: int, e: int, alloc: int, x: int)
    requires Tiled(h, tail, a, u) && alloc >= u && e in a.ends && FreshMemory(h, a, u, e + u, alloc)
    requires Grown(h, h', a, l, e, alloc) && l in a.blocks
    requires x in a.blocks || x in a.ends
    ensures x != e + alloc && (x in a.ends && x != e ==> Hd(h', x).magic == MAGIC_E) && (x <= e || e + u + alloc <= x)
    ensures x in a.blocks ==> Next(h, x) <= e || e + u + alloc <= x
    ensures x != l && x != e ==> Hd(h', x) == Hd(h, x)
    ensures x == l ==> Hd(h', x) == Hd(h, x).(csize := Hd(h, x).csize + alloc)
  {
    At(h, tail, a, u, x);
    At(h, tail, a, u, e);
  }

  lemma ExtendBlock(h: Heap, h': Heap, tail: Tails, a: Arena, u: int, l: int, e: int, alloc: int, x: int)
    requires Tiled(h, tail, a, u) && alloc >= u && alloc % u == 0 && |a.leaders| > 0 && l == a.leaders[0]
    requires e == LimitOf(a, l) && e in a.ends
    requires FreshMemory(h, a, u, e + u, alloc) && Grown(h, h', a, l, e, alloc) && x in Extended(a, e, alloc).blocks
    ensures BlockOk(h', tail[e + alloc := e], Extended(a, e, alloc), u, x)
  {
    hide Tiled, FreshMemory;
    At(h, tail, a, u, e);
    At(h, tail, a, u, l);
    GrownEnd(h, h', a, u, l, e, alloc);
    forall y | y in a.blocks || y in a.ends
      ensures y <= e || e + u + alloc <= y
    {
      Beyond(h, h', tail, a, u, l, e, alloc, y);
    }
    Beyond(h, h', tail, a, u, l, e, alloc, e);
    if x in a.blocks {
      At(h, tail, a, u, x);
      Beyond(h, h', tail, a, u, l, e, alloc, x);
      Beyond(h, h', tail, a, u, l, e, alloc, Next(h, x));
      At(h, tail, a, u, Next(h, x));
    }
  }

  lemma ExtendClear(h: Heap, h': Heap, tail: Tails, a: Arena, u: int, l: int, e: int, alloc: int, x: int)
    requires Tiled(h, tail, a, u) && alloc >= u && alloc % u == 0 && |a.leaders| > 0 && l == a.leaders[0]
    requires e == LimitOf(a, l) && e in a.ends
    requires FreshMemory(h, a, u, e + u, alloc) && Grown(h, h', a, l, e, alloc) && x in Extended(a, e, alloc).blocks
    ensures Clear(h', Extended(a, e, alloc), x)
  {
    hide Tiled, FreshMemory;
    At(h, tail, a, u, e);
    At(h, tail, a, u, l);
    forall y | y in a.blocks || y in a.ends
      ensures y <= e || e + u + alloc <= y
    {
      Beyond(h, h', tail, a, u, l, e, alloc, y);
    }
    Beyond(h, h', tail, a, u, l, e, alloc, e);
    if x in a.blocks {
      At(h, tail, a, u, x);
      Beyond(h, h', tail, a, u, l, e, alloc, x);
    }
  }

  lemma ExtendFollows(h: Heap, h': Heap, tail: Tails, a: Arena, u: int, l: int, e: int, alloc: int, x: int)
    requires Tiled(h, tail, a, u) && alloc >= u && |a.leaders| > 0 && l == a.leaders[0] && e in a.ends
    requires FreshMemory(h, a, u, e + u, alloc) && Grown(h, h', a, l, e, alloc)
    requires var a' := Extended(a, e, alloc); (x in a'.blocks && x !in a'.leaders) || x in a'.ends
    ensures Follows(h', tail[e + alloc := e], Extended(a, e, alloc), x)
  {
    hide Tiled, FreshMemory;
    At(h, tail, a, u, x);
    At(h, tail, a, u, l);
    At(h, tail, a, u, e);
    if x in a.blocks || x in a.ends {
      Beyond(h, h', tail, a, u, l, e, alloc, x);
      Beyond(h, h', tail, a, u, l, e, alloc, TailOf(tail, x));
    }
  }

  lemma ExtendLeader(h: Heap, h': Heap, tail: Tails, a: Arena, u: int, l: int, e: int, alloc: int, i: nat)
    requires Tiled(h, tail, a, u) && OwnEnds(a) && alloc >= u && |a.leaders| > 0 && l == a.leaders[0]
    requires e == LimitOf(a, l) && e in a.ends
    requires FreshMemory(h, a, u, e + u, alloc) && Grown(h, h', a, l, e, alloc) && i < |a.leaders|
    ensures LeaderOk(h', Extended(a, e, alloc), u, i)
  {
    hide FreshMemory;
    assert LeaderOk(h, a, u, i) && LeaderOk(h, a, u, 0);
    At(h, tail, a, u, e);
    At(h, tail, a, u, a.leaders[i]);
    Beyond(h, h', tail, a, u, l, e, alloc, a.leaders[i]);
    assert i > 0 ==> LimitOf(a, a.leaders[0]) != LimitOf(a, a.leaders[i]);
  }

  lemma ExtendEnd(h: Heap, h': Heap, tail: Tails, a: Arena, u: int, l: int, e: int, alloc: int, x: int)
    requires Tiled(h, tail, a, u) && alloc >= u && e in a.ends && l in a.blocks
    requires FreshMemory(h, a, u, e + u, alloc) && Grown(h, h', a, l, e, alloc) && x in Extended(a, e, alloc).ends
    ensures EndClear(Extended(a, e, alloc), u, x)
  {
    hide Tiled, FreshMemory;
    forall y | y in a.blocks || y in a.ends
      ensures y <= e || e + u + alloc <= y
    {
      Beyond(h, h', tail, a, u, l, e, alloc, y);
    }
    At(h, tail, a, u, x);
    At(h, tail, a, u, e);
  }

  lemma ExtendOwn(h: Heap, tail: Tails, a: Arena, u: int, e: int, alloc: int)
    requires Tiled(h, tail, a, u) && OwnEnds(a) && e in a.ends && e + alloc !in a.ends && |a.leaders| > 0
    requires e == LimitOf(a, a.leaders[0])
    ensures OwnEnds(Extended(a, e, alloc))
  {
    var a' := Extended(a, e, alloc);
    forall i, j | 0 <= i < j < |a'.leaders|
      ensures LimitOf(a', a'.leaders[i]) != LimitOf(a', a'.leaders[j])
    {
      LimitIn(h, tail, a, u, i);
      LimitIn(h, tail, a, u, j);
      assert LimitOf(a, a.leaders[i]) != LimitOf(a, a.leaders[j]);
      assert LimitOf(a, a.leaders[0]) == LimitOf(a, a.leaders[i]) ==> i == 0;
    }
  }

  lemma LimitIn(h: Heap, tail: Tails, a: Arena, u: int, i: nat)
    requires Tiled(h, tail, a, u) && i < |a.leaders|
    ensures LimitOf(a, a.leaders[i]) in a.ends && a.leaders[i] in a.limit && a.leaders[i] !in a.ends
  {
    LeaderIn(h, tail, a, u, i);
    At(h, tail, a, u, a.leaders[i]);
    At(h, tail, a, u, LimitOf(a, a.leaders[i]));
  }

  // ---- what is not touched ----

  /** Neither a header nor a tail in the bytes of block x changes. */
  ghost predicate Untouched(h: Heap, tail: Tails, h': Heap, tail': Tails, x: int) {
    && (forall y {:trigger Hd(h', y)} :: x <= y < Next(h, x) ==> Hd(h', y) == Hd(h, y))
    && (forall y {:trigger TailOf(tail', y)} :: x < y <= Next(h, x) ==> TailOf(tail', y) == TailOf(tail, y))
  }

  lemma UntouchedTwice(h0: Heap, t0: Tails, h1: Heap, t1: Tails, h2: Heap, t2: Tails, x: int)
    requires Untouched(h0, t0, h1, t1, x) && Untouched(h1, t1, h2, t2, x) && Hd(h0, x).size > 0
    ensures Untouched(h0, t0, h2, t2, x)
  {
    assert Hd(h1, x) == Hd(h0, x);
    forall y | x <= y < Next(h0, x)
      ensures Hd(h2, y) == Hd(h0, y)
    {
      assert Hd(h1, y) == Hd(h0, y);
    }
    forall y | x < y <= Next(h0, x)
      ensures TailOf(t2, y) == TailOf(t0, y)
    {
      assert TailOf(t1, y) == TailOf(t0, y);
    }
  }

  /** Changes to the headers of other blocks do not touch a block. */
  lemma OthersUntouched(h: Heap, h': Heap, tail: Tails, a: Arena, u: int, s: set<int>, x: int)
    requires Tiled(h, tail, a, u) && x in a.blocks && s <= a.blocks + a.ends && x !in s
    requires forall y {:trigger Hd(h', y)} :: y !in s ==> Hd(h', y) == Hd(h, y)
    ensures Untouched(h, tail, h', tail, x)
  {
    At(h, tail, a, u, x);
  }

  /** The tail at the end of another block is not in this one. */
  lemma TailElsewhere(h: Heap, tail: Tails, a: Arena, u: int, b: int, x: int)
    requires Tiled(h, tail, a, u) && x in a.blocks && b in a.blocks && x != b
    ensures !(x < Next(h, b) <= Next(h, x))
  {
    At(h, tail, a, u, x);
    At(h, tail, a, u, b);
  }

  // ---- tiling ----

  /** Walking from block to block, b leads to the end mark e. */
  ghost predicate LeadsTo(h: Heap, a: Arena, b: int, e: int)
    decreases TOP - b
  {
    b == e || (b in a.blocks && b < Next(h, b) < TOP && LeadsTo(h, a, Next(h, b), e))
  }

  /** Every block leads to the end mark of its chain, and a leader to the one csize beyond it: the
      blocks tile the chain. */
  lemma {:induction false} ChainTiled(h: Heap, tail: Tails, a: Arena, u: int, b: int)
    requires Tiled(h, tail, a, u) && b in a.blocks
    ensures LeadsTo(h, a, b, LimitOf(a, b)) && LimitOf(a, b) in a.ends
    ensures b in a.leaders ==> LimitOf(a, b) == b + Hd(h, b).csize
    decreases TOP - b
  {
    At(h, tail, a, u, b);
    if Next(h, b) in a.blocks {
      ChainTiled(h, tail, a, u, Next(h, b));
    }
    if b in a.leaders {
      var i :| 0 <= i < |a.leaders| && a.leaders[i] == b;
      assert LeaderOk(h, a, u, i);
    }
  }
}
