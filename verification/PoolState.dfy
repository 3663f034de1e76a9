/**
 The invariant of a pool: tiled memory, the free blocks in the tree, no two of them side by side, and
 the sum of the sizes of the others.
 */
module PoolState {
  import opened Sequences
  import opened Multiples
  import opened PoolTree
  import opened PoolBlocks

  function Frees(h: Heap, a: Arena): set<int> {
    set b | b in a.blocks && Hd(h, b).magic == MAGIC_F
  }

  /** The blocks that are in use. */
  function Live(h: Heap, a: Arena): set<int> {
    set b | b in a.blocks && (Hd(h, b).magic == MAGIC_A || Hd(h, b).magic == MAGIC_I)
  }

  /** A block other than b is of a known kind, and if it is free the block after it is not. */
  ghost predicate Quiet(h: Heap, a: Arena, b: int, x: int) {
    && Hd(h, x).magic in {MAGIC_A, MAGIC_I, MAGIC_F, MAGIC_E}
    && (Hd(h, x).magic == MAGIC_F && Next(h, x) in a.blocks && Next(h, x) != b ==> Hd(h, Next(h, x)).magic != MAGIC_F)
  }

  /** The invariant while block b is being worked on; with NIL for b, the invariant. */
  ghost predicate Open(h: Heap, tail: Tails, a: Arena, t: Tree, u: int, b: int) {
    && Tiled(h, tail, a, u) && OwnEnds(a) && (b == NIL || (b in a.blocks && b !in a.leaders))
    && Addrs(t) == Frees(h, a) - {b}
    && forall x {:trigger Quiet(h, a, b, x)} :: x in a.blocks && x != b ==> Quiet(h, a, b, x)
  }

  /** The block after b is not free. */
  predicate NextBusy(h: Heap, a: Arena, b: int) {
    Next(h, b) in a.blocks ==> Hd(h, Next(h, b)).magic != MAGIC_F
  }

  /** The block before b is not free. */
  ghost predicate PrevBusy(h: Heap, a: Arena, b: int) {
    forall x :: x in a.blocks && x != b && Hd(h, x).magic == MAGIC_F ==> Next(h, x) != b
  }

  /** A block that changes its kind is the one worked on. */
  lemma OpenBlock(h: Heap, h': Heap, tail: Tails, a: Arena, t: Tree, t': Tree, u: int, b: int)
    requires Open(h, tail, a, t, u, NIL) && b in a.blocks && b !in a.leaders && NIL !in a.blocks
    requires Addrs(t') == Addrs(t) - {b} && Hd(h', b).size == Hd(h, b).size && Hd(h', b).csize == Hd(h, b).csize
    requires Hd(h', b).clink == Hd(h, b).clink && Hd(h', b).magic != MAGIC_E
    requires forall x {:trigger Hd(h', x)} :: x != b ==> Kept(Hd(h, x), Hd(h', x))
    ensures Open(h', tail, a, t', u, b) && (Hd(h, b).magic == MAGIC_F ==> NextBusy(h', a, b) && PrevBusy(h', a, b))
  {
    At(h, tail, a, u, b);
    TiledFrame(h, h', tail, a, u);
    forall x | x in a.blocks
      ensures x != b ==> Quiet(h', a, b, x)
      ensures x != b && Hd(h', x).magic == MAGIC_F && Hd(h, b).magic == MAGIC_F ==> Next(h', x) != b
    {
      assert Quiet(h, a, NIL, x);
      assert Hd(h', Next(h, x)) == Hd(h', Next(h, x));
    }
    assert Quiet(h, a, NIL, b);
    assert Kept(Hd(h, Next(h, b)), Hd(h', Next(h, b))) || Next(h, b) == b;
  }

  /** The block worked on is done with: it is in use, or it is free, alone, and in the tree. */
  lemma CloseBlock(h: Heap, h': Heap, tail: Tails, a: Arena, t: Tree, t': Tree, u: int, b: int)
    requires Open(h, tail, a, t, u, b) && b != NIL && NIL !in a.blocks
    requires Hd(h', b).magic == MAGIC_F ==> NextBusy(h, a, b) && PrevBusy(h, a, b)
    requires Addrs(t') == Addrs(t) + (if Hd(h', b).magic == MAGIC_F then {b} else {})
    requires Hd(h', b).magic in {MAGIC_A, MAGIC_I, MAGIC_F}
    requires Hd(h', b).size == Hd(h, b).size && Hd(h', b).csize == Hd(h, b).csize && Hd(h', b).clink == Hd(h, b).clink
    requires Hd(h, b).magic != MAGIC_E
    requires forall x {:trigger Hd(h', x)} :: x != b ==> Kept(Hd(h, x), Hd(h', x))
    ensures Open(h', tail, a, t', u, NIL)
  {
    At(h, tail, a, u, b);
    TiledFrame(h, h', tail, a, u);
    forall x | x in a.blocks
      ensures Quiet(h', a, NIL, x)
    {
      At(h, tail, a, u, x);
      assert x != b ==> Quiet(h, a, b, x);
      assert Next(h', x) == Next(h, x);
      assert Next(h, x) != b ==> Kept(Hd(h, Next(h, x)), Hd(h', Next(h, x)));
    }
  }

  // ---- the sum of sizes ----

  lemma Inhabited(s: set<int>)
    ensures s == {} || exists x :: x in s
  {
    if forall x :: x !in s {
      assert s == {};
    }
  }

  ghost function Total(h: Heap, s: set<int>): int {
    if s == {} then 0 else
      Inhabited(s);
      var x :| x in s;
      Hd(h, x).size + Total(h, s - {x})
  }

  lemma {:induction false} TotalRemove(h: Heap, s: set<int>, y: int)
    requires y in s
    ensures Total(h, s) == Hd(h, y).size + Total(h, s - {y})
  {
    var x :| x in s && Total(h, s) == Hd(h, x).size + Total(h, s - {x});
    if x != y {
      TotalRemove(h, s - {x}, y);
      TotalRemove(h, s - {y}, x);
      assert s - {x} - {y} == s - {y} - {x};
    }
  }

  lemma {:induction false} TotalFrame(h: Heap, h': Heap, s: set<int>)
    requires forall x :: x in s ==> Hd(h', x).size == Hd(h, x).size
    ensures Total(h', s) == Total(h, s)
  {
    if s != {} {
      Inhabited(s);
      var x :| x in s && Total(h, s) == Hd(h, x).size + Total(h, s - {x});
      TotalFrame(h, h', s - {x});
      TotalRemove(h', s, x);
    }
  }

  /** When b stops being live. */
  lemma TotalLess(h: Heap, h': Heap, s: set<int>, s': set<int>, b: int)
    requires b in s && s' == s - {b} && forall x :: x in s' ==> Hd(h', x).size == Hd(h, x).size
    ensures Total(h', s') == Total(h, s) - Hd(h, b).size
  {
    TotalRemove(h, s, b);
    TotalFrame(h, h', s');
  }

  /** When b becomes live. */
  lemma TotalMore(h: Heap, h': Heap, s: set<int>, s': set<int>, b: int)
    requires b !in s && s' == s + {b} && forall x :: x in s ==> Hd(h', x).size == Hd(h, x).size
    ensures Total(h', s') == Total(h, s) + Hd(h', b).size
  {
    TotalRemove(h', s', b);
    assert s' - {b} == s;
    TotalFrame(h, h', s);
  }

  // ---- freeing ----

  lemma NoNil(h: Heap, tail: Tails, a: Arena, u: int)
    requires Tiled(h, tail, a, u)
    ensures NIL !in a.blocks && NIL !in a.ends && u > 0
  {
    At(h, tail, a, u, NIL);
  }

  lemma NoLeader(h: Heap, tail: Tails, a: Arena, u: int, b: int)
    requires Tiled(h, tail, a, u) && b in a.blocks && Hd(h, b).magic != MAGIC_E
    ensures b !in a.leaders
  {
    At(h, tail, a, u, b);
  }

  /** Blocks that are neither free nor worked on stay, untouched, with what they are. */
  ghost predicate Others(h: Heap, tail: Tails, a: Arena, h': Heap, tail': Tails, a': Arena, b: int) {
    && (forall x {:trigger Untouched(h, tail, h', tail', x)} :: x in a.blocks && x != b && Hd(h, x).magic != MAGIC_F ==>
          Untouched(h, tail, h', tail', x))
    && (forall x {:trigger x in a'.blocks} :: x in a.blocks && x != b && Hd(h, x).magic != MAGIC_F ==>
          x in a'.blocks && Hd(h', x) == Hd(h, x))
    && (forall x {:trigger x in a'.blocks} :: x in a'.blocks && x != b && Hd(h', x).magic != MAGIC_F ==>
          x in a.blocks && Hd(h, x).magic == Hd(h', x).magic)
  }

  lemma OthersSame(h: Heap, tail: Tails, a: Arena, b: int)
    ensures Others(h, tail, a, h, tail, a, b)
  {}

  /** After b took in the free block c behind it. */
  lemma JoinedOpen(h: Heap, h': Heap, tail: Tails, a: Arena, t: Tree, t': Tree, u: int, b: int)
    requires Open(h, tail, a, t, u, b) && b != NIL && Hd(h, b).magic != MAGIC_F && Hd(h, b).magic != MAGIC_E
    requires Next(h, b) in a.blocks && Hd(h, Next(h, b)).magic == MAGIC_F && Addrs(t') == Addrs(t) - {Next(h, b)}
    requires Joined(h, h', a, b) && Hd(h', b) == Hd(h, b).(size := Hd(h', b).size)
    requires forall x {:trigger Hd(h', x)} :: x != b && x != Next(h, b) ==>
               if x in Addrs(t) then Kept(Hd(h, x), Hd(h', x)) else Hd(h', x) == Hd(h, x)
    ensures Open(h', tail[Next(h', b) := b], Without(a, Next(h, b)), t', u, b)
    ensures NextBusy(h', Without(a, Next(h, b)), b)
    ensures Others(h, tail, a, h', tail[Next(h', b) := b], Without(a, Next(h, b)), b)
  {
    hide Tiled, BlockOk, Clear, Follows, Joined, Quiet, Untouched, NoDup, Frees;
    var c, tail', a' := Next(h, b), tail[Next(h', b) := b], Without(a, Next(h, b));
    FreesIn(h, a);
    NoLeader(h, tail, a, u, c);
    Join(h, h', tail, a, u, b);
    assert Quiet(h, a, b, c) by { At(h, tail, a, u, b); NotSelf(h, tail, a, u, b); }
    forall x | x in a'.blocks && x != b
      ensures Quiet(h', a', b, x)
      ensures Hd(h, x).magic != MAGIC_F ==> Untouched(h, tail, h', tail', x) && Hd(h', x) == Hd(h, x)
      ensures Hd(h', x).magic == Hd(h, x).magic
    {
      assert Quiet(h, a, b, x);
      JoinedOther(h, h', tail, a, t, u, b, x);
      if Hd(h, x).magic != MAGIC_F {
        JoinedUntouched(h, h', tail, a, t, u, b, x);
      }
    }
    NextOfJoined(h, h', tail, a, u, b);
    FreesJoined(h, h', a, b, c);
  }

  lemma FreesIn(h: Heap, a: Arena)
    ensures forall x :: x in Frees(h, a) <==> x in a.blocks && Hd(h, x).magic == MAGIC_F
  {}

  lemma FreesJoined(h: Heap, h': Heap, a: Arena, b: int, c: int)
    requires forall x :: x in a.blocks && x != b && x != c ==> Hd(h', x).magic == Hd(h, x).magic
    ensures Frees(h', Without(a, c)) - {b} == Frees(h, a) - {b} - {c}
  {}

  lemma NotSelf(h: Heap, tail: Tails, a: Arena, u: int, b: int)
    requires Tiled(h, tail, a, u) && b in a.blocks
    ensures Next(h, b) > b > 0
  {
    At(h, tail, a, u, b);
  }

  lemma JoinedOther(h: Heap, h': Heap, tail: Tails, a: Arena, t: Tree, u: int, b: int, x: int)
    requires Tiled(h, tail, a, u) && b in a.blocks && Next(h, b) in a.blocks && Addrs(t) <= Frees(h, a)
    requires forall y {:trigger Hd(h', y)} :: y != b && y != Next(h, b) ==>
               if y in Addrs(t) then Kept(Hd(h, y), Hd(h', y)) else Hd(h', y) == Hd(h, y)
    requires x in a.blocks && x != b && x != Next(h, b) && Quiet(h, a, b, x)
    ensures Quiet(h', Without(a, Next(h, b)), b, x) && Hd(h', x).magic == Hd(h, x).magic
    ensures (Hd(h, x).magic != MAGIC_F ==> Hd(h', x) == Hd(h, x))
  {
    At(h, tail, a, u, x);
    assert Hd(h', x).magic == Hd(h, x).magic && Hd(h', x).size == Hd(h, x).size;
    var n := Next(h, x);
    assert n != b && n != Next(h, b) ==> Hd(h', n).magic == Hd(h, n).magic;
  }

  lemma NextOfJoined(h: Heap, h': Heap, tail: Tails, a: Arena, u: int, b: int)
    requires Tiled(h, tail, a, u) && b in a.blocks && Next(h, b) in a.blocks && Joined(h, h', a, b)
    requires Quiet(h, a, b, Next(h, b)) && Hd(h, Next(h, b)).magic == MAGIC_F
    ensures NextBusy(h', Without(a, Next(h, b)), b)
  {
    At(h, tail, a, u, b);
    At(h, tail, a, u, Next(h, b));
  }

  lemma JoinedUntouched(h: Heap, h': Heap, tail: Tails, a: Arena, t: Tree, u: int, b: int, x: int)
    requires Tiled(h, tail, a, u) && b in a.blocks && Next(h, b) in a.blocks && Addrs(t) <= Frees(h, a)
    requires forall y {:trigger Hd(h', y)} :: y != b && y != Next(h, b) ==>
               if y in Addrs(t) then Kept(Hd(h, y), Hd(h', y)) else Hd(h', y) == Hd(h, y)
    requires x in a.blocks && x != b && x != Next(h, b) && Hd(h, x).magic != MAGIC_F && Joined(h, h', a, b)
    ensures Untouched(h, tail, h', tail[Next(h', b) := b], x)
  {
    OthersUntouched(h, h', tail, a, u, Addrs(t) + {b, Next(h, b)}, x);
    TailElsewhere(h, tail, a, u, Next(h, b), x);
  }

  /** What is behind the block worked on: if it is free, it is a block of the tree. */
  lemma NextKind(h: Heap, tail: Tails, a: Arena, t: Tree, u: int, b: int)
    requires Open(h, tail, a, t, u, b) && b != NIL
    ensures var c := Next(h, b);
            && c != b
            && (Hd(h, c).magic == MAGIC_F ==> Hd(h, c).size > 0 && c in a.blocks && c in Addrs(t) && b !in Addrs(t))
            && (c in a.blocks && Hd(h, c).magic != MAGIC_F ==> NextBusy(h, a, b))
            && (c !in a.blocks ==> NextBusy(h, a, b))
  {
    At(h, tail, a, u, b);
    At(h, tail, a, u, Next(h, b));
  }

  lemma TreeFrame(h: Heap, h': Heap, root: int, t: Tree)
    requires TreeOk(h, root, t) && forall a :: a in Addrs(t) ==> Hd(h', a) == Hd(h, a)
    ensures TreeOk(h', root, t)
  {
    LinkedFrame(h, h', t, NIL);
  }

  /** What is in front of the block worked on. */
  lemma PrevKind(h: Heap, tail: Tails, a: Arena, t: Tree, u: int, b: int)
    requires Open(h, tail, a, t, u, b) && b != NIL
    ensures var c := TailOf(tail, b);
            && c in a.blocks && Next(h, c) == b && c != b && c != NIL && Hd(h, c).size > 0
            && (Hd(h, c).magic == MAGIC_F ==> c in Addrs(t) && b !in Addrs(t) && c !in a.leaders)
            && (Hd(h, c).magic != MAGIC_F ==> PrevBusy(h, a, b))
  {
    var c := TailOf(tail, b);
    At(h, tail, a, u, b);
    At(h, tail, a, u, c);
    NoNil(h, tail, a, u);
    forall x | x in a.blocks && x != b && Hd(h, x).magic == MAGIC_F && Next(h, x) == b
      ensures x == c
    {
      At(h, tail, a, u, x);
    }
  }

  /** After the free block c in front of b took b in. */
  lemma JoinedBack(h: Heap, h': Heap, tail: Tails, a: Arena, t: Tree, t': Tree, u: int, b: int, c: int)
    requires Open(h, tail, a, t, u, b) && b != NIL && Hd(h, b).magic != MAGIC_F && Hd(h, b).magic != MAGIC_E
    requires NextBusy(h, a, b)
    requires c == TailOf(tail, b) && Hd(h, c).magic == MAGIC_F && Addrs(t') == Addrs(t) - {c}
    requires Joined(h, h', a, c) && Kept(Hd(h, c).(size := Hd(h', c).size), Hd(h', c))
    requires forall x {:trigger Hd(h', x)} :: x != b && x != c ==>
               if x in Addrs(t) then Kept(Hd(h, x), Hd(h', x)) else Hd(h', x) == Hd(h, x)
    ensures Open(h', tail[Next(h', c) := c], Without(a, b), t', u, c) && NextBusy(h', Without(a, b), c)
    ensures PrevBusy(h', Without(a, b), c)
    ensures Others(h, tail, a, h', tail[Next(h', c) := c], Without(a, b), b)
  {
    hide Tiled, BlockOk, Clear, Follows, Quiet, Untouched, NoDup, Frees, Joined;
    var tail', a' := tail[Next(h', c) := c], Without(a, b);
    FreesIn(h, a);
    PrevKind(h, tail, a, t, u, b);
    Join(h, h', tail, a, u, c);
    forall x | x in a'.blocks && x != c
      ensures Quiet(h', a', c, x) && (Hd(h', x).magic == MAGIC_F ==> Next(h', x) != c)
      ensures Hd(h, x).magic != MAGIC_F ==> Untouched(h, tail, h', tail', x) && Hd(h', x) == Hd(h, x)
      ensures Hd(h', x).magic == Hd(h, x).magic
    {
      assert Quiet(h, a, b, x);
      JoinedBefore(h, h', tail, a, t, u, b, c, x);
      if Hd(h, x).magic != MAGIC_F {
        JoinedUntouched(h, h', tail, a, t, u, c, x);
      }
    }
    BackNext(h, h', tail, a, t, u, b, c);
    FreesJoined(h, h', a, c, b);
  }

  lemma JoinedBefore(h: Heap, h': Heap, tail: Tails, a: Arena, t: Tree, u: int, b: int, c: int, x: int)
    requires Tiled(h, tail, a, u) && b in a.blocks && c in a.blocks && Next(h, c) == b && Addrs(t) <= Frees(h, a)
    requires Hd(h, c).magic == MAGIC_F
    requires forall y {:trigger Hd(h', y)} :: y != b && y != c ==>
               if y in Addrs(t) then Kept(Hd(h, y), Hd(h', y)) else Hd(h', y) == Hd(h, y)
    requires x in a.blocks && x != b && x != c && Quiet(h, a, b, x)
    ensures Quiet(h', Without(a, b), c, x) && (Hd(h', x).magic == MAGIC_F ==> Next(h', x) != c)
    ensures Hd(h', x).magic == Hd(h, x).magic && (Hd(h, x).magic != MAGIC_F ==> Hd(h', x) == Hd(h, x))
  {
    At(h, tail, a, u, x);
    At(h, tail, a, u, c);
    assert Hd(h', x).magic == Hd(h, x).magic && Hd(h', x).size == Hd(h, x).size;
    var n := Next(h, x);
    assert n != b && n != c ==> Hd(h', n).magic == Hd(h, n).magic;
  }

  lemma BackNext(h: Heap, h': Heap, tail: Tails, a: Arena, t: Tree, u: int, b: int, c: int)
    requires Tiled(h, tail, a, u) && b in a.blocks && c in a.blocks && Next(h, c) == b && Joined(h, h', a, c)
    requires NextBusy(h, a, b)
    ensures NextBusy(h', Without(a, b), c)
  {
    At(h, tail, a, u, b);
    At(h, tail, a, u, c);
    At(h, tail, a, u, Next(h, b));
  }

  /** Two steps. */
  lemma OthersTwice(h0: Heap, t0: Tails, a0: Arena, h1: Heap, t1: Tails, a1: Arena, h2: Heap, t2: Tails, a2: Arena,
                    u: int, b: int, c: int)
    requires Tiled(h0, t0, a0, u) && Others(h0, t0, a0, h1, t1, a1, b) && Others(h1, t1, a1, h2, t2, a2, c)
    requires c == b
      || ((c in a1.blocks ==> Hd(h1, c).magic == MAGIC_F) && (c in a2.blocks ==> Hd(h2, c).magic == MAGIC_F))
    ensures Others(h0, t0, a0, h2, t2, a2, b)
  {
    forall x | x in a0.blocks && x != b && Hd(h0, x).magic != MAGIC_F
      ensures Untouched(h0, t0, h2, t2, x) && x in a2.blocks && Hd(h2, x) == Hd(h0, x)
    {
      At(h0, t0, a0, u, x);
      assert x in a1.blocks && Hd(h1, x) == Hd(h0, x);
      assert x in a2.blocks && Hd(h2, x) == Hd(h1, x);
      UntouchedTwice(h0, t0, h1, t1, h2, t2, x);
    }
  }

  /** After the block worked on joined the tree, free. */
  lemma FreedOthers(h: Heap, h': Heap, tail: Tails, a: Arena, t: Tree, u: int, b: int)
    requires Open(h, tail, a, t, u, b) && b != NIL && OnlyLinks(h[b := Hd(h, b).(magic := MAGIC_F)], h', Addrs(t) + {b})
    ensures Others(h, tail, a, h', tail, a, b)
    ensures forall x {:trigger Hd(h', x)} :: x != b ==> Kept(Hd(h, x), Hd(h', x))
    ensures Kept(Hd(h, b).(magic := MAGIC_F), Hd(h', b))
  {
    forall x
      ensures x != b ==> Kept(Hd(h, x), Hd(h', x)) && (x !in Addrs(t) ==> Hd(h', x) == Hd(h, x))
    {
      assert Hd(h', x) == Hd(h', x);
    }
    forall x | x in a.blocks && x != b && Hd(h, x).magic != MAGIC_F
      ensures Untouched(h, tail, h', tail, x) && Hd(h', x) == Hd(h, x)
    {
      OthersUntouched(h, h', tail, a, u, Addrs(t) + {b}, x);
    }
    assert Hd(h', b) == Hd(h', b);
  }

  /** What is live after the block b was freed. */
  lemma LiveAfter(h: Heap, tail: Tails, a: Arena, h': Heap, tail': Tails, a': Arena, b: int)
    requires Others(h, tail, a, h', tail', a', b) && b in Live(h, a) && (b in a'.blocks ==> Hd(h', b).magic == MAGIC_F)
    ensures Live(h', a') == Live(h, a) - {b} && Total(h', Live(h', a')) == Total(h, Live(h, a)) - Hd(h, b).size
    ensures forall x :: x in Live(h', a') ==> Untouched(h, tail, h', tail', x)
  {
    forall x
      ensures x in Live(h', a') <==> x in Live(h, a) - {b}
      ensures x in Live(h', a') ==> Untouched(h, tail, h', tail', x) && Hd(h', x) == Hd(h, x)
    {
      assert x in a.blocks && x != b && Hd(h, x).magic != MAGIC_F ==> x in a'.blocks && Hd(h', x) == Hd(h, x);
      assert x in a'.blocks && x != b && Hd(h', x).magic != MAGIC_F ==>
            x in a.blocks && Hd(h, x).magic == Hd(h', x).magic;
    }
    TotalLess(h, h', Live(h, a), Live(h', a'), b);
  }

  /** Work begins on a live block. */
  lemma Begin(h: Heap, tail: Tails, a: Arena, t: Tree, u: int, b: int)
    requires Open(h, tail, a, t, u, NIL) && b in Live(h, a)
    ensures Open(h, tail, a, t, u, b) && b in a.blocks && b != NIL && Hd(h, b).magic != MAGIC_F
    ensures Hd(h, b).magic != MAGIC_E && Tiled(h, tail, a, u)
  {
    NoNil(h, tail, a, u);
    NoLeader(h, tail, a, u, b);
    OpenBlock(h, h, tail, a, t, t, u, b);
  }

  lemma NotInTree(h: Heap, tail: Tails, a: Arena, t: Tree, u: int, b: int)
    requires Open(h, tail, a, t, u, b) && b != NIL
    ensures b !in Addrs(t) && 0 < Hd(h, b).size < TOP && NIL !in a.blocks && Tiled(h, tail, a, u)
    ensures Addrs(t) <= a.blocks
  {
    At(h, tail, a, u, b);
    NoNil(h, tail, a, u);
  }

  // ---- allocating ----

  /** After the free block q left the tree and was marked as allocated. */
  lemma TakenOpen(h: Heap, h1: Heap, h2: Heap, tail: Tails, a: Arena, t: Tree, t': Tree, u: int, q: int)
    requires Open(h, tail, a, t, u, NIL) && q in Addrs(t) && Addrs(t') == Addrs(t) - {q} && OnlyLinks(h, h1, Addrs(t))
    requires forall x {:trigger Hd(h2, x)} :: Hd(h2, x) == if x == q then Hd(h1, x).(magic := MAGIC_A) else Hd(h1, x)
    ensures Open(h2, tail, a, t', u, NIL) && q in a.blocks && NextBusy(h2, a, q) && Hd(h2, q).size == Hd(h, q).size
    ensures q !in a.leaders
    ensures Others(h, tail, a, h2, tail, a, q) && Live(h2, a) == Live(h, a) + {q} && q !in Live(h, a)
    ensures Tiled(h, tail, a, u) && Frees(h2, a) == Frees(h, a) - {q}
  {
    hide Tiled, BlockOk, Clear, Follows, Quiet, Untouched, NoDup, LeaderOk;
    NoNil(h, tail, a, u);
    NoLeader(h, tail, a, u, q);
    forall x
      ensures x != q ==> Kept(Hd(h, x), Hd(h2, x)) && (x !in Addrs(t) ==> Hd(h2, x) == Hd(h, x))
      ensures x == q ==> Kept(Hd(h, x).(magic := MAGIC_A), Hd(h2, x))
    {
      assert Hd(h1, x) == Hd(h1, x) && Hd(h2, x) == Hd(h2, x);
    }
    OpenBlock(h, h2, tail, a, t, t', u, q);
    CloseBlock(h2, h2, tail, a, t', t', u, q);
    forall x | x in a.blocks && x != q && Hd(h, x).magic != MAGIC_F
      ensures Untouched(h, tail, h2, tail, x)
    {
      OthersUntouched(h, h2, tail, a, u, Addrs(t), x);
    }
  }

  /** After the allocated block q gave up all but `size` bytes to the block behind it. */
  lemma CutOpen(h: Heap, h': Heap, tail: Tails, a: Arena, t: Tree, u: int, q: int, size: int)
    requires Open(h, tail, a, t, u, NIL) && q in a.blocks && Hd(h, q).magic == MAGIC_A && NextBusy(h, a, q)
    requires u <= size < Hd(h, q).size && size % u == 0
    requires forall x {:trigger Hd(h', x)} :: Hd(h', x) ==
               if x == q then Hd(h, x).(size := size)
                 else if x == q + size then Hd(h, x).(size := Hd(h, q).size - size, magic := MAGIC_A) else Hd(h, x)
    ensures Open(h', CutTails(tail, h, q, size), With(a, q + size, LimitOf(a, q)), t, u, q + size)
    ensures NextBusy(h', With(a, q + size, LimitOf(a, q)), q + size)
    ensures PrevBusy(h', With(a, q + size, LimitOf(a, q)), q + size) && q + size !in a.blocks
    ensures forall x :: x in a.blocks && x != q && Hd(h, x).magic != MAGIC_F ==>
              Untouched(h, tail, h', CutTails(tail, h, q, size), x)
  {
    hide Tiled, BlockOk, Clear, Follows, Quiet, Untouched, NoDup, LeaderOk;
    var b, tail', a' := q + size, CutTails(tail, h, q, size), With(a, q + size, LimitOf(a, q));
    NoLeader(h, tail, a, u, q);
    NoNil(h, tail, a, u);
    NotSelf(h, tail, a, u, q);
    CutHeaders(h, h', tail, a, u, q, size);
    Split(h, h', tail, a, u, q, size);
    forall x | x in a'.blocks && x != b
      ensures Quiet(h', a', b, x) && (Hd(h', x).magic == MAGIC_F ==> Next(h', x) != b)
    {
      assert Quiet(h, a, NIL, x);
      CutOther(h, h', tail, a, u, q, size, x);
    }
    CutNext(h, h', tail, a, u, q, size);
    forall x | x in a.blocks && x != q && Hd(h, x).magic != MAGIC_F
      ensures Untouched(h, tail, h', tail', x)
    {
      CutUntouched(h, h', tail, a, u, q, size, x);
    }
    assert Frees(h', a') - {b} == Frees(h, a);
    LeadersIn(h, tail, a, u, b);
    OwnKept(h, tail, a, u, b, LimitOf(a, q));
  }

  lemma OwnKept(h: Heap, tail: Tails, a: Arena, u: int, b: int, l: int)
    requires Tiled(h, tail, a, u) && OwnEnds(a) && b !in a.blocks
    ensures OwnEnds(With(a, b, l))
  {
    forall i | 0 <= i < |a.leaders|
      ensures a.leaders[i] != b
    {
      LeaderIn(h, tail, a, u, i);
    }
    var a' := With(a, b, l);
    forall i, j | 0 <= i < j < |a'.leaders|
      ensures LimitOf(a', a'.leaders[i]) != LimitOf(a', a'.leaders[j])
    {
      assert LimitOf(a, a.leaders[i]) != LimitOf(a, a.leaders[j]);
    }
  }

  lemma LeadersIn(h: Heap, tail: Tails, a: Arena, u: int, b: int)
    requires Tiled(h, tail, a, u) && b !in a.blocks
    ensures b !in a.leaders
  {
    At(h, tail, a, u, b);
  }

  lemma CutHeaders(h: Heap, h': Heap, tail: Tails, a: Arena, u: int, q: int, size: int)
    requires Tiled(h, tail, a, u) && q in a.blocks && Hd(h, q).magic == MAGIC_A && u <= size < Hd(h, q).size
    requires forall x {:trigger Hd(h', x)} :: Hd(h', x) ==
               if x == q then Hd(h, x).(size := size)
                 else if x == q + size then Hd(h, x).(size := Hd(h, q).size - size, magic := MAGIC_A) else Hd(h, x)
    ensures Cut(h, h', a, q, size) && u > 0
  {
    At(h, tail, a, u, q);
  }

  lemma CutOther(h: Heap, h': Heap, tail: Tails, a: Arena, u: int, q: int, size: int, x: int)
    requires Tiled(h, tail, a, u) && q in a.blocks && Hd(h, q).magic == MAGIC_A && u <= size < Hd(h, q).size
    requires x in a.blocks && Quiet(h, a, NIL, x)
    requires forall x {:trigger Hd(h', x)} :: Hd(h', x) ==
               if x == q then Hd(h, x).(size := size)
                 else if x == q + size then Hd(h, x).(size := Hd(h, q).size - size, magic := MAGIC_A) else Hd(h, x)
    ensures Quiet(h', With(a, q + size, LimitOf(a, q)), q + size, x)
    ensures (Hd(h', x).magic == MAGIC_F ==> Next(h', x) != q + size)
  {
    At(h, tail, a, u, q);
    At(h, tail, a, u, x);
    assert Hd(h', Next(h, x)) == Hd(h', Next(h, x));
    NoNil(h, tail, a, u);
  }

  lemma CutNext(h: Heap, h': Heap, tail: Tails, a: Arena, u: int, q: int, size: int)
    requires Tiled(h, tail, a, u) && q in a.blocks && Hd(h, q).magic == MAGIC_A && u <= size < Hd(h, q).size
    requires NextBusy(h, a, q)
    requires forall x {:trigger Hd(h', x)} :: Hd(h', x) ==
               if x == q then Hd(h, x).(size := size)
                 else if x == q + size then Hd(h, x).(size := Hd(h, q).size - size, magic := MAGIC_A) else Hd(h, x)
    ensures NextBusy(h', With(a, q + size, LimitOf(a, q)), q + size)
  {
    At(h, tail, a, u, q);
    assert Hd(h', Next(h, q)) == Hd(h', Next(h, q));
  }

  lemma CutUntouched(h: Heap, h': Heap, tail: Tails, a: Arena, u: int, q: int, size: int, x: int)
    requires Tiled(h, tail, a, u) && q in a.blocks && u <= size < Hd(h, q).size && x in a.blocks && x != q
    requires forall x {:trigger Hd(h', x)} :: Hd(h', x) ==
               if x == q then Hd(h, x).(size := size)
                 else if x == q + size then Hd(h, x).(size := Hd(h, q).size - size, magic := MAGIC_A) else Hd(h, x)
    ensures Untouched(h, tail, h', CutTails(tail, h, q, size), x)
  {
    At(h, tail, a, u, q);
    At(h, tail, a, u, x);
    Disjoint(h, tail, a, u, q, x);
    TailElsewhere(h, tail, a, u, q, x);
  }

  /** What is live after q, just allocated, was cut and the rest joined the tree. */
  lemma LiveCut(h: Heap, tail: Tails, a: Arena, h3: Heap, h4: Heap, q: int, b: int, l: int)
    requires b !in a.blocks && Hd(h4, b).magic == MAGIC_F && q in a.blocks
    requires forall x {:trigger Hd(h3, x)} :: x != b ==>
               Hd(h3, x).magic == Hd(h, x).magic && (x != q ==> Hd(h3, x).size == Hd(h, x).size)
    requires forall x {:trigger Hd(h4, x)} :: x != b ==> Kept(Hd(h3, x), Hd(h4, x))
    ensures Live(h4, With(a, b, l)) == Live(h, a)
    ensures (forall x :: x in Live(h, a) && x != q ==> Hd(h4, x).size == Hd(h, x).size)
  {
    forall x
      ensures x != b ==> Hd(h4, x).magic == Hd(h, x).magic && (x != q ==> Hd(h4, x).size == Hd(h, x).size)
    {
      assert Hd(h4, x) == Hd(h4, x) && Hd(h3, x) == Hd(h3, x);
    }
  }

  lemma LiveSize(h: Heap, tail: Tails, a: Arena, u: int, x: int)
    requires Tiled(h, tail, a, u) && x in Live(h, a)
    ensures Hd(h, x).size > 0 && x in a.blocks && Hd(h, x).magic != MAGIC_F
  {
    At(h, tail, a, u, x);
  }

  lemma TakenTotal(h: Heap, h2: Heap, a: Arena, q: int)
    requires Live(h2, a) == Live(h, a) + {q} && q !in Live(h, a)
    requires forall x :: x in Live(h, a) ==> Hd(h2, x).size == Hd(h, x).size
    ensures Total(h2, Live(h2, a)) == Total(h, Live(h, a)) + Hd(h2, q).size
  {
    TotalMore(h, h2, Live(h, a), Live(h2, a), q);
  }

  /** Neither part of an allocated block is in the tree. */
  lemma CutTree(h: Heap, tail: Tails, a: Arena, t: Tree, u: int, q: int, size: int)
    requires Open(h, tail, a, t, u, NIL) && q in a.blocks && Hd(h, q).magic == MAGIC_A && 0 < size < Hd(h, q).size
    ensures q !in Addrs(t) && q + size !in Addrs(t) && q + size !in a.blocks && u > 0 && q + size > 0
  {
    At(h, tail, a, u, q);
  }

  lemma CarvedLive(h: Heap, tl: Tails, a: Arena, h3: Heap, h4: Heap, tail: Tails, a': Arena, u: int, q: int, t: int)
    requires Tiled(h, tl, a, u) && q in Live(h, a) && t !in a.blocks && a.blocks <= a'.blocks
    requires Live(h4, a') == Live(h, a)
    requires forall x :: x in a.blocks && x != q && Hd(h, x).magic != MAGIC_F ==> Untouched(h, tl, h3, tail, x)
    requires Others(h3, tail, a', h4, tail, a', t)
    requires forall x {:trigger Hd(h3, x)} :: x != t ==> Hd(h3, x).magic == Hd(h, x).magic
    requires forall x :: x in Live(h, a) && x != q ==> Hd(h4, x).size == Hd(h, x).size
    ensures forall x :: x in Live(h, a) && x != q ==> Untouched(h, tl, h4, tail, x)
    ensures Total(h4, Live(h4, a') - {q}) == Total(h, Live(h, a) - {q})
  {
    hide Tiled, Untouched, Total;
    forall x | x in Live(h, a) && x != q
      ensures Untouched(h, tl, h4, tail, x)
    {
      LiveSize(h, tl, a, u, x);
      assert Hd(h3, x).magic == Hd(h, x).magic;
      assert Untouched(h3, tail, h4, tail, x);
      UntouchedTwice(h, tl, h3, tail, h4, tail, x);
    }
    TotalFrame(h, h4, Live(h, a) - {q});
  }

  /** b was the smallest free block that fits. */
  ghost predicate BestFit(h: Heap, a: Arena, b: int, size: int) {
    b in Frees(h, a) && Hd(h, b).size >= size && forall f :: f in Frees(h, a) && Hd(h, f).size >= size ==>
      && Hd(h, f).size >= Hd(h, b).size
  }

  lemma FreeBlocks(h: Heap, tail: Tails, a: Arena, t: Tree, u: int, q: int)
    requires Open(h, tail, a, t, u, NIL) && q in Addrs(t)
    ensures Addrs(t) == Frees(h, a) && q > 0 && Tiled(h, tail, a, u) && q in a.blocks
  {
    NoNil(h, tail, a, u);
    At(h, tail, a, u, q);
  }

  lemma FitsOr(h: Heap, tail: Tails, a: Arena, t: Tree, u: int, size: int, x: int, q: int)
    requires Open(h, tail, a, t, u, NIL)
    requires x != NIL ==> x in Addrs(t) && Hd(h, x).size == size
    requires x == NIL && q != NIL ==> q in Addrs(t) && Hd(h, q).size > size
    requires x == NIL && q == NIL ==> forall f :: f in Addrs(t) ==> Hd(h, f).size < size
    ensures (exists f :: f in Frees(h, a) && Hd(h, f).size >= size) <==> x != NIL || q != NIL
  {
    NoNil(h, tail, a, u);
    assert Addrs(t) == Frees(h, a);
  }

  lemma TakenRest(h: Heap, a: Arena, q: int, sum: int)
    requires q in Live(h, a) && Total(h, Live(h, a)) == sum
    ensures Total(h, Live(h, a) - {q}) == sum - Hd(h, q).size
  {
    TotalRemove(h, Live(h, a), q);
  }

  lemma CutTotal(h: Heap, a: Arena, q: int)
    requires q in Live(h, a)
    ensures Total(h, Live(h, a)) == Total(h, Live(h, a) - {q}) + Hd(h, q).size
  {
    TotalRemove(h, Live(h, a), q);
  }

  lemma AllUntouched(h: Heap, tail: Tails, a: Arena)
    ensures forall x {:trigger Untouched(h, tail, h, tail, x)} :: Untouched(h, tail, h, tail, x)
  {}

  /** What the retry leaves alone after the first attempt did. */
  lemma RetryUntouched(h0: Heap, t0: Tails, a0: Arena, h1: Heap, t1: Tails, a1: Arena, h2: Heap, t2: Tails, u: int)
    requires Tiled(h0, t0, a0, u) && Live(h1, a1) == Live(h0, a0)
    requires forall x :: x in Live(h0, a0) ==> Untouched(h0, t0, h1, t1, x)
    requires forall x :: x in Live(h1, a1) ==> Untouched(h1, t1, h2, t2, x)
    ensures forall x :: x in Live(h0, a0) ==> Untouched(h0, t0, h2, t2, x)
  {
    hide Tiled, Untouched;
    forall x | x in Live(h0, a0)
      ensures Untouched(h0, t0, h2, t2, x)
    {
      LiveSize(h0, t0, a0, u, x);
      UntouchedTwice(h0, t0, h1, t1, h2, t2, x);
    }
  }

  /** The amounts asked for are whole units. */
  lemma GrantUnits(size: int, room: int, u: int)
    requires u > 0 && size % u == 0
    ensures room - u < room / u * u <= room && (room / u * u) % u == 0 && (room / u * u < size <==> room < size)
  {
    var k, j := room / u, size / u;
    assert room == u * k + room % u && size == u * j;
    ModZero(k * u, u, k);
    ScaleBound(u, k - j);
    assert u * (k - j) == k * u - size;
  }

  /** Whole numbers of units differ by whole units. */
  lemma UnitGap(r: int, s: int, u: int)
    requires u > 0 && r % u == 0 && s % u == 0
    ensures r > s - u ==> r >= s
  {
    var k, j := r / u, s / u;
    assert r == u * k && s == u * j && u * (k - j) == r - s;
    ScaleBound(u, k - j);
  }

  /** The next whole number of units. */
  lemma WholeUnits(n: int, u: int)
    requires u > 0
    ensures var r := (n + u - 1) / u * u; r % u == 0 && n <= r <= n + u - 1
  {
    var k := (n + u - 1) / u;
    ModZero(k * u, u, k);
    assert n + u - 1 == u * k + (n + u - 1) % u;
  }

  // ---- chains ----

  /** The chains stand as they did: the same leaders in the same order, each with its end mark. */
  ghost predicate SameChains(a: Arena, a': Arena) {
    a'.leaders == a.leaders && a'.ends == a.ends && forall l :: l in a.leaders ==> LimitOf(a', l) == LimitOf(a, l)
  }

  /** A chain of ns bytes between leader and end mark was put at t, before the others. */
  ghost predicate NewChainAt(a: Arena, a': Arena, u: int, t: int, ns: int) {
    && a'.leaders == [t] + a.leaders && a'.ends == a.ends + {t + u + ns} && LimitOf(a', t) == t + u + ns
    && t !in a.leaders && forall l :: l in a.leaders ==> LimitOf(a', l) == LimitOf(a, l)
  }

  /** The first chain became alloc bytes longer. */
  ghost predicate Longer(a: Arena, a': Arena, alloc: int) {
    && |a.leaders| > 0 && a'.leaders == a.leaders
    && var e := LimitOf(a, a.leaders[0]);
    && a'.ends == a.ends - {e} + {e + alloc} && LimitOf(a', a.leaders[0]) == e + alloc
    && forall l :: l in a.leaders && l != a.leaders[0] ==> LimitOf(a', l) == LimitOf(a, l)
  }

  /** The ns bytes and two units of new memory at t went, whole, to the end of the first chain, if they lie
      right behind its end mark, or else into a new chain. */
  ghost predicate Grew(a: Arena, a': Arena, u: int, t: int, ns: int) {
    if |a.leaders| > 0 && t == LimitOf(a, a.leaders[0]) + u then Longer(a, a', ns + u + u)
    else NewChainAt(a, a', u, t, ns)
  }

  lemma ChainsSame(a: Arena)
    ensures SameChains(a, a)
  {}

  lemma NewChainOn(a: Arena, a1: Arena, a2: Arena, u: int, t: int, ns: int)
    requires NewChainAt(a, a1, u, t, ns) && SameChains(a1, a2)
    ensures NewChainAt(a, a2, u, t, ns)
  {
    assert t in a1.leaders;
    assert forall l :: l in a.leaders ==> l in a1.leaders;
  }

  lemma GrewFirst(a: Arena, a': Arena, u: int, t: int, ns: int)
    requires |a.leaders| > 0 && t == LimitOf(a, a.leaders[0]) + u && Longer(a, a', ns + u + u)
    ensures Grew(a, a', u, t, ns)
  {}

  lemma GrewNew(a: Arena, a': Arena, u: int, t: int, ns: int)
    requires !(|a.leaders| > 0 && t == LimitOf(a, a.leaders[0]) + u) && NewChainAt(a, a', u, t, ns)
    ensures Grew(a, a', u, t, ns)
  {}

  lemma GrewOn(a: Arena, a1: Arena, a2: Arena, u: int, t: int, ns: int)
    requires Grew(a, a1, u, t, ns) && SameChains(a1, a2)
    ensures Grew(a, a2, u, t, ns)
  {
    if |a.leaders| > 0 && t == LimitOf(a, a.leaders[0]) + u {
    } else {
      NewChainOn(a, a1, a2, u, t, ns);
    }
  }

  lemma LongerChain(h: Heap, tail: Tails, a: Arena, t: Tree, u: int, e: int, alloc: int)
    requires Open(h, tail, a, t, u, NIL) && |a.leaders| > 0 && e == LimitOf(a, a.leaders[0])
    ensures Longer(a, Extended(a, e, alloc), alloc)
  {
    LimitIn(h, tail, a, u, 0);
    forall l | l in a.leaders
      ensures l != e && (l != a.leaders[0] ==> LimitOf(a, l) != e)
    {
      var i :| 0 <= i < |a.leaders| && a.leaders[i] == l;
      LimitIn(h, tail, a, u, i);
      assert i > 0 ==> LimitOf(a, a.leaders[0]) != LimitOf(a, a.leaders[i]);
    }
  }

  lemma ChainedNew(h: Heap, tail: Tails, a: Arena, t: Tree, u: int, l: int, ns: int)
    requires Open(h, tail, a, t, u, NIL) && FreshMemory(h, a, u, l, ns + 2 * u) && ns >= u
    ensures NewChainAt(a, Chained(a, u, l, ns), u, l, ns)
  {
    forall x | x in a.leaders
      ensures x != l && x != l + u
    {
      var i :| 0 <= i < |a.leaders| && a.leaders[i] == x;
      LeaderIn(h, tail, a, u, i);
      At(h, tail, a, u, x);
    }
  }

  lemma CutChains(h: Heap, tail: Tails, a: Arena, t: Tree, u: int, b: int, size: int)
    requires Open(h, tail, a, t, u, NIL) && b in a.blocks && 0 < size < Hd(h, b).size
    ensures SameChains(a, With(a, b + size, LimitOf(a, b)))
  {
    forall x | x in a.leaders
      ensures x != b + size
    {
      var i :| 0 <= i < |a.leaders| && a.leaders[i] == x;
      LeaderIn(h, tail, a, u, i);
      At(h, tail, a, u, b);
    }
  }

  /** The end of the first chain, by its leader. */
  lemma FirstChain(h: Heap, tail: Tails, a: Arena, t: Tree, u: int)
    requires Open(h, tail, a, t, u, NIL)
    ensures |a.leaders| > 0 ==>
              && a.leaders[0] + Hd(h, a.leaders[0]).csize == LimitOf(a, a.leaders[0])
              && LimitOf(a, a.leaders[0]) in a.ends && a.leaders[0] in a.blocks && a.leaders[0] != NIL
    ensures Tiled(h, tail, a, u)
  {
    if |a.leaders| > 0 {
      assert LeaderOk(h, a, u, 0);
      LeaderIn(h, tail, a, u, 0);
      At(h, tail, a, u, a.leaders[0]);
      NoNil(h, tail, a, u);
    }
  }

  /** After a new chain with one allocated block. */
  lemma ChainOpen(h: Heap, h': Heap, tail: Tails, a: Arena, t: Tree, u: int, l: int, ns: int)
    requires Open(h, tail, a, t, u, NIL) && FreshMemory(h, a, u, l, ns + u + u) && ns >= u && ns % u == 0
    requires NewHeaders(h, h', a, u, l, ns) && Hd(h', l + u).magic == MAGIC_A
    ensures Open(h', ChainTails(tail, u, l, ns), Chained(a, u, l, ns), t, u, NIL) && l + u > 0 && l + u !in a.blocks
    ensures Live(h', Chained(a, u, l, ns)) == Live(h, a) + {l + u} && l + u !in Live(h, a)
    ensures NextBusy(h', Chained(a, u, l, ns), l + u)
    ensures forall x :: x in Live(h, a) ==> Hd(h', x) == Hd(h, x)
    ensures forall x :: x in Addrs(t) ==> Hd(h', x) == Hd(h, x) && x != l && x != l + u && x != l + u + ns
  {
    hide Tiled, BlockOk, Clear, Follows, Quiet, Untouched, NoDup, LeaderOk, FreshMemory;
    var tail', a' := ChainTails(tail, u, l, ns), Chained(a, u, l, ns);
    NoNil(h, tail, a, u);
    NewChain(h, h', tail, a, u, l, ns);
    ChainPlaces(h, h', a, u, l, ns);
    forall x | x in a'.blocks
      ensures Quiet(h', a', NIL, x)
    {
      if x in a.blocks {
        assert Quiet(h, a, NIL, x);
        ChainQuiet(h, h', tail, a, u, l, ns, x);
      } else {
        NewQuiet(h, h', a, u, l, ns, x);
      }
    }
    assert Frees(h', a') == Frees(h, a);
    assert Live(h', a') == Live(h, a) + {l + u};
  }

  lemma ChainPlaces(h: Heap, h': Heap, a: Arena, u: int, l: int, ns: int)
    requires FreshMemory(h, a, u, l, ns + u + u) && NewHeaders(h, h', a, u, l, ns) && u > 0
    ensures l > 0 && Hd(h', l).magic == MAGIC_E && forall x :: x in a.blocks ==> Hd(h', x) == Hd(h, x)
  {}

  lemma NewQuiet(h: Heap, h': Heap, a: Arena, u: int, l: int, ns: int, x: int)
    requires NewHeaders(h, h', a, u, l, ns) && Hd(h', l + u).magic == MAGIC_A && (x == l || x == l + u)
    ensures Quiet(h', Chained(a, u, l, ns), NIL, x)
  {}

  lemma ChainQuiet(h: Heap, h': Heap, tail: Tails, a: Arena, u: int, l: int, ns: int, x: int)
    requires Tiled(h, tail, a, u) && FreshMemory(h, a, u, l, ns + u + u) && ns >= u && NewHeaders(h, h', a, u, l, ns)
    requires x in a.blocks && Quiet(h, a, NIL, x)
    ensures Quiet(h', Chained(a, u, l, ns), NIL, x)
  {
    At(h, tail, a, u, x);
    NoNil(h, tail, a, u);
    Apart(h, h', tail, a, u, l, ns, x);
    Apart(h, h', tail, a, u, l, ns, Next(h, x));
  }

  /** What is in use is not touched by a new chain. */
  lemma ChainUntouched(h: Heap, h': Heap, tail: Tails, a: Arena, u: int, l: int, ns: int, x: int)
    requires Tiled(h, tail, a, u) && FreshMemory(h, a, u, l, ns + u + u) && ns >= u && x in a.blocks
    requires forall y {:trigger Hd(h', y)} :: y != l && y != l + u && y != l + u + ns ==> Hd(h', y) == Hd(h, y)
    ensures Untouched(h, tail, h', ChainTails(tail, u, l, ns), x)
  {
    At(h, tail, a, u, x);
  }

  /** After the first chain grew by a block of `alloc` bytes, marked as allocated. */
  lemma GrownOpen(h: Heap, h': Heap, tail: Tails, a: Arena, t: Tree, u: int, l: int, e: int, alloc: int)
    requires Open(h, tail, a, t, u, NIL) && alloc >= u && alloc % u == 0 && |a.leaders| > 0 && l == a.leaders[0]
    requires e == LimitOf(a, l)
    requires FreshMemory(h, a, u, e + u, alloc) && Grown(h, h', a, l, e, alloc) && Hd(h', e).magic == MAGIC_A
    requires e in a.ends && l in a.blocks
    ensures Open(h', tail[e + alloc := e], Extended(a, e, alloc), t, u, NIL)
    ensures Live(h', Extended(a, e, alloc)) == Live(h, a) + {e} && e !in Live(h, a)
    ensures forall x :: x in Live(h, a) ==> Hd(h', x) == Hd(h, x)
    ensures forall x :: x in Addrs(t) ==> Hd(h', x) == Hd(h, x)
    ensures forall x :: x in Live(h, a) ==> x != l
  {
    hide Tiled, BlockOk, Clear, Follows, Quiet, Untouched, NoDup, LeaderOk, FreshMemory;
    var tail', a' := tail[e + alloc := e], Extended(a, e, alloc);
    NoNil(h, tail, a, u);
    ExtendChain(h, h', tail, a, u, l, e, alloc);
    NoEnd(h, tail, a, u, e);
    LeaderKind(h, tail, a, u, l);
    forall x | x in a'.blocks
      ensures Quiet(h', a', NIL, x)
    {
      if x in a.blocks {
        assert Quiet(h, a, NIL, x);
        GrownQuiet(h, h', tail, a, u, l, e, alloc, x);
      } else {
        assert x == e && Hd(h', e).magic == MAGIC_A;
        Marked(h', a', e);
      }
    }
    assert Frees(h', a') == Frees(h, a);
    assert Live(h', a') == Live(h, a) + {e};
  }

  lemma Marked(h: Heap, a: Arena, x: int)
    requires Hd(h, x).magic == MAGIC_A
    ensures Quiet(h, a, NIL, x)
  {}

  lemma NoEnd(h: Heap, tail: Tails, a: Arena, u: int, e: int)
    requires Tiled(h, tail, a, u) && e in a.ends
    ensures e !in a.blocks
  {
    At(h, tail, a, u, e);
  }

  lemma LeaderKind(h: Heap, tail: Tails, a: Arena, u: int, l: int)
    requires Tiled(h, tail, a, u) && l in a.leaders
    ensures Hd(h, l).magic == MAGIC_E && l in a.blocks
  {
    At(h, tail, a, u, l);
  }

  lemma GrownQuiet(h: Heap, h': Heap, tail: Tails, a: Arena, u: int, l: int, e: int, alloc: int, x: int)
    requires Tiled(h, tail, a, u) && Grown(h, h', a, l, e, alloc) && Hd(h', e).magic == MAGIC_A && e in a.ends
    requires x in a.blocks && Quiet(h, a, NIL, x)
    ensures Quiet(h', Extended(a, e, alloc), NIL, x)
  {
    At(h, tail, a, u, x);
    At(h, tail, a, u, e);
    NoNil(h, tail, a, u);
  }

  lemma GrownUntouched(h: Heap, h': Heap, tail: Tails, a: Arena, u: int, l: int, e: int, alloc: int, x: int)
    requires Tiled(h, tail, a, u) && FreshMemory(h, a, u, e + u, alloc) && alloc >= u && e in a.ends && l in a.blocks
    requires x in a.blocks && x != l
    requires forall y {:trigger Hd(h', y)} :: y != l && y != e && y != e + alloc ==> Hd(h', y) == Hd(h, y)
    ensures Untouched(h, tail, h', tail[e + alloc := e], x)
  {
    At(h, tail, a, u, x);
    At(h, tail, a, u, l);
  }

  lemma TiledOf(h: Heap, tail: Tails, a: Arena, t: Tree, u: int)
    requires Open(h, tail, a, t, u, NIL)
    ensures Tiled(h, tail, a, u)
  {}

  lemma SizeQuarter(size: int)
    requires size >= 32
    ensures size / 4 > 0
  {}

  lemma EndApart(h: Heap, tail: Tails, a: Arena, t: Tree, u: int, l: int, e: int, alloc: int)
    requires Open(h, tail, a, t, u, NIL) && e in a.ends && l in a.blocks && FreshMemory(h, a, u, e + u, alloc)
    requires alloc >= u
    ensures e != l && e + alloc != l && alloc > 0 && (forall x :: x in a.blocks || x in a.ends ==> x != e + alloc)
  {
    At(h, tail, a, u, e);
    At(h, tail, a, u, l);
    forall x | x in a.blocks || x in a.ends
      ensures x != e + alloc
    {
      At(h, tail, a, u, x);
    }
  }

  lemma GrownHeaders(h: Heap, h': Heap, a: Arena, l: int, e: int, alloc: int)
    requires e != l && e + alloc != l && alloc > 0 && forall x :: x in a.blocks || x in a.ends ==> x != e + alloc
    requires h' == h[e := Hd(h, e).(magic := MAGIC_A, size := alloc)]
                      [e + alloc := Hd(h, e + alloc).(magic := MAGIC_E)]
                      [l := Hd(h, l).(csize := Hd(h, l).csize + alloc)]
    ensures Grown(h, h', a, l, e, alloc) && Hd(h', e).magic == MAGIC_A
    ensures forall y {:trigger Hd(h', y)} :: y != l && y != e && y != e + alloc ==> Hd(h', y) == Hd(h, y)
  {}

  lemma ChainHeaders(h: Heap, h': Heap, tail: Tails, a: Arena, t: Tree, u: int, l: int, ns: int)
    requires Open(h, tail, a, t, u, NIL) && FreshMemory(h, a, u, l, ns + u + u) && ns >= u
    requires h' == h[l := Hd(h, l).(magic := MAGIC_E, size := u, csize := ns + u,
                                    clink := if |a.leaders| > 0 then a.leaders[0] else NIL)]
                   [l + u := Hd(h, l + u).(magic := MAGIC_A, size := ns)]
                   [l + u + ns := Hd(h, l + u + ns).(magic := MAGIC_E)]
    ensures NewHeaders(h, h', a, u, l, ns) && Hd(h', l + u).magic == MAGIC_A && u > 0
    ensures forall y {:trigger Hd(h', y)} :: y != l && y != l + u && y != l + u + ns ==> Hd(h', y) == Hd(h, y)
  {
    NoNil(h, tail, a, u);
    forall x | x in a.blocks || x in a.ends
      ensures Hd(h', x) == Hd(h, x)
    {
      At(h, tail, a, u, x);
    }
  }

  /** A block the retry allocated was not in use before the first attempt either. */
  lemma RetryFresh(h0: Heap, a0: Arena, h1: Heap, a1: Arena, a2: Arena, b: int)
    requires Live(h1, a1) == Live(h0, a0)
    ensures b !in Live(h1, a1) ==> b !in Live(h0, a0)
  {}

  /** All of it for a chain made longer. */
  lemma LengthenedOpen(h: Heap, h': Heap, tail: Tails, a: Arena, t: Tree, u: int, l: int, e: int, alloc: int)
    requires Open(h, tail, a, t, u, NIL) && alloc >= u && alloc % u == 0 && |a.leaders| > 0 && l == a.leaders[0]
    requires e == LimitOf(a, l)
    requires FreshMemory(h, a, u, e + u, alloc) && e in a.ends && l in a.blocks
    requires e != l && e + alloc != l && alloc > 0 && forall x :: x in a.blocks || x in a.ends ==> x != e + alloc
    requires h' == h[e := Hd(h, e).(magic := MAGIC_A, size := alloc)]
                      [e + alloc := Hd(h, e + alloc).(magic := MAGIC_E)]
                      [l := Hd(h, l).(csize := Hd(h, l).csize + alloc)]
    ensures Open(h', tail[e + alloc := e], Extended(a, e, alloc), t, u, NIL) && Hd(h', e).size == alloc
    ensures Live(h', Extended(a, e, alloc)) == Live(h, a) + {e} && e !in Live(h, a)
    ensures forall x :: x in Live(h, a) ==> Hd(h', x).size == Hd(h, x).size
    ensures forall x :: x in Addrs(t) ==> Hd(h', x) == Hd(h, x)
    ensures forall x :: x in Live(h, a) ==> Untouched(h, tail, h', tail[e + alloc := e], x)
  {
    hide Tiled, Quiet, Untouched, NoDup, FreshMemory, Frees, Addrs;
    GrownHeaders(h, h', a, l, e, alloc);
    GrownOpen(h, h', tail, a, t, u, l, e, alloc);
    forall x | x in Live(h, a)
      ensures Untouched(h, tail, h', tail[e + alloc := e], x)
    {
      LiveSize(h, tail, a, u, x);
      GrownUntouched(h, h', tail, a, u, l, e, alloc, x);
    }
  }

  /** All of it for a new chain. */
  lemma LedOpen(h: Heap, h': Heap, tail: Tails, a: Arena, t: Tree, u: int, l: int, ns: int)
    requires Open(h, tail, a, t, u, NIL) && FreshMemory(h, a, u, l, ns + u + u) && ns >= u && ns % u == 0
    requires h' == h[l := Hd(h, l).(magic := MAGIC_E, size := u, csize := ns + u,
                                    clink := if |a.leaders| > 0 then a.leaders[0] else NIL)]
                   [l + u := Hd(h, l + u).(magic := MAGIC_A, size := ns)]
                   [l + u + ns := Hd(h, l + u + ns).(magic := MAGIC_E)]
    ensures var a' := Chained(a, u, l, ns);
            && Open(h', ChainTails(tail, u, l, ns), a', t, u, NIL) && NextBusy(h', a', l + u)
            && Hd(h', l + u).size == ns && Hd(h', l + u).magic == MAGIC_A && l + u in a'.blocks && l + u > 0
            && Live(h', a') == Live(h, a) + {l + u} && l + u !in Live(h, a)
            && (forall x :: x in Live(h, a) ==> Hd(h', x).size == Hd(h, x).size)
            && (forall x :: x in Addrs(t) ==> Hd(h', x) == Hd(h, x))
            && (forall x :: x in Live(h, a) ==> Untouched(h, tail, h', ChainTails(tail, u, l, ns), x))
  {
    hide Tiled, Quiet, Untouched, NoDup, FreshMemory, Frees, Addrs, NextBusy;
    ChainHeaders(h, h', tail, a, t, u, l, ns);
    ChainOpen(h, h', tail, a, t, u, l, ns);
    forall x | x in Live(h, a)
      ensures Untouched(h, tail, h', ChainTails(tail, u, l, ns), x)
    {
      LiveSize(h, tail, a, u, x);
      ChainUntouched(h, h', tail, a, u, l, ns, x);
    }
  }
}
