/**
 The pool allocator of `emu/alloc.c`.
 */
module Pools {
  import opened Sequences
  import opened Multiples
  import opened PoolTree
  import opened PoolBlocks
  import opened PoolState

  const BHDRSIZE := 12

  /** n bytes in whole units. */
  function InUnits(n: int, u: int): int
    requires u > 0
  {
    (n + u - 1) / u * u
  }

  /** Of `room` bytes: the larger of size and chunk, else whole units, else -1. */
  function Granted(size: int, chunk: int, room: int, u: int): int
    requires u > 0
  {
    if (if size > chunk then size else chunk) <= room then if size > chunk then size else chunk
    else if room / u * u < size then -1
    else room / u * u
  }

  class Pool {
    var heap: Heap
    var tail: Tails
    var root: int
    var chain: int
    var maxsize: int
    var quanta: int
    var chunk: int
    var cursize: int
    var arenasize: int
    var hw: int
    var nalloc: int
    var nfree: int
    var nbrk: int
    ghost var tree: Tree
    ghost var arena: Arena

    ghost predicate Valid()
      reads this
    {
      && quanta >= 31 && chunk % (quanta + 1) == 0
      && TreeOk(heap, root, tree) && Open(heap, tail, arena, tree, quanta + 1, NIL)
      && chain == (if |arena.leaders| > 0 then arena.leaders[0] else NIL)
      && cursize == Total(heap, Live(heap, arena)) && arenasize <= maxsize
    }

    /** A pool without memory, as in the table of pools. */
    constructor (maxsize: int, quanta: int, chunk: int)
      requires quanta >= 31 && chunk % (quanta + 1) == 0 && maxsize >= 0
      ensures Valid() && arena == Arena({}, {}, [], map[]) && Live(heap, arena) == {} && cursize == 0
      ensures this.maxsize == maxsize && this.quanta == quanta && this.chunk == chunk && arenasize == 0
    {
      this.maxsize, this.quanta, this.chunk := maxsize, quanta, chunk;
      heap, tail, root, chain := map[], map[], NIL, NIL;
      cursize, arenasize, hw, nalloc, nfree, nbrk := 0, 0, 0, 0, 0, 0;
      tree, arena := Nil, Arena({}, {}, [], map[]);
    }

    /** Every allocator call keeps `Valid`, which says that no two free blocks adjoin. */
    lemma FreeApart(b: int)
      requires Valid() && b in Frees(heap, arena)
      ensures Next(heap, b) !in Frees(heap, arena) && b in Addrs(tree)
    {
      NoNil(heap, tail, arena, quanta + 1);
      assert Quiet(heap, arena, NIL, b);
    }

    /** No two blocks overlap, and the tail behind each points back at its head. */
    lemma BlocksApart(b: int, c: int)
      requires Valid() && b in arena.blocks && c in arena.blocks && b != c && b !in arena.leaders
      ensures Next(heap, b) <= c || Next(heap, c) <= b
      ensures TailOf(tail, Next(heap, b)) == b && Hd(heap, b).size % (quanta + 1) == 0 && Hd(heap, b).size > 0
    {
      Disjoint(heap, tail, arena, quanta + 1, b, c);
      At(heap, tail, arena, quanta + 1, b);
    }

    // ---- allocating ----

    /** The bytes to allocate for a request: with header and tail, in whole units. */
    function Rounded(asize: int): int
      reads this
      requires quanta >= 31
    {
      InUnits(asize + BHDRSIZE, quanta + 1)
    }

    /** That is a whole number of units with room for the data with header and tail. */
    lemma RoundedMeans(asize: int)
      requires quanta >= 31
      ensures var r := Rounded(asize);
              r % (quanta + 1) == 0 && asize + BHDRSIZE <= r <= asize + BHDRSIZE + quanta
    {
      WholeUnits(asize + BHDRSIZE, quanta + 1);
    }

    /** And it is the least such number. */
    lemma RoundedLeast(asize: int, r: int)
      requires quanta >= 31 && r % (quanta + 1) == 0 && r >= asize + BHDRSIZE
      ensures r >= Rounded(asize)
    {
      RoundedMeans(asize);
      UnitGap(r, Rounded(asize), quanta + 1);
    }

    /** There is a free block of at least that size. */
    ghost predicate Fits(size: int)
      reads this
    {
      exists f :: f in Frees(heap, arena) && Hd(heap, f).size >= size
    }

    /** There is room in the pool for a chain with that many bytes between leader and end mark. */
    predicate Room(size: int)
      reads this
    {
      arenasize + size + 2 * (quanta + 1) <= maxsize
    }

    /** How much memory to ask for, between leader and end mark; -1 if the pool may not grow that far. */
    function Grant(size: int): int
      reads this
      requires quanta >= 31
    {
      Granted(size, chunk, maxsize - arenasize - 2 * (quanta + 1), quanta + 1)
    }

    /** The pool refuses to grow just when there is no room for the request. Else it asks for the larger of
        request and chunk, or if there is no room for that, for the most whole units there is room for. */
    lemma GrantMeans(size: int)
      requires quanta >= 31 && chunk % (quanta + 1) == 0 && size % (quanta + 1) == 0 && size > 0
      ensures var ns, most := Grant(size), if size > chunk then size else chunk;
              && (ns == -1 <==> arenasize + size + 2 * (quanta + 1) > maxsize)
              && (ns != -1 ==> ns >= size && ns % (quanta + 1) == 0 && arenasize + ns + 2 * (quanta + 1) <= maxsize)
              && (arenasize + most + 2 * (quanta + 1) <= maxsize ==> ns == most)
              && (ns != -1 && ns != most ==> arenasize + ns + 3 * (quanta + 1) > maxsize)
    {
      GrantUnits(size, maxsize - arenasize - 2 * (quanta + 1), quanta + 1);
    }

    /** The size to which a block found for a request is cut: not at all if less than a quarter of the request is
        left over. */
    function Cut(found: int, size: int): int { if found - size < size / 4 then found else size }

    /** No free block fits, and there is room for more memory: sbrk is asked. */
    ghost predicate Asks(asize: int)
      reads this
      requires quanta >= 31
    {
      asize < 0x4000_0000 && !Fits(Rounded(asize)) && Room(Rounded(asize))
    }

    /** `poolalloc`: returns the address of the data, or NIL. `brk` is what sbrk answers if it is asked,
        -1 for no memory. */
    method PoolAlloc(asize: int, brk: int) returns (r: int)
      requires Valid() && asize >= 0
      requires brk != -1 && Asks(asize) ==>
                 FreshMemory(heap, arena, quanta + 1, (brk + 7) / 8 * 8, Grant(Rounded(asize)) + 2 * (quanta + 1))
      modifies this
      ensures Valid() && quanta == old(quanta) && chunk == old(chunk) && maxsize == old(maxsize)
      ensures r == NIL <==>
              || asize >= 0x4000_0000
              || (old(!Fits(Rounded(asize)))
                  && (brk == -1 || old(arenasize + Rounded(asize) + 2 * (quanta + 1) > maxsize)))
      ensures r == NIL ==> heap == old(heap) && tail == old(tail) && arena == old(arena) && cursize == old(cursize)
      ensures r != NIL ==>
                && Allocated(old(heap), old(arena), r - 8, old(Rounded(asize)))
                && Live(heap, arena) == old(Live(heap, arena)) + {r - 8}
      ensures r != NIL ==> cursize == old(cursize) + Hd(heap, r - 8).size
      ensures r != NIL && old(Fits(Rounded(asize))) ==>
                && BestFit(old(heap), old(arena), r - 8, old(Rounded(asize)))
                && Hd(heap, r - 8).size == Cut(Hd(old(heap), r - 8).size, old(Rounded(asize)))
      ensures forall x :: x in old(Live(heap, arena)) ==> Untouched(old(heap), old(tail), heap, tail, x)
      ensures !old(Asks(asize)) ==> arenasize == old(arenasize)
      ensures old(Asks(asize)) ==> arenasize == old(arenasize + Grant(Rounded(asize)) + 2 * (quanta + 1))
      ensures if old(Asks(asize)) && brk != -1
              then Grew(old(arena), arena, quanta + 1, (brk + 7) / 8 * 8, old(Grant(Rounded(asize))))
              else SameChains(old(arena), arena)
      decreases if Fits(Rounded(asize)) then 0 else 1
    {
      hide Tiled, Linked, Ordered, Quiet, Untouched, Addrs, NoDup, Total, TreeOk, Frees, Live, Open, InUnits, Granted,
           SameChains, Grew;
      AllUntouched(heap, tail, arena);
      ChainsSame(arena);
      if asize >= 0x4000_0000 {
        return NIL;
      }
      var size := Rounded(asize);
      RoundedMeans(asize);
      UnitLeft(size, quanta + 1);
      r := FromTree(size);
      if r != NIL {
        return;
      }
      var status, b := More(size, brk);
      if status == 0 {
        return NIL;
      } else if status == 1 {
        return b + 8;
      }
      ghost var h1, tl1, a1 := heap, tail, arena;
      r := PoolAlloc(asize, brk);
      TiledOf(old(heap), old(tail), old(arena), old(tree), quanta + 1);
      RetryUntouched(old(heap), old(tail), old(arena), h1, tl1, a1, heap, tail, quanta + 1);
      RetryFresh(old(heap), old(arena), h1, a1, arena, r - 8);
      GrewOn(old(arena), a1, arena, quanta + 1, (brk + 7) / 8 * 8, old(Grant(Rounded(asize))));
    }

    /** A block from the tree, if there is one that fits. */
    method FromTree(size: int) returns (r: int)
      requires Valid() && size >= quanta + 1 && size % (quanta + 1) == 0
      modifies this
      ensures Valid() && quanta == old(quanta) && chunk == old(chunk) && maxsize == old(maxsize)
      ensures r == NIL <==> old(!Fits(size))
      ensures r == NIL ==>
                && heap == old(heap) && tail == old(tail) && arena == old(arena) && cursize == old(cursize)
                && tree == old(tree) && arenasize == old(arenasize)
      ensures SameChains(old(arena), arena) && arenasize == old(arenasize)
      ensures r != NIL ==>
                Allocated(old(heap), old(arena), r - 8, size) && Live(heap, arena) == old(Live(heap, arena)) + {r - 8}
      ensures r != NIL ==> cursize == old(cursize) + Hd(heap, r - 8).size && BestFit(old(heap), old(arena), r - 8, size)
      ensures r != NIL ==> Hd(heap, r - 8).size == Cut(Hd(old(heap), r - 8).size, size)
      ensures r != NIL ==> forall x :: x in old(Live(heap, arena)) ==> Untouched(old(heap), old(tail), heap, tail, x)
    {
      hide Tiled, Linked, Ordered, Quiet, Untouched, Addrs, NoDup, Total, TreeOk, Frees, Live, Open, SameChains;
      ChainsSame(arena);
      var t, q := Lookup(size);
      if t != NIL {
        TakeWhole(t, size);
        return t + 8;
      }
      if q != NIL {
        if Hd(heap, q).size - size < size / 4 {
          TakeWhole(q, size);
        } else {
          TakePart(q, size);
        }
        return q + 8;
      }
      return NIL;
    }

    /** The search, with what it says about the free blocks. */
    method Lookup(size: int) returns (t: int, q: int)
      requires Valid() && size > 0
      modifies `nalloc
      ensures Valid() && nalloc == old(nalloc) + 1 && t >= 0 && q >= 0
      ensures t != NIL ==> t in Addrs(tree) && Hd(heap, t).size == size
      ensures t == NIL && q != NIL ==> q in Addrs(tree) && Hd(heap, q).size > size
      ensures t == NIL && q != NIL ==>
                forall f :: f in Addrs(tree) && Hd(heap, f).size >= size ==> Hd(heap, f).size >= Hd(heap, q).size
      ensures Fits(size) <==> t != NIL || q != NIL
    {
      nalloc := nalloc + 1;
      t, q := FindFit(size);
      FitsOr(heap, tail, arena, tree, quanta + 1, size, t, q);
      if t == NIL && q != NIL {
        FreeBlocks(heap, tail, arena, tree, quanta + 1, q);
      }
      if t != NIL {
        FreeBlocks(heap, tail, arena, tree, quanta + 1, t);
        q := NIL;
      }
    }

    /** No free block fits: more memory. Status 0 if there is none, 1 if it is a new chain with the block
        b, 2 if it went, free, to the end of the first chain. */
    method More(size: int, brk: int) returns (status: int, b: int)
      requires Valid() && size >= quanta + 1 && size % (quanta + 1) == 0
      requires brk != -1 && Room(size) ==>
                 FreshMemory(heap, arena, quanta + 1, (brk + 7) / 8 * 8, Grant(size) + 2 * (quanta + 1))
      modifies this
      ensures Valid() && quanta == old(quanta) && chunk == old(chunk) && maxsize == old(maxsize) && 0 <= status <= 2
      ensures status == 0 <==> brk == -1 || !old(Room(size))
      ensures arenasize == old(arenasize) + if old(Room(size)) then old(Grant(size)) + 2 * (quanta + 1) else 0
      ensures status != 0 ==> Grew(old(arena), arena, quanta + 1, (brk + 7) / 8 * 8, old(Grant(size)))
      ensures status == 0 ==> heap == old(heap) && tail == old(tail) && arena == old(arena) && cursize == old(cursize)
      ensures status == 1 ==>
                && Allocated(old(heap), old(arena), b, size) && b > 0
                && Live(heap, arena) == old(Live(heap, arena)) + {b} && cursize == old(cursize) + Hd(heap, b).size
      ensures status == 2 ==> Fits(size) && Live(heap, arena) == old(Live(heap, arena)) && cursize == old(cursize)
      ensures forall x :: x in old(Live(heap, arena)) ==> Untouched(old(heap), old(tail), heap, tail, x)
    {
      hide Tiled, Linked, Ordered, Quiet, Untouched, Addrs, NoDup, Total, TreeOk, Frees, Live, Open, FreshMemory,
           Granted, Grew;
      AllUntouched(heap, tail, arena);
      var ns := Reserve(size);
      if ns < size {
        return 0, NIL;
      }
      nbrk := nbrk + 1;
      if brk == -1 {
        nbrk := nbrk - 1;
        return 0, NIL;
      }
      var t, ldr := (brk + 7) / 8 * 8, quanta + 1;
      FirstChain(heap, tail, arena, tree, quanta + 1);
      if chain != NIL && t - (chain + Hd(heap, chain).csize) - ldr == 0 {
        UnitSum(ns, quanta + 1);
        MergeChain(ns + ldr + ldr);
        FitsLess(ns + ldr + ldr, size);
        GrewFirst(old(arena), arena, ldr, t, ns);
        return 2, NIL;
      }
      b := StartChain(t, ns, size);
      GrewNew(old(arena), arena, ldr, t, ns);
      return 1, b;
    }

    lemma FitsLess(more: int, size: int)
      requires Fits(more) && size <= more
      ensures Fits(size)
    {
      var f :| f in Frees(heap, arena) && Hd(heap, f).size >= more;
      assert f in Frees(heap, arena) && Hd(heap, f).size >= size;
    }

    /** How much to ask for, counted in `arenasize` unless that is too little. */
    method Reserve(size: int) returns (ns: int)
      requires quanta >= 31 && chunk % (quanta + 1) == 0 && size >= quanta + 1 && size % (quanta + 1) == 0
      requires arenasize <= maxsize
      modifies `arenasize
      ensures arenasize <= maxsize && ns % (quanta + 1) == 0 && (ns < size <==> !old(Room(size)))
      ensures ns >= size ==> ns == old(Grant(size)) && arenasize == old(arenasize) + ns + 2 * (quanta + 1)
      ensures ns < size ==> arenasize == old(arenasize)
    {
      ns := chunk;
      if size > ns {
        ns := size;
      }
      var ldr := quanta + 1;
      var alloc := ns + ldr + ldr;
      GrantMeans(size);
      GrantUnits(size, maxsize - arenasize - 2 * (quanta + 1), quanta + 1);
      arenasize := arenasize + alloc;
      if arenasize > maxsize {
        arenasize := arenasize - alloc;
        ns := (maxsize - arenasize - ldr - ldr) / (quanta + 1) * (quanta + 1);
        if ns < size {
          return;
        }
        alloc := ns + ldr + ldr;
        arenasize := arenasize + alloc;
      }
    }

    /** The end mark of the first chain becomes a block of `alloc` bytes, allocated and freed at once. */
    method MergeChain(alloc: int)
      requires quanta >= 31 && chunk % (quanta + 1) == 0 && arenasize <= maxsize && alloc >= quanta + 1
      requires alloc % (quanta + 1) == 0
      requires TreeOk(heap, root, tree) && Open(heap, tail, arena, tree, quanta + 1, NIL)
      requires cursize == Total(heap, Live(heap, arena))
      requires |arena.leaders| > 0 && chain == arena.leaders[0]
      requires chain + Hd(heap, chain).csize == LimitOf(arena, chain) && LimitOf(arena, chain) in arena.ends
      requires chain in arena.blocks
      requires FreshMemory(heap, arena, quanta + 1, LimitOf(arena, chain) + quanta + 1, alloc)
      modifies this
      ensures Valid() && quanta == old(quanta) && chunk == old(chunk) && maxsize == old(maxsize)
      ensures Fits(alloc) && Live(heap, arena) == old(Live(heap, arena)) && cursize == old(cursize)
      ensures Longer(old(arena), arena, alloc) && arenasize == old(arenasize)
      ensures forall x :: x in old(Live(heap, arena)) ==> Untouched(old(heap), old(tail), heap, tail, x)
    {
      hide Tiled, Linked, Ordered, Quiet, Untouched, Addrs, NoDup, Total, TreeOk, Frees, Live, Open, FreshMemory;
      ghost var h, tl, a, u := heap, tail, arena, quanta + 1;
      var q := chain + Hd(heap, chain).csize;
      LongerChain(h, tl, a, tree, u, q, alloc);
      Lengthen(q, alloc);
      ghost var h1, tl1, a1 := heap, tail, arena;
      PoolFree(q);
      forall x | x in old(Live(heap, arena))
        ensures Untouched(h, tl, heap, tail, x)
      {
        TiledOf(h, tl, a, old(tree), u);
        LiveSize(h, tl, a, u, x);
        UntouchedTwice(h, tl, h1, tl1, heap, tail, x);
      }
    }

    /** The headers and the tail of the longer chain. */
    method Lengthen(q: int, alloc: int)
      requires quanta >= 31 && chunk % (quanta + 1) == 0 && arenasize <= maxsize && alloc >= quanta + 1
      requires alloc % (quanta + 1) == 0
      requires TreeOk(heap, root, tree) && Open(heap, tail, arena, tree, quanta + 1, NIL)
      requires cursize == Total(heap, Live(heap, arena))
      requires |arena.leaders| > 0 && chain == arena.leaders[0] && q == LimitOf(arena, chain) && q in arena.ends
      requires chain in arena.blocks
      requires FreshMemory(heap, arena, quanta + 1, q + quanta + 1, alloc)
      modifies this
      ensures Valid() && quanta == old(quanta) && chunk == old(chunk) && maxsize == old(maxsize)
      ensures Live(heap, arena) == old(Live(heap, arena)) + {q} && q !in old(Live(heap, arena))
      ensures cursize == old(cursize) + alloc && Hd(heap, q).size == alloc && arenasize == old(arenasize)
      ensures arena == Extended(old(arena), q, alloc)
      ensures forall x :: x in old(Live(heap, arena)) ==> Untouched(old(heap), old(tail), heap, tail, x)
    {
      hide Tiled, Linked, Ordered, Quiet, Untouched, Addrs, NoDup, Total, Frees, Live, Open, FreshMemory, Grown, TreeOk;
      ghost var h, tl, a, u := heap, tail, arena, quanta + 1;
      var l := chain;
      EndApart(h, tl, a, tree, u, l, q, alloc);
      heap := heap[q := Hd(heap, q).(magic := MAGIC_A, size := alloc)];
      tail := tail[q + alloc := q];
      var t := q + alloc;
      heap := heap[t := Hd(heap, t).(magic := MAGIC_E)];
      heap := heap[l := Hd(heap, l).(csize := Hd(heap, l).csize + alloc)];
      cursize := cursize + alloc;
      LengthenedOpen(h, heap, tl, a, tree, u, l, q, alloc);
      TreeFrame(h, heap, root, tree);
      arena := Extended(a, q, alloc);
      TotalMore(h, heap, Live(h, a), Live(heap, arena), q);
    }

    /** A new chain at t: leader, the allocated block, the free rest, end mark. */
    method StartChain(t: int, ns: int, size: int) returns (b: int)
      requires quanta >= 31 && chunk % (quanta + 1) == 0 && arenasize <= maxsize && quanta + 1 <= size <= ns
      requires size % (quanta + 1) == 0 && ns % (quanta + 1) == 0
      requires TreeOk(heap, root, tree) && Open(heap, tail, arena, tree, quanta + 1, NIL)
      requires cursize == Total(heap, Live(heap, arena))
      requires chain == (if |arena.leaders| > 0 then arena.leaders[0] else NIL)
      requires FreshMemory(heap, arena, quanta + 1, t, ns + 2 * (quanta + 1))
      modifies this
      ensures Valid() && quanta == old(quanta) && chunk == old(chunk) && maxsize == old(maxsize)
      ensures Allocated(old(heap), old(arena), b, size) && b > 0 && Live(heap, arena) == old(Live(heap, arena)) + {b}
      ensures cursize == old(cursize) + Hd(heap, b).size && arenasize == old(arenasize)
      ensures NewChainAt(old(arena), arena, quanta + 1, t, ns)
      ensures forall x :: x in old(Live(heap, arena)) ==> Untouched(old(heap), old(tail), heap, tail, x)
    {
      hide Tiled, Linked, Ordered, Quiet, Untouched, Addrs, NoDup, Total, Frees, Live, Open, FreshMemory, TreeOk,
           SameChains, NewChainAt;
      ghost var h, tl, a, u := heap, tail, arena, quanta + 1;
      ChainedNew(h, tl, a, tree, u, t, ns);
      b := Lead(t, ns);
      ghost var h1, tl1, a1 := heap, tail, arena;
      TakenRest(heap, arena, b, cursize + ns);
      ChainsSame(arena);
      if ns > size {
        Carve(b, size);
      }
      NewChainOn(a, a1, arena, u, t, ns);
      CutTotal(heap, arena, b);
      cursize := cursize + Hd(heap, b).size;
      if cursize > hw {
        hw := cursize;
      }
      SizeQuarter(size);
      forall x | x in old(Live(heap, arena))
        ensures Untouched(h, tl, heap, tail, x)
      {
        TiledOf(h, tl, a, old(tree), u);
        LiveSize(h, tl, a, u, x);
        if ns > size {
          UntouchedTwice(h, tl, h1, tl1, heap, tail, x);
        }
      }
    }

    /** Leader, one allocated block of ns bytes, and end mark. */
    method Lead(t: int, ns: int) returns (b: int)
      requires quanta >= 31 && quanta + 1 <= ns && ns % (quanta + 1) == 0
      requires TreeOk(heap, root, tree) && Open(heap, tail, arena, tree, quanta + 1, NIL)
      requires chain == (if |arena.leaders| > 0 then arena.leaders[0] else NIL)
      requires FreshMemory(heap, arena, quanta + 1, t, ns + 2 * (quanta + 1))
      modifies `heap, `tail, `chain, `arena
      ensures TreeOk(heap, root, tree) && Open(heap, tail, arena, tree, quanta + 1, NIL) && |arena.leaders| > 0
      ensures chain == arena.leaders[0]
      ensures b > 0 && b !in old(Live(heap, arena)) && b in arena.blocks && Hd(heap, b).size == ns
      ensures Hd(heap, b).magic == MAGIC_A && NextBusy(heap, arena, b)
      ensures arena == Chained(old(arena), quanta + 1, t, ns)
      ensures Live(heap, arena) == old(Live(heap, arena)) + {b}
      ensures Total(heap, Live(heap, arena)) == Total(old(heap), old(Live(heap, arena))) + ns
      ensures forall x :: x in old(Live(heap, arena)) ==> Untouched(old(heap), old(tail), heap, tail, x)
    {
      hide Tiled, Linked, Ordered, Quiet, Untouched, Addrs, NoDup, Total, Frees, Live, Open, FreshMemory, TreeOk,
           NextBusy;
      ghost var h, tl, a, u := heap, tail, arena, quanta + 1;
      var ldr := quanta + 1;
      heap := heap[t := Hd(heap, t).(magic := MAGIC_E, size := ldr, csize := ns + ldr, clink := chain)];
      chain := t;
      tail := tail[t + ldr := t];
      b := t + ldr;
      heap := heap[b := Hd(heap, b).(magic := MAGIC_A, size := ns)];
      tail := tail[b + ns := b];
      heap := heap[b + ns := Hd(heap, b + ns).(magic := MAGIC_E)];
      LedOpen(h, heap, tl, a, tree, u, t, ns);
      TreeFrame(h, heap, root, tree);
      arena := Chained(a, u, t, ns);
      TotalMore(h, heap, Live(h, a), Live(heap, arena), b);
    }

    /** The new block b is large enough and at most a quarter too large. */
    ghost predicate Allocated(h: Heap, a: Arena, b: int, size: int)
      reads this
    {
      && b !in Live(h, a) && b in arena.blocks && size <= Hd(heap, b).size
      && Hd(heap, b).size - size < size / 4 + (if Hd(heap, b).size == size then 1 else 0)
    }

    /** q is allocated whole. */
    method TakeWhole(q: int, size: int)
      requires Valid() && q in Addrs(tree) && Hd(heap, q).size >= size && size >= 32
      requires Hd(heap, q).size - size < size / 4
      requires forall f :: f in Addrs(tree) && Hd(heap, f).size >= size ==> Hd(heap, f).size >= Hd(heap, q).size
      modifies this
      ensures Valid() && quanta == old(quanta) && chunk == old(chunk) && maxsize == old(maxsize)
      ensures Allocated(old(heap), old(arena), q, size) && Live(heap, arena) == old(Live(heap, arena)) + {q} && q > 0
      ensures cursize == old(cursize) + Hd(heap, q).size && BestFit(old(heap), old(arena), q, size)
      ensures Hd(heap, q).size == Hd(old(heap), q).size
      ensures SameChains(old(arena), arena) && arenasize == old(arenasize)
      ensures forall x :: x in old(Live(heap, arena)) ==> Untouched(old(heap), old(tail), heap, tail, x)
    {
      hide Tiled, Linked, Ordered, Quiet, Untouched, Addrs, NoDup, Total, TreeOk;
      ghost var h, a := heap, arena;
      FreeBlocks(heap, tail, arena, tree, quanta + 1, q);
      Take(q);
      cursize := cursize + Hd(heap, q).size;
      if cursize > hw {
        hw := cursize;
      }
    }

    /** q is allocated in part. */
    method TakePart(q: int, size: int)
      requires Valid() && q in Addrs(tree) && size >= quanta + 1 && size % (quanta + 1) == 0
      requires Hd(heap, q).size - size >= size / 4
      requires forall f :: f in Addrs(tree) && Hd(heap, f).size >= size ==> Hd(heap, f).size >= Hd(heap, q).size
      modifies this
      ensures Valid() && quanta == old(quanta) && chunk == old(chunk) && maxsize == old(maxsize)
      ensures Allocated(old(heap), old(arena), q, size) && Live(heap, arena) == old(Live(heap, arena)) + {q} && q > 0
      ensures cursize == old(cursize) + Hd(heap, q).size && BestFit(old(heap), old(arena), q, size)
      ensures Hd(heap, q).size == size
      ensures SameChains(old(arena), arena) && arenasize == old(arenasize)
      ensures forall x :: x in old(Live(heap, arena)) ==> Untouched(old(heap), old(tail), heap, tail, x)
    {
      hide Tiled, Linked, Ordered, Quiet, Untouched, Addrs, NoDup, Total, TreeOk;
      ghost var h, tl, a := heap, tail, arena;
      FreeBlocks(heap, tail, arena, tree, quanta + 1, q);
      Take(q);
      ghost var h1 := heap;
      TakenRest(heap, arena, q, cursize + Hd(heap, q).size);
      Carve(q, size);
      CutTotal(heap, arena, q);
      cursize := cursize + Hd(heap, q).size;
      if cursize > hw {
        hw := cursize;
      }
      forall x | x in Live(h, a)
        ensures Untouched(h, tl, heap, tail, x)
      {
        LiveSize(h, tl, a, quanta + 1, x);
        UntouchedTwice(h, tl, h1, tl, heap, tail, x);
      }
    }

    /** The search of `poolalloc`: a free block of exactly that size, or the smallest that is larger. */
    method FindFit(size: int) returns (t: int, q: int)
      requires TreeOk(heap, root, tree)
      ensures t != NIL ==> t in Addrs(tree) && Hd(heap, t).size == size
      ensures t == NIL && q != NIL ==> q in Addrs(tree) && Hd(heap, q).size > size
      ensures t == NIL && q != NIL ==>
                forall f :: f in Addrs(tree) && Hd(heap, f).size >= size ==> Hd(heap, f).size >= Hd(heap, q).size
      ensures t == NIL && q == NIL ==> forall f :: f in Addrs(tree) ==> Hd(heap, f).size < size
    {
      hide Linked, Addrs, Ordered;
      t, q := root, NIL;
      ghost var sub, p, lo, hi := tree, NIL, 0, TOP;
      HeadOf(heap, sub, p);
      NilEmpty(sub);
      while t != NIL
        invariant t == Head(sub) && Linked(heap, sub, p) && Ordered(sub, lo, hi) && (t == NIL <==> sub.Nil?)
        invariant Addrs(sub) <= Addrs(tree) && (sub.Nil? ==> Addrs(sub) == {})
        invariant q != NIL ==> q in Addrs(tree) && Hd(heap, q).size > size && Hd(heap, q).size >= hi
        invariant forall f :: f in Addrs(tree) && Hd(heap, f).size >= size ==>
                    f in Addrs(sub) || (q != NIL && Hd(heap, f).size >= Hd(heap, q).size)
        decreases sub
      {
        HeadOf(heap, sub, p);
        if Hd(heap, t).size == size {
          t := RingNext(t, sub, p);
          return;
        }
        OneSide(heap, sub, p, lo, hi, size);
        if size < Hd(heap, t).size {
          q := t;
          p := t;
          t := Hd(heap, t).left;
          hi := sub.size;
          sub := sub.left;
        } else {
          p := t;
          t := Hd(heap, t).right;
          lo := sub.size;
          sub := sub.right;
        }
        HeadOf(heap, sub, p);
        NilEmpty(sub);
      }
    }

    /** The block after the first in its ring. */
    method RingNext(t: int, ghost sub: Tree, ghost p: int) returns (f: int)
      requires sub.Node? && t == Head(sub) && Linked(heap, sub, p)
      ensures f in Addrs(sub) && f != NIL && Hd(heap, f).size == sub.size
    {
      f := Hd(heap, t).fwd;
      ghost var j := if |sub.ring| > 1 then 1 else 0;
      assert Member(heap, sub.ring, sub.size, 0) && Member(heap, sub.ring, sub.size, j);
      assert f == sub.ring[j] && f in Set(sub.ring);
    }

    /** q leaves the tree and is allocated whole. */
    method Take(q: int)
      requires Valid() && q in Addrs(tree)
      modifies `heap, `root, `tree
      ensures quanta >= 31 && TreeOk(heap, root, tree) && Open(heap, tail, arena, tree, quanta + 1, NIL)
      ensures NextBusy(heap, arena, q)
      ensures q in arena.blocks && Hd(heap, q).size == old(Hd(heap, q).size) && Hd(heap, q).magic == MAGIC_A
      ensures q !in Addrs(tree)
      ensures Others(old(heap), tail, arena, heap, tail, arena, q)
      ensures Live(heap, arena) == old(Live(heap, arena)) + {q} && q !in old(Live(heap, arena))
      ensures Total(heap, Live(heap, arena)) == old(cursize) + Hd(heap, q).size
    {
      hide Tiled, Linked, Ordered, Quiet, Untouched, Addrs, NoDup, Frees, Total;
      ghost var h, t := heap, tree;
      PoolDel(q);
      ghost var h1 := heap;
      heap := heap[q := Hd(heap, q).(magic := MAGIC_A)];
      TreeFrame(h1, heap, root, tree);
      TakenOpen(h, h1, heap, tail, arena, t, tree, quanta + 1, q);
      TakenTotal(h, heap, arena, q);
    }

    /** q, just allocated, keeps its first `size` bytes, and the rest is free again. */
    method Carve(q: int, size: int)
      requires quanta >= 31 && TreeOk(heap, root, tree) && Open(heap, tail, arena, tree, quanta + 1, NIL)
      requires NextBusy(heap, arena, q)
      requires q in arena.blocks && Hd(heap, q).magic == MAGIC_A && quanta + 1 <= size < Hd(heap, q).size
      requires size % (quanta + 1) == 0
      modifies `heap, `tail, `root, `tree, `arena
      ensures TreeOk(heap, root, tree) && Open(heap, tail, arena, tree, quanta + 1, NIL)
      ensures SameChains(old(arena), arena)
      ensures q in arena.blocks && Hd(heap, q).size == size && Live(heap, arena) == old(Live(heap, arena))
      ensures forall x :: x in old(Live(heap, arena)) && x != q ==> Untouched(old(heap), old(tail), heap, tail, x)
      ensures Total(heap, Live(heap, arena) - {q}) == Total(old(heap), old(Live(heap, arena)) - {q})
    {
      hide Tiled, Linked, Ordered, Quiet, Untouched, Addrs, NoDup, Frees, Total, Others;
      ghost var h, tl, a, t0, u := heap, tail, arena, tree, quanta + 1;
      var ns := Hd(heap, q).size - size;
      CutTree(h, tl, a, t0, u, q, size);
      CutChains(h, tl, a, t0, u, q, size);
      ghost var end := Next(heap, q);
      heap := heap[q := Hd(heap, q).(size := size)];
      tail := tail[Next(heap, q) := q];
      var t := Next(heap, q);
      heap := heap[t := Hd(heap, t).(size := ns, magic := MAGIC_A)];
      tail := tail[Next(heap, t) := t];
      assert tail == CutTails(tl, h, q, size);
      ghost var h3 := heap;
      TreeFrame(h, h3, root, tree);
      CutOpen(h, h3, tl, a, t0, u, q, size);
      arena := With(a, t, LimitOf(a, q));
      NotInTree(h3, tail, arena, t0, u, t);
      PoolAdd(t);
      FreedOthers(h3, heap, tail, arena, t0, u, t);
      CloseBlock(h3, heap, tail, arena, t0, tree, u, t);
      LiveCut(h, tl, a, h3, heap, q, t, LimitOf(a, q));
      CarvedLive(h, tl, a, h3, heap, tail, arena, u, q, t);
    }

    // ---- freeing ----

    /** `poolfree`, given the block in front of the data: joins it with free neighbours on both sides. */
    method PoolFree(b0: int)
      requires Valid() && b0 in Live(heap, arena)
      modifies this
      ensures Valid() && Live(heap, arena) == old(Live(heap, arena)) - {b0}
      ensures cursize == old(cursize) - old(Hd(heap, b0).size) && nfree == old(nfree) + 1
      ensures forall x :: x in Live(heap, arena) ==> Untouched(old(heap), old(tail), heap, tail, x)
      ensures quanta == old(quanta) && chunk == old(chunk) && maxsize == old(maxsize) && arenasize == old(arenasize)
      ensures Fits(old(Hd(heap, b0).size)) && SameChains(old(arena), arena)
    {
      hide Tiled, Linked, Ordered, Quiet, Untouched, Addrs, NoDup, Clear, Follows, BlockOk, LeaderOk, Others, Frees,
           Total, OnlyLinks, Joined, TreeOk, Live;
      ghost var h, tl, a, u := heap, tail, arena, quanta + 1;
      nfree := nfree + 1;
      cursize := cursize - Hd(heap, b0).size;
      Begin(h, tl, a, tree, u, b0);
      JoinForward(b0);
      ghost var h1, tl1, a1 := heap, tail, arena;
      var b := JoinBackward(b0);
      ghost var h2, tl2, a2, t2 := heap, tail, arena, tree;
      OthersTwice(h, tl, a, h1, tl1, a1, h2, tl2, a2, u, b0, b0);
      NotInTree(h2, tl2, a2, t2, u, b);
      PoolAdd(b);
      FreedOthers(h2, heap, tl2, a2, t2, u, b);
      CloseBlock(h2, heap, tl2, a2, t2, tree, u, b);
      OthersTwice(h, tl, a, h2, tl2, a2, heap, tail, arena, u, b0, b);
      LiveAfter(h, tl, a, heap, tail, arena, b0);
      FreesIn(heap, arena);
    }

    /** b takes in c behind it; the header of the one that is gone loses its magic number. */
    method Absorb(b: int, c: int, gone: int)
      requires b != c && (gone == b || gone == c)
      modifies `heap, `tail
      ensures forall x {:trigger Hd(heap, x)} ::
        Hd(heap, x) == old(Hd(heap, x)).(
          magic := if x == gone then 0 else old(Hd(heap, x).magic),
          size := if x == b then old(Hd(heap, b).size + Hd(heap, c).size) else old(Hd(heap, x).size))
      ensures tail == old(tail)[Next(heap, b) := b]
    {
      heap := heap[gone := Hd(heap, gone).(magic := 0)];
      heap := heap[b := Hd(heap, b).(size := Hd(heap, b).size + Hd(heap, c).size)];
      tail := tail[Next(heap, b) := b];
    }

    /** Takes the block after b into b if it is free. */
    method JoinForward(b: int)
      requires quanta >= 31 && TreeOk(heap, root, tree) && Open(heap, tail, arena, tree, quanta + 1, b) && b != NIL
      requires Hd(heap, b).magic != MAGIC_F && Hd(heap, b).magic != MAGIC_E
      modifies `heap, `tail, `root, `tree, `arena
      ensures TreeOk(heap, root, tree) && Open(heap, tail, arena, tree, quanta + 1, b) && NextBusy(heap, arena, b)
      ensures Hd(heap, b).magic == old(Hd(heap, b).magic)
      ensures Hd(heap, b).size >= old(Hd(heap, b).size)
      ensures arena.leaders == old(arena.leaders) && arena.ends == old(arena.ends) && arena.limit == old(arena.limit)
      ensures Others(old(heap), old(tail), old(arena), heap, tail, arena, b)
    {
      hide Tiled, Linked, Ordered, Quiet, Untouched, Addrs, NoDup, Clear, Follows, BlockOk, LeaderOk;
      ghost var h, tl, a, t, u := heap, tail, arena, tree, quanta + 1;
      var c := Next(heap, b);
      NextKind(h, tl, a, t, u, b);
      OthersSame(h, tl, a, b);
      if Hd(heap, c).magic == MAGIC_F {
        PoolDel(c);
        ghost var h1 := heap;
        Absorb(b, c, c);
        TreeFrame(h1, heap, root, tree);
        arena := Without(arena, c);
        JoinedOpen(h, heap, tl, a, t, tree, u, b);
      }
    }
    /** The free block before b takes b in, if there is one. */
    method JoinBackward(b: int) returns (c: int)
      requires quanta >= 31 && TreeOk(heap, root, tree) && Open(heap, tail, arena, tree, quanta + 1, b) && b != NIL
      requires Hd(heap, b).magic != MAGIC_F && Hd(heap, b).magic != MAGIC_E
      requires NextBusy(heap, arena, b)
      modifies `heap, `tail, `root, `tree, `arena
      ensures TreeOk(heap, root, tree) && Open(heap, tail, arena, tree, quanta + 1, c) && NextBusy(heap, arena, c)
      ensures PrevBusy(heap, arena, c) && c != NIL && Hd(heap, c).magic != MAGIC_E
      ensures arena.leaders == old(arena.leaders) && arena.ends == old(arena.ends) && arena.limit == old(arena.limit)
      ensures c == b || (b !in arena.blocks && Hd(heap, c).magic == MAGIC_F)
      ensures Hd(heap, c).size >= old(Hd(heap, b).size)
      ensures Others(old(heap), old(tail), old(arena), heap, tail, arena, b)
    {
      hide Tiled, Linked, Ordered, Quiet, Untouched, Addrs, NoDup, Clear, Follows, BlockOk, LeaderOk;
      ghost var h, tl, a, t, u := heap, tail, arena, tree, quanta + 1;
      c := TailOf(tail, b);
      PrevKind(h, tl, a, t, u, b);
      OthersSame(h, tl, a, b);
      if Hd(heap, c).magic == MAGIC_F {
        PoolDel(c);
        ghost var h1 := heap;
        Absorb(c, b, b);
        TreeFrame(h1, heap, root, tree);
        arena := Without(arena, b);
        JoinedBack(h, heap, tl, a, t, tree, u, b, c);
      } else {
        c := b;
      }
    }

    // ---- the tree ----

    /** `pooladd`: q joins the ring of its size, or the tree. */
    method PoolAdd(q: int)
      requires TreeOk(heap, root, tree) && q != NIL && q !in Addrs(tree) && 0 < Hd(heap, q).size < TOP
      modifies `heap, `root, `tree
      ensures TreeOk(heap, root, tree) && Addrs(tree) == old(Addrs(tree)) + {q}
      ensures OnlyLinks(old(heap)[q := old(Hd(heap, q)).(magic := MAGIC_F)], heap, Addrs(tree))
    {
      ghost var h0 := heap[q := Hd(heap, q).(magic := MAGIC_F)];
      heap := heap[q := Hd(heap, q).(magic := MAGIC_F, left := NIL, right := NIL, parent := NIL, fwd := q, prev := q)];
      LinkedFrame(old(heap), heap, tree, NIL);
      var size := Hd(heap, q).size;
      if root == NIL {
        HeadOf(heap, tree, NIL);
        LeafLinked(heap, q, size, NIL);
        root := q;
        tree := Node(Nil, size, [q], Nil);
        return;
      }
      var t, tp, sub := Place(size);
      if t != NIL {
        EnterRing(q, t, sub);
      } else {
        Attach(q, tp, size);
      }
    }

    /** The search of `pooladd`: the block of the given size, or the last one on the way. */
    method Place(size: int) returns (t: int, tp: int, ghost sub: Tree)
      requires TreeOk(heap, root, tree)
      ensures sub == Sub(tree, size) && tp == Up(tree, size, NIL) && t == Head(sub) && (t == NIL <==> sub.Nil?)
      ensures sub.Node? ==> sub.size == size
    {
      t, tp, sub := root, NIL, tree;
      HeadOf(heap, sub, tp);
      while t != NIL && size != Hd(heap, t).size
        invariant t == Head(sub) && Linked(heap, sub, tp) && Sub(tree, size) == Sub(sub, size)
        invariant Up(tree, size, NIL) == Up(sub, size, tp)
        invariant (t == NIL <==> sub.Nil?) && (t != NIL ==> Hd(heap, t).size == sub.size)
        decreases sub
      {
        tp := t;
        if size < Hd(heap, t).size {
          t := Hd(heap, t).left;
          sub := sub.left;
        } else {
          t := Hd(heap, t).right;
          sub := sub.right;
        }
        HeadOf(heap, sub, tp);
      }
    }

    /** q goes into the ring of t, before t. */
    method EnterRing(q: int, t: int, ghost sub: Tree)
      requires TreeOk(heap, root, tree) && q != NIL && q !in Addrs(tree) && 0 < Hd(heap, q).size < TOP
      requires Hd(heap, q).parent == NIL
      requires sub.Node? && sub.size == Hd(heap, q).size && t == Head(sub) && Sub(tree, sub.size) == sub
      modifies `heap, `tree
      ensures TreeOk(heap, root, tree) && Addrs(tree) == old(Addrs(tree)) + {q}
      ensures OnlyLinks(old(heap), heap, Addrs(tree))
    {
      hide Linked, Ordered, Rehung, Subst, Up, Lo, Hi, RingOk;
      ghost var h, s := heap, sub.size;
      SubLinked(h, tree, NIL, s);
      SubOrdered(tree, s, 0, TOP);
      ghost var ring, up := sub.ring, Up(tree, s, NIL);
      RingEnds(h, ring, s);
      var last := Hd(heap, t).prev;
      heap := heap[q := Hd(heap, q).(prev := last)];
      heap := heap[last := Hd(heap, last).(fwd := q)];
      heap := heap[q := Hd(heap, q).(fwd := t)];
      heap := heap[t := Hd(heap, t).(prev := q)];
      ghost var new' := Node(sub.left, s, ring + [q], sub.right);
      JoinedLinked(h, heap, tree, sub, q, up);
      ghost var was := tree;
      SubstAddrs(h, tree, NIL, s, new', 0, TOP);
      tree := Subst(tree, s, new');
      assert Set(ring + [q]) == Set(ring) + {q};
    }

    /** q becomes a leaf below tp. */
    method Attach(q: int, tp: int, size: int)
      requires TreeOk(heap, root, tree) && tree.Node? && q != NIL && q !in Addrs(tree) && 0 < size < TOP
      requires Hd(heap, q).size == size && Hd(heap, q).left == NIL && Hd(heap, q).right == NIL && Hd(heap, q).fwd == q
      requires Hd(heap, q).prev == q && Hd(heap, q).parent == NIL
      requires Sub(tree, size).Nil? && tp == Up(tree, size, NIL)
      modifies `heap, `tree
      ensures TreeOk(heap, root, tree) && Addrs(tree) == old(Addrs(tree)) + {q}
      ensures OnlyLinks(old(heap), heap, Addrs(tree))
    {
      hide Linked, Subst, Up, Lo, Hi;
      ghost var h := heap;
      UpWithin(h, tree, size, NIL);
      NotNil(h, tree, NIL, 0, TOP);
      UpPoints(h, tree, NIL, size, 0, TOP);
      heap := heap[q := Hd(heap, q).(parent := tp)];
      if size < Hd(heap, tp).size {
        heap := heap[tp := Hd(heap, tp).(left := q)];
      } else {
        heap := heap[tp := Hd(heap, tp).(right := q)];
      }
      ghost var new' := Node(Nil, size, [q], Nil);
      LeafLinked(heap, q, size, tp);
      SubOrdered(tree, size, 0, TOP);
      SubstLinked(h, heap, tree, NIL, size, new', 0, TOP);
      SubstOrdered(tree, size, 0, TOP, new');
      SubstAddrs(h, tree, NIL, size, new', 0, TOP);
      HeadSubst(h, tree, size, NIL, new');
      tree := Subst(tree, size, new');
    }

    /** `pooldel`: t leaves its ring, or the tree. */
    method PoolDel(t: int)
      requires TreeOk(heap, root, tree) && t in Addrs(tree)
      modifies `heap, `root, `tree
      ensures TreeOk(heap, root, tree) && Addrs(tree) == old(Addrs(tree)) - {t}
      ensures OnlyLinks(old(heap), heap, old(Addrs(tree)))
    {
      ghost var i := Placed(heap, tree, t);
      if Hd(heap, t).parent == NIL && root != t {
        LeaveRing(t, i);
      } else if Hd(heap, t).fwd != t {
        HandOver(t);
      } else {
        Unhang(t);
      }
    }

    /** A block alone in its ring leaves the tree: what takes its place is its only child, or the least
        block to its right. */
    method Unhang(t: int)
      requires TreeOk(heap, root, tree) && t in Addrs(tree)
      requires var n := Sub(tree, Hd(heap, t).size); n.Node? && n.ring == [t]
      modifies `heap, `root, `tree
      ensures TreeOk(heap, root, tree) && Addrs(tree) == old(Addrs(tree)) - {t}
      ensures OnlyLinks(old(heap), heap, old(Addrs(tree)))
    {
      hide Linked, Ordered, Rehung, Addrs, RingOk, Member, NoDup, Set, Sub, Up, Subst, Lo, Hi;
      ghost var h, s := heap, Hd(heap, t).size;
      ghost var n, up := Sub(tree, s), Up(tree, s, NIL);
      SizeWithin(h, tree, NIL, 0, TOP, t);
      FirstOf(h, tree, s);
      var rp;
      ghost var new': Tree;
      if Hd(heap, t).left == NIL {
        rp := Hd(heap, t).right;
        new' := n.right;
        OneChild(h, tree, s);
      } else if Hd(heap, t).right == NIL {
        rp := Hd(heap, t).left;
        new' := n.left;
        OneChild(h, tree, s);
      } else {
        rp, new' := Successor(t, s);
      }
      ghost var h1 := heap;
      var q := Hd(heap, t).parent;
      Repoint(t, rp);
      if rp != NIL {
        SetParent(rp, q);
      }
      Rehang(h, h1, heap, tree, s, new', rp);
      SubstAddrs(h, tree, NIL, s, new', 0, TOP);
      tree := Subst(tree, s, new');
    }

    /** The first block of a ring leaves its place to the next. */
    method HandOver(t: int)
      requires TreeOk(heap, root, tree) && t in Addrs(tree)
      requires var n := Sub(tree, Hd(heap, t).size); n.Node? && |n.ring| > 1 && n.ring[0] == t
      modifies `heap, `root, `tree
      ensures TreeOk(heap, root, tree) && Addrs(tree) == old(Addrs(tree)) - {t}
      ensures OnlyLinks(old(heap), heap, old(Addrs(tree)))
    {
      hide Linked, Ordered, Rehung, Addrs, RingOk, Member, NoDup, Set, Sub, Up, Subst;
      ghost var h, z := heap, Hd(heap, t).size;
      ghost var n := Sub(tree, z);
      SizeWithin(h, tree, NIL, 0, TOP, t);
      FirstOf(h, tree, z);
      NotAlone(h, tree, z, 0);
      FirstApart(h, tree, z);
      var f := Hd(heap, t).fwd;
      Repoint(t, f);
      SetParent(f, Hd(heap, t).parent);
      TakeChildren(f, Hd(heap, t).left, Hd(heap, t).right);
      Unlink(t);
      ghost var new' := Node(n.left, z, Drop(n.ring, 0), n.right);
      HandedOver(h, heap, tree, z);
      SubstAddrs(h, tree, NIL, z, new', 0, TOP);
      tree := Subst(tree, z, new');
    }

    /** A block that is not first leaves its ring. */
    method LeaveRing(t: int, ghost i: nat)
      requires TreeOk(heap, root, tree) && t in Addrs(tree)
      requires var n := Sub(tree, Hd(heap, t).size); n.Node? && 0 < i < |n.ring| && n.ring[i] == t
      modifies `heap, `tree
      ensures TreeOk(heap, root, tree) && Addrs(tree) == old(Addrs(tree)) - {t}
      ensures OnlyLinks(old(heap), heap, old(Addrs(tree)))
    {
      ghost var h, s := heap, Hd(heap, t).size;
      ghost var n := Sub(tree, s);
      SizeWithin(h, tree, NIL, 0, TOP, t);
      Neighbours(h, tree, s, i);
      NotAlone(h, tree, s, i);
      Unlink(t);
      ghost var new' := Node(n.left, s, Drop(n.ring, i), n.right);
      RingLeft(h, heap, tree, s, i);
      SubstAddrs(h, tree, NIL, s, new', 0, TOP);
      tree := Subst(tree, s, new');
    }

    /** The root, or the block above t, comes to point to f instead of t. */
    method Repoint(t: int, f: int)
      modifies `heap, `root
      ensures var s := old(Hd(heap, t).parent);
              root == (if s == NIL then f else old(root)) &&
              forall b {:trigger Hd(heap, b)} :: Hd(heap, b) ==
                if s != NIL && b == s then (if old(Hd(heap, b).left) == t then old(Hd(heap, b)).(left := f)
                  else old(Hd(heap, b)).(right := f)) else old(Hd(heap, b))
    {
      var s := Hd(heap, t).parent;
      if s == NIL {
        root := f;
      } else {
        if Hd(heap, s).left == t {
          heap := heap[s := Hd(heap, s).(left := f)];
        } else {
          heap := heap[s := Hd(heap, s).(right := f)];
        }
      }
    }

    method SetParent(f: int, s: int)
      modifies `heap
      ensures forall b {:trigger Hd(heap, b)} ::
                Hd(heap, b) == if b == f then old(Hd(heap, b)).(parent := s) else old(Hd(heap, b))
    {
      heap := heap[f := Hd(heap, f).(parent := s)];
    }

    /** f gets the children of another block. */
    method TakeChildren(f: int, l: int, r: int)
      requires f != l && f != r
      modifies `heap
      ensures forall b {:trigger Hd(heap, b)} ::
        Hd(heap, b) == if b == f then old(Hd(heap, b)).(left := l, right := r)
          else if b != NIL && (b == l || b == r) then old(Hd(heap, b)).(parent := f) else old(Hd(heap, b))
    {
      heap := heap[f := Hd(heap, f).(left := l)];
      if l != NIL {
        heap := heap[l := Hd(heap, l).(parent := f)];
      }
      heap := heap[f := Hd(heap, f).(right := r)];
      if r != NIL {
        heap := heap[r := Hd(heap, r).(parent := f)];
      }
    }

    /** The neighbours of t in its ring are linked to each other. */
    method Unlink(t: int)
      requires Hd(heap, t).prev != t && Hd(heap, t).fwd != t
      modifies `heap
      ensures var p, f := old(Hd(heap, t).prev), old(Hd(heap, t).fwd);
              forall b {:trigger Hd(heap, b)} :: Hd(heap, b) == old(Hd(heap, b)).(fwd := if b == p then f
                  else old(Hd(heap, b).fwd), prev := if b == f then p else old(Hd(heap, b).prev))
    {
      var p := Hd(heap, t).prev;
      heap := heap[p := Hd(heap, p).(fwd := Hd(heap, t).fwd)];
      var f := Hd(heap, t).fwd;
      heap := heap[f := Hd(heap, f).(prev := Hd(heap, t).prev)];
    }

    method SetLeft(f: int, x: int)
      requires f != x
      modifies `heap
      ensures forall b {:trigger Hd(heap, b)} :: Hd(heap, b) == if b == f then old(Hd(heap, b)).(left := x)
                else if x != NIL && b == x then old(Hd(heap, b)).(parent := f) else old(Hd(heap, b))
    {
      heap := heap[f := Hd(heap, f).(left := x)];
      if x != NIL {
        heap := heap[x := Hd(heap, x).(parent := f)];
      }
    }

    method SetRight(f: int, x: int)
      requires f != x
      modifies `heap
      ensures forall b {:trigger Hd(heap, b)} :: Hd(heap, b) == if b == f then old(Hd(heap, b)).(right := x)
                else if x != NIL && b == x then old(Hd(heap, b)).(parent := f) else old(Hd(heap, b))
    {
      heap := heap[f := Hd(heap, f).(right := x)];
      if x != NIL {
        heap := heap[x := Hd(heap, x).(parent := f)];
      }
    }

    /** The least block on the right of t takes over both subtrees of t. */
    method Successor(t: int, ghost s: int) returns (rp: int, ghost new': Tree)
      requires TreeOk(heap, root, tree) && t in Addrs(tree) && s == Hd(heap, t).size && 0 < s < TOP
      requires var n := Sub(tree, s); n.Node? && n.ring == [t] && n.left.Node? && n.right.Node?
      modifies `heap
      ensures Successors(old(heap), heap, tree, s, new') && rp == Head(new')
    {
      hide Linked, Ordered, Rehung, Addrs, RingOk, Member, NoDup, Set, Sub, Up, Subst, Lo, Hi, MinSize, MinTaken,
           Successors;
      ghost var h := heap;
      ghost var n := Sub(tree, s);
      FirstOf(h, tree, s);
      PlaceOrdered(h, tree, s);
      ghost var hi := Hi(tree, s, TOP);
      var f;
      f, rp := Leftmost(t, n.right, s, hi);
      MinParts(h, n.right, t, s, hi);
      if f != t {
        SetLeft(f, Hd(heap, rp).right);
        ghost var h1 := heap;
        SetRight(rp, Hd(heap, t).right);
        MinOut(h, h1, heap, n.right, t, s, hi);
      } else {
        MinTop(h, n.right, t, s, hi);
      }
      ghost var h2 := heap;
      SetLeft(rp, Hd(heap, t).left);
      new' := TookOver(h, h2, heap, tree, s, rp);
    }

    /** The loop of `pooldel` to the least block on the right of t, and the block above it. */
    method Leftmost(t: int, ghost r: Tree, ghost lo: int, ghost hi: int) returns (f: int, rp: int)
      requires r.Node? && Linked(heap, r, t) && Hd(heap, t).right == Head(r) && Ordered(r, lo, hi)
      ensures rp == Head(Sub(r, MinSize(r))) && f == Up(r, MinSize(r), t)
    {
      f, rp := t, Hd(heap, t).right;
      ghost var sub, top := r, hi;
      var s := Hd(heap, rp).left;
      HeadOf(heap, sub.left, rp);
      MinIs(r, lo, hi);
      while s != NIL
        invariant sub.Node? && rp == Head(sub) && Linked(heap, sub, f) && MinSize(r) == MinSize(sub)
        invariant s == Head(sub.left)
        invariant (s == NIL <==> sub.left.Nil?) && Ordered(sub, lo, top) && MinSize(sub) <= sub.size
        invariant (sub.left.Node? ==> MinSize(sub) < sub.size)
        invariant Sub(r, MinSize(r)) == Sub(sub, MinSize(sub)) && Up(r, MinSize(r), t) == Up(sub, MinSize(sub), f)
        decreases sub
      {
        f := rp;
        rp := s;
        top := sub.size;
        sub := sub.left;
        MinIs(sub, lo, top);
        s := Hd(heap, rp).left;
        HeadOf(heap, sub.left, rp);
      }
    }
  }

  /** A tree that is not empty has a block at its top. */
  lemma HeadOf(h: Heap, t: Tree, p: int)
    requires Linked(h, t, p)
    ensures t.Nil? <==> Head(t) == NIL
    ensures t.Node? ==> Hd(h, Head(t)).size == t.size && Head(t) in Addrs(t)
  {
    if t.Node? {
      assert Member(h, t.ring, t.size, 0);
      assert t.ring[0] in Set(t.ring);
    }
  }

  lemma RingEnds(h: Heap, ring: seq<int>, size: int)
    requires RingOk(h, ring, size)
    ensures Hd(h, ring[0]).prev == ring[|ring| - 1] && Hd(h, ring[|ring| - 1]).fwd == ring[0]
    ensures ring[0] in Set(ring) && ring[|ring| - 1] in Set(ring)
  {
    assert Member(h, ring, size, 0) && Member(h, ring, size, |ring| - 1);
  }

  lemma LeafLinked(h: Heap, q: int, size: int, p: int)
    requires q != NIL && Hd(h, q).size == size && Hd(h, q).left == NIL && Hd(h, q).right == NIL
    requires Hd(h, q).parent == p && Hd(h, q).fwd == q && Hd(h, q).prev == q
    ensures Linked(h, Node(Nil, size, [q], Nil), p)
  {
    assert Member(h, [q], size, 0);
  }

  /** The tree after q joined the ring of sub. */
  lemma JoinedLinked(h: Heap, h': Heap, t: Tree, sub: Tree, q: int, up: int)
    requires Linked(h, t, NIL) && Ordered(t, 0, TOP) && sub.Node? && 0 < sub.size < TOP && Sub(t, sub.size) == sub
    requires up == Up(t, sub.size, NIL)
    requires q != NIL && q !in Addrs(t) && Hd(h', q).size == sub.size && Hd(h', q).parent == NIL
    requires RingOk(h, sub.ring, sub.size) && Hd(h', q).fwd == sub.ring[0] && Hd(h', q).prev == sub.ring[|sub.ring| - 1]
    requires forall a :: a != q ==> Hd(h', a) == Hd(h, a).(prev := if a == sub.ring[0] then q
              else Hd(h, a).prev, fwd := if a == sub.ring[|sub.ring| - 1] then q else Hd(h, a).fwd)
    ensures var new' := Node(sub.left, sub.size, sub.ring + [q], sub.right);
            && Linked(h', Subst(t, sub.size, new'), NIL) && Ordered(Subst(t, sub.size, new'), 0, TOP)
            && Head(Subst(t, sub.size, new')) == Head(t)
  {
    var s, ring := sub.size, sub.ring;
    var new' := Node(sub.left, s, ring + [q], sub.right);
    SubLinked(h, t, NIL, s);
    SubOrdered(t, s, 0, TOP);
    PartsApart(h, sub, up, Lo(t, s, 0), Hi(t, s, TOP));
    assert ring[0] in Set(ring) && ring[|ring| - 1] in Set(ring);
    forall a | a in ring ensures a in Addrs(sub) { assert a in Set(ring); }
    RingAppend(h, h', ring, s, q);
    LinkedFrame(h, h', sub.left, ring[0]);
    LinkedFrame(h, h', sub.right, ring[0]);
    SameHead(h, h', t, s, new');
    NotNil(h, t, NIL, 0, TOP);
    SubstLinked(h, h', t, NIL, s, new', 0, TOP);
    SubstOrdered(t, s, 0, TOP, new');
    HeadSubst(h, t, s, NIL, new');
    UpPoints(h, t, NIL, s, 0, TOP);
  }

  /** Where a block is in its ring: first exactly if it has a block above it or is the root. */
  lemma Placed(h: Heap, t: Tree, a: int) returns (i: nat)
    requires Linked(h, t, NIL) && Ordered(t, 0, TOP) && a in Addrs(t)
    ensures var n := Sub(t, Hd(h, a).size);
            n.Node? && n.size == Hd(h, a).size && i < |n.ring| && n.ring[i] == a
            && (i == 0 <==> Hd(h, a).parent != NIL || Head(t) == a) && (|n.ring| == 1 <==> Hd(h, a).fwd == a)
  {
    var s := Hd(h, a).size;
    SizeWithin(h, t, NIL, 0, TOP, a);
    FoundBySize(h, t, NIL, a, 0, TOP);
    SubLinked(h, t, NIL, s);
    SubOrdered(t, s, 0, TOP);
    var n := Sub(t, s);
    i :| 0 <= i < |n.ring| && n.ring[i] == a;
    assert Member(h, n.ring, s, i);
    SameIndex(n.ring, i, if i + 1 < |n.ring| then i + 1 else 0);
    NotNil(h, t, NIL, 0, TOP);
    UpPoints(h, t, NIL, s, 0, TOP);
    UpWithin(h, t, s, NIL);
    HeadOf(h, t, NIL);
    if Head(t) == a {
      HeadFound(h, t, s);
      SameIndex(n.ring, i, 0);
    }
  }

  lemma HeadFound(h: Heap, t: Tree, s: int)
    requires t.Node? && Linked(h, t, NIL) && Hd(h, Head(t)).size == s
    ensures Sub(t, s) == t
  {
    HeadOf(h, t, NIL);
  }

  /** The blocks on either side of a block in a ring are blocks of the tree. */
  lemma Neighbours(h: Heap, t: Tree, s: int, i: nat)
    requires Linked(h, t, NIL) && Ordered(t, 0, TOP) && Sub(t, s).Node? && i < |Sub(t, s).ring|
    ensures var ring := Sub(t, s).ring;
            Hd(h, ring[i]).fwd == After(ring, i) && Hd(h, ring[i]).prev == Before(ring, i)
            && After(ring, i) in Addrs(t) && Before(ring, i) in Addrs(t) && ring[i] in Addrs(t)
  {
    var n := Sub(t, s);
    SubLinked(h, t, NIL, s);
    assert Member(h, n.ring, n.size, i);
    assert After(n.ring, i) in Set(n.ring) && Before(n.ring, i) in Set(n.ring) && n.ring[i] in Set(n.ring);
  }

  lemma NotAlone(h: Heap, t: Tree, s: int, i: nat)
    requires Linked(h, t, NIL) && Sub(t, s).Node? && i < |Sub(t, s).ring| && |Sub(t, s).ring| > 1
    ensures var ring := Sub(t, s).ring;
            After(ring, i) != ring[i] && Before(ring, i) != ring[i]
  {
    var n := Sub(t, s);
    SubLinked(h, t, NIL, s);
    SameIndex(n.ring, i, if i + 1 < |n.ring| then i + 1 else 0);
    SameIndex(n.ring, i, if i > 0 then i - 1 else |n.ring| - 1);
  }

  /** The tree after block i, not the first, left the ring of size s. */
  lemma RingLeft(h: Heap, h': Heap, t: Tree, s: int, i: nat)
    requires Linked(h, t, NIL) && Ordered(t, 0, TOP) && 0 < s < TOP && Sub(t, s).Node? && 0 < i < |Sub(t, s).ring|
    requires var a := Sub(t, s).ring[i];
             forall b :: Hd(h', b) == Hd(h, b).(fwd := if b == Hd(h, a).prev then Hd(h, a).fwd
                 else Hd(h, b).fwd, prev := if b == Hd(h, a).fwd then Hd(h, a).prev else Hd(h, b).prev)
    ensures var n := Sub(t, s);
            var new' := Node(n.left, s, Drop(n.ring, i), n.right);
            && Linked(h', Subst(t, s, new'), NIL) && Ordered(Subst(t, s, new'), 0, TOP)
            && Head(Subst(t, s, new')) == Head(t)
            && (Addrs(t) - Addrs(n)) + Addrs(new') == Addrs(t) - {n.ring[i]}
  {
    hide Linked, Ordered, Subst, Up, Lo, Hi;
    var n, up := Sub(t, s), Up(t, s, NIL);
    var new' := Node(n.left, s, Drop(n.ring, i), n.right);
    SizesKept(t, s);
    SubLinked(h, t, NIL, s);
    SubOrdered(t, s, 0, TOP);
    NodeLeft(h, h', n, up, i, Lo(t, s, 0), Hi(t, s, TOP));
    Neighbours(h, t, s, i);
    assert After(n.ring, i) in Set(n.ring) && Before(n.ring, i) in Set(n.ring);
    SameHead(h, h', t, s, new');
    NotNil(h, t, NIL, 0, TOP);
    SubstLinked(h, h', t, NIL, s, new', 0, TOP);
    SubstOrdered(t, s, 0, TOP, new');
    HeadSubst(h, t, s, NIL, new');
    UpPoints(h, t, NIL, s, 0, TOP);
    assert n.ring[i] in Set(n.ring) && Addrs(n) <= Addrs(t);
  }

  /** The same on the node itself. */
  lemma NodeLeft(h: Heap, h': Heap, n: Tree, up: int, i: nat, lo: int, hi: int)
    requires n.Node? && Linked(h, n, up) && Ordered(n, lo, hi) && 0 < i < |n.ring|
    requires var a := n.ring[i];
             forall b :: Hd(h', b) == Hd(h, b).(fwd := if b == Hd(h, a).prev then Hd(h, a).fwd
                 else Hd(h, b).fwd, prev := if b == Hd(h, a).fwd then Hd(h, a).prev else Hd(h, b).prev)
    ensures Linked(h', n.(ring := Drop(n.ring, i)), up) && Addrs(n.(ring := Drop(n.ring, i))) == Addrs(n) - {n.ring[i]}
    ensures Drop(n.ring, i)[0] == n.ring[0]
  {
    PartsApart(h, n, up, lo, hi);
    assert Member(h, n.ring, n.size, i);
    assert After(n.ring, i) in Set(n.ring) && Before(n.ring, i) in Set(n.ring) && n.ring[i] in Set(n.ring);
    RingRemove(h, h', n.ring, n.size, i);
    LinkedFrame(h, h', n.left, n.ring[0]);
    LinkedFrame(h, h', n.right, n.ring[0]);
  }

  /** The block above a place, its neighbours in the tree and in its ring, all different. */
  lemma FirstOf(h: Heap, t: Tree, s: int)
    requires Linked(h, t, NIL) && Ordered(t, 0, TOP) && 0 < s < TOP && Sub(t, s).Node?
    ensures var n, up := Sub(t, s), Up(t, s, NIL);
            var a := Head(n);
            && Linked(h, n, up) && |n.ring| > 0 && n.size == s && Hd(h, a).parent == up && up !in Addrs(n)
            && NIL !in Addrs(t) && Addrs(n) <= Addrs(t) && (up == NIL <==> n == t)
            && Hd(h, a).left == Head(n.left) && Hd(h, a).right == Head(n.right) && Hd(h, a).fwd == After(n.ring, 0)
            && Hd(h, a).prev == Before(n.ring, 0)
            && (up != NIL ==> up in Addrs(t) && Hd(h, up).size != s)
            && (up != NIL ==>
                  (Hd(h, up).left == a <==> s < Hd(h, up).size) && (s > Hd(h, up).size ==> Hd(h, up).right == a))
            && (Head(n.left) != NIL ==>
                  Head(n.left) in Addrs(n.left) && Head(n.left) in Addrs(n) && Hd(h, Head(n.left)).size < s)
            && (Head(n.right) != NIL ==>
                  Head(n.right) in Addrs(n.right) && Head(n.right) in Addrs(n) && Hd(h, Head(n.right)).size > s)
            && a in Addrs(n) && After(n.ring, 0) in n.ring && Before(n.ring, 0) in n.ring
            && (forall b :: b in n.ring ==> b in Addrs(n) && Hd(h, b).size == s)
  {
    var n, up := Sub(t, s), Up(t, s, NIL);
    SizesKept(t, s);
    SubLinked(h, t, NIL, s);
    SubOrdered(t, s, 0, TOP);
    NotNil(h, t, NIL, 0, TOP);
    UpPoints(h, t, NIL, s, 0, TOP);
    UpWithin(h, t, s, NIL);
    PartsApart(h, n, up, Lo(t, s, 0), Hi(t, s, TOP));
    HeadOf(h, n.left, n.ring[0]);
    HeadOf(h, n.right, n.ring[0]);
    assert Member(h, n.ring, s, 0);
    forall b | b in n.ring ensures b in Addrs(n) { assert b in Set(n.ring); }
    if up != NIL {
      UpSide(h, t, NIL, s, 0, TOP);
    } else {
      UpNil(h, t, s);
    }
  }

  /** The second block of a ring is none of the blocks the first is linked to in the tree. */
  lemma FirstApart(h: Heap, t: Tree, s: int)
    requires Linked(h, t, NIL) && Ordered(t, 0, TOP) && 0 < s < TOP && Sub(t, s).Node?
    ensures |Sub(t, s).ring| > 0
    ensures var n := Sub(t, s);
            var f := After(n.ring, 0);
            && f != Head(n.left) && f != Head(n.right) && f != Up(t, s, NIL)
            && (Head(n.left) != Head(n.right) || Head(n.left) == NIL)
  {
    FirstOf(h, t, s);
    SubOrdered(t, s, 0, TOP);
    var n := Sub(t, s);
    PartsApart(h, n, Up(t, s, NIL), Lo(t, s, 0), Hi(t, s, TOP));
  }

  lemma UpNil(h: Heap, t: Tree, s: int)
    requires Linked(h, t, NIL) && NIL !in Addrs(t)
    ensures Up(t, s, NIL) == NIL ==> Sub(t, s) == t
  {
    if t.Node? && t.size != s {
      var c := if s < t.size then t.left else t.right;
      assert t.ring[0] in Set(t.ring);
      UpWithin(h, c, s, t.ring[0]);
    }
  }

  /** On which side of the block above it a block hangs. */
  lemma {:induction false} UpSide(h: Heap, t: Tree, parent: int, s: int, lo: int, hi: int)
    requires Linked(h, t, parent) && Ordered(t, lo, hi) && lo < s < hi && Sub(t, s).Node? && parent !in Addrs(t)
    ensures var up, a := Up(t, s, parent), Head(Sub(t, s));
            up != parent ==>
              && Hd(h, up).size != s && (Hd(h, up).left == a <==> s < Hd(h, up).size)
              && (s > Hd(h, up).size ==> Hd(h, up).right == a)
  {
    if t.size != s {
      PartsApart(h, t, parent, lo, hi);
      var c := if s < t.size then t.left else t.right;
      var a := t.ring[0];
      assert a in Set(t.ring);
      SubLinked(h, c, a, s);
      SizesKept(c, s);
      if s < t.size {
        UpSide(h, c, a, s, lo, t.size);
      } else {
        UpSide(h, c, a, s, t.size, hi);
      }
      HeadOf(h, t.left, a);
      HeadOf(h, Sub(c, s), Up(c, s, a));
      UpPoints(h, c, a, s, if s < t.size then lo else t.size, if s < t.size then t.size else hi);
      HeadSubst(h, c, s, a, Sub(c, s));
    }
  }

  /** The tree after the first of a ring handed over to the next. */
  lemma HandedOver(h: Heap, h': Heap, t: Tree, s: int)
    requires Linked(h, t, NIL) && Ordered(t, 0, TOP) && 0 < s < TOP && Sub(t, s).Node? && |Sub(t, s).ring| > 1
    requires var n, up := Sub(t, s), Up(t, s, NIL);
             var a := n.ring[0];
             var f, l, r := After(n.ring, 0), Head(n.left), Head(n.right);
             forall b :: Hd(h', b) == Hd(h, b).(
               fwd := if b == Hd(h, a).prev then f else Hd(h, b).fwd,
               prev := if b == f then Hd(h, a).prev else Hd(h, b).prev,
               parent := if b == f then up else if b != NIL && (b == l || b == r) then f else Hd(h, b).parent,
               left := if b == f then l else if b != NIL && b == up && s < Hd(h, b).size then f else Hd(h, b).left,
               right := if b == f then r else if b != NIL && b == up && s > Hd(h, b).size then f else Hd(h, b).right)
    ensures var n := Sub(t, s);
            var new' := Node(n.left, s, Drop(n.ring, 0), n.right);
            Linked(h', Subst(t, s, new'), NIL) && Ordered(Subst(t, s, new'), 0, TOP)
            && Head(Subst(t, s, new')) == (if Up(t, s, NIL) == NIL then After(n.ring, 0) else Head(t))
            && (Addrs(t) - Addrs(n)) + Addrs(new') == Addrs(t) - {n.ring[0]}
  {
    hide Linked, Ordered, Sub, Subst, Up, Lo, Hi, Addrs, Drop;
    var n, up := Sub(t, s), Up(t, s, NIL);
    var new' := Node(n.left, s, Drop(n.ring, 0), n.right);
    FirstOf(h, t, s);
    SubOrdered(t, s, 0, TOP);
    NodeHandedOver(h, h', n, up, Lo(t, s, 0), Hi(t, s, TOP));
    assert Rehung(h, h', t, s, NIL, new') by {
      forall a | a in Addrs(t) && a !in Addrs(n)
        ensures Hd(h', a) == if a == up then Hang(Hd(h, a), s, Head(new')) else Hd(h, a)
      {}
    }
    SubstLinked(h, h', t, NIL, s, new', 0, TOP);
    SubstOrdered(t, s, 0, TOP, new');
    HeadSubst(h, t, s, NIL, new');
  }

  lemma NodeHandedOver(h: Heap, h': Heap, n: Tree, up: int, lo: int, hi: int)
    requires n.Node? && Linked(h, n, up) && Ordered(n, lo, hi) && |n.ring| > 1 && up !in Addrs(n) && NIL !in Addrs(n)
    requires var a := n.ring[0];
             var f, l, r := After(n.ring, 0), Head(n.left), Head(n.right);
             forall b :: b in Addrs(n) ==> Hd(h', b) == Hd(h, b).(
               fwd := if b == Hd(h, a).prev then f else Hd(h, b).fwd,
               prev := if b == f then Hd(h, a).prev else Hd(h, b).prev,
               parent := if b == f then up else if b == l || b == r then f else Hd(h, b).parent,
               left := if b == f then l else Hd(h, b).left,
               right := if b == f then r else Hd(h, b).right)
    ensures var new' := n.(ring := Drop(n.ring, 0));
            Linked(h', new', up) && Addrs(new') == Addrs(n) - {n.ring[0]} && Head(new') == After(n.ring, 0)
  {
    var a, f := n.ring[0], After(n.ring, 0);
    PartsApart(h, n, up, lo, hi);
    assert Member(h, n.ring, n.size, 0);
    forall b | b in n.ring ensures b in Set(n.ring) && b in Addrs(n) {}
    assert f == n.ring[1];
    HeadOf(h, n.left, a);
    HeadOf(h, n.right, a);
    assert a in Set(n.ring) && f in Set(n.ring) && Before(n.ring, 0) in Set(n.ring);
    RingRemove(h, h', n.ring, n.size, 0);
    Reparent(h, h', n.left, a, f, lo, n.size);
    Reparent(h, h', n.right, a, f, n.size, hi);
  }

  /** h with another parent for a. */
  function WithParent(h: Heap, a: int, p: int): Heap {
    if a == NIL then h else h[a := Hd(h, a).(parent := p)]
  }

  lemma WithParentAt(h: Heap, a: int, p: int, b: int)
    ensures Hd(WithParent(h, a, p), b) == if a != NIL && b == a then Hd(h, b).(parent := p) else Hd(h, b)
  {}

  /** What is to take the place of the node of size s: linked, once its top has the parent of the node. */
  ghost predicate Successors(h: Heap, h1: Heap, t: Tree, s: int, new': Tree)
    requires Sub(t, s).Node?
  {
    var n, up := Sub(t, s), Up(t, s, NIL);
    && Linked(WithParent(h1, Head(new'), up), new', up) && Ordered(new', Lo(t, s, 0), Hi(t, s, TOP))
    && Addrs(new') == Addrs(n) - {Head(n)}
    && (forall a {:trigger Hd(h1, a)} :: if a in Addrs(n) && a != Head(n) then Kept(Hd(h, a), Hd(h1, a))
        else Hd(h1, a) == Hd(h, a))
  }

  lemma OneChild(h: Heap, t: Tree, s: int)
    requires Linked(h, t, NIL) && Ordered(t, 0, TOP) && 0 < s < TOP && Sub(t, s).Node? && |Sub(t, s).ring| == 1
    ensures Sub(t, s).left.Nil? || Sub(t, s).right.Nil? ==>
              Successors(h, h, t, s, if Sub(t, s).left.Nil? then Sub(t, s).right else Sub(t, s).left)
    ensures (Head(Sub(t, s).left) == NIL <==> Sub(t, s).left.Nil?)
    ensures (Head(Sub(t, s).right) == NIL <==> Sub(t, s).right.Nil?)
  {
    hide Linked, Ordered, Sub, Up, NoDup, Member;
    PlaceOrdered(h, t, s);
    var n := Sub(t, s);
    HeadOf(h, n.left, Head(n));
    HeadOf(h, n.right, Head(n));
    if n.left.Nil? || n.right.Nil? {
      ChildTakes(h, t, s);
    }
  }

  lemma ChildTakes(h: Heap, t: Tree, s: int)
    requires Linked(h, t, NIL) && Ordered(t, 0, TOP) && 0 < s < TOP && Sub(t, s).Node? && |Sub(t, s).ring| == 1
    requires Sub(t, s).left.Nil? || Sub(t, s).right.Nil?
    ensures Successors(h, h, t, s, if Sub(t, s).left.Nil? then Sub(t, s).right else Sub(t, s).left)
  {
    hide Linked, Ordered, Sub, Up, NoDup, Member;
    PlaceOrdered(h, t, s);
    SubOrdered(t, s, 0, TOP);
    var n, up, lo, hi := Sub(t, s), Up(t, s, NIL), Lo(t, s, 0), Hi(t, s, TOP);
    Widen(n.left, lo, s, lo, hi);
    Widen(n.right, s, hi, lo, hi);
    var c := if n.left.Nil? then n.right else n.left;
    HeadOf(h, c, Head(n));
    Reparent(h, WithParent(h, Head(c), up), c, Head(n), up, lo, hi);
    assert Set(n.ring) == {Head(n)};
  }

  lemma {:induction false} Widen(t: Tree, lo: int, hi: int, lo': int, hi': int)
    requires Ordered(t, lo, hi) && lo' <= lo && hi <= hi'
    ensures Ordered(t, lo', hi')
  {
    if t.Node? {
      Widen(t.left, lo, t.size, lo', t.size);
      Widen(t.right, t.size, hi, t.size, hi');
    }
  }

  /** The tree after what was in the place of size s left it to new'. */
  lemma Rehang(h: Heap, h1: Heap, h2: Heap, t: Tree, s: int, new': Tree, rp: int)
    requires Linked(h, t, NIL) && Ordered(t, 0, TOP) && 0 < s < TOP && Sub(t, s).Node?
    requires Successors(h, h1, t, s, new') && rp == Head(new')
    requires var up, a := Up(t, s, NIL), Head(Sub(t, s));
             forall b {:trigger Hd(h2, b)} :: Hd(h2, b) == Hd(h1, b).(
               parent := if rp != NIL && b == rp then up else Hd(h1, b).parent,
               left := if up != NIL && b == up && Hd(h1, b).left == a then rp else Hd(h1, b).left,
               right := if up != NIL && b == up && Hd(h1, b).left != a then rp else Hd(h1, b).right)
    ensures Linked(h2, Subst(t, s, new'), NIL) && Ordered(Subst(t, s, new'), 0, TOP)
    ensures Head(Subst(t, s, new')) == (if Up(t, s, NIL) == NIL then rp else Head(t))
    ensures (Addrs(t) - Addrs(Sub(t, s))) + Addrs(new') == Addrs(t) - {Head(Sub(t, s))}
    ensures OnlyLinks(h, h2, Addrs(t))
  {
    hide Linked, Ordered, Sub, Subst, Up, Lo, Hi, Addrs;
    FirstOf(h, t, s);
    var n, up := Sub(t, s), Up(t, s, NIL);
    SubOrdered(t, s, 0, TOP);
    var g := WithParent(h1, rp, up);
    HeadOf(g, new', up);
    forall a | a in Addrs(new')
      ensures Hd(h2, a) == Hd(g, a)
    {
      assert a in Addrs(n);
    }
    LinkedFrame(g, h2, new', up);
    assert Rehung(h, h2, t, s, NIL, new') by {
      forall a | a in Addrs(t) && a !in Addrs(n)
        ensures Hd(h2, a) == if a == up then Hang(Hd(h, a), s, Head(new')) else Hd(h, a)
      {
        assert Hd(h1, a) == Hd(h, a);
      }
    }
    SubstLinked(h, h2, t, NIL, s, new', 0, TOP);
    SubstOrdered(t, s, 0, TOP, new');
    HeadSubst(h, t, s, NIL, new');
    forall a
      ensures if a in Addrs(t) then Kept(Hd(h, a), Hd(h2, a)) else Hd(h2, a) == Hd(h, a)
    {
      assert if a in Addrs(n) && a != Head(n) then Kept(Hd(h, a), Hd(h1, a)) else Hd(h1, a) == Hd(h, a);
    }
  }

  lemma PlaceOrdered(h: Heap, t: Tree, s: int)
    requires Linked(h, t, NIL) && Ordered(t, 0, TOP) && 0 < s < TOP && Sub(t, s).Node?
    ensures var n := Sub(t, s);
            && n.size == s && Ordered(n.left, Lo(t, s, 0), s) && Ordered(n.right, s, Hi(t, s, TOP))
            && Linked(h, n.left, Head(n)) && Linked(h, n.right, Head(n))
            && Head(n) !in Addrs(n.right) && Head(n) !in Addrs(n.left) && Addrs(n.left) !! Addrs(n.right)
            && Head(n) != NIL
  {
    FirstOf(h, t, s);
    SubOrdered(t, s, 0, TOP);
    var n := Sub(t, s);
    PartsApart(h, n, Up(t, s, NIL), Lo(t, s, 0), Hi(t, s, TOP));
    assert Head(n) in Set(n.ring);
  }

  /** The blocks the leftmost block of r is linked to. */
  lemma MinParts(h: Heap, r: Tree, t: int, lo: int, hi: int)
    requires r.Node? && Linked(h, r, t) && Ordered(r, lo, hi) && t !in Addrs(r)
    ensures var m := Sub(r, MinSize(r));
            var f, rp := Up(r, MinSize(r), t), Head(m);
            && m.Node? && lo < MinSize(r) < hi && Hd(h, rp).right == Head(m.right) && rp in Addrs(r) && rp != NIL
            && f != rp
            && (f == t || (f in Addrs(r) && f != NIL)) && (f == t <==> m == r)
            && (Head(m.right) != NIL ==> Head(m.right) in Addrs(r) && Head(m.right) != f && Head(m.right) != rp)
            && Head(r) in Addrs(r) && (f != t ==> Head(r) != rp) && Head(r) != NIL
  {
    var s := MinSize(r);
    MinIs(r, lo, hi);
    SubLinked(h, r, t, s);
    SubOrdered(r, s, lo, hi);
    var m := Sub(r, s);
    UpPoints(h, r, t, s, lo, hi);
    UpWithin(h, r, s, t);
    HeadOf(h, r, t);
    HeadOf(h, m, Up(r, s, t));
    PartsApart(h, m, Up(r, s, t), Lo(r, s, lo), Hi(r, s, hi));
    HeadOf(h, m.right, Head(m));
    assert Head(m) in Set(m.ring);
    NotNil(h, r, t, lo, hi);
    TopOrBelow(h, r, t, s);
  }

  lemma TopOrBelow(h: Heap, r: Tree, t: int, s: int)
    requires r.Node? && Linked(h, r, t) && t !in Addrs(r) && Sub(r, s).Node?
    ensures (Up(r, s, t) == t <==> Sub(r, s) == r) && (Sub(r, s) != r ==> Head(r) != Head(Sub(r, s)) || r.size == s)
  {
    if r.size != s {
      var c := if s < r.size then r.left else r.right;
      HeadOf(h, r, t);
      UpWithin(h, c, s, r.ring[0]);
      SizesKept(r, s);
      SubLinked(h, r, t, s);
      HeadOf(h, Sub(r, s), Up(r, s, t));
    }
  }

  /** The leftmost block has been taken out of r, and the rest is on its right. */
  ghost predicate MinTaken(h: Heap, h2: Heap, r: Tree, rp: int, hi: int)
    requires r.Node?
  {
    var m := Sub(r, MinSize(r));
    m.Node? && rp == Head(m) &&
    var rest := Subst(r, MinSize(r), m.right);
    && Linked(h2, rest, rp) && Hd(h2, rp).right == Head(rest) && RingOk(h2, m.ring, MinSize(r))
    && Addrs(rest) == Addrs(r) - Set(m.ring) && Set(m.ring) <= Addrs(r) && Ordered(rest, MinSize(r), hi)
    && (forall a {:trigger Hd(h2, a)} :: if a in Addrs(r) then Kept(Hd(h, a), Hd(h2, a)) else Hd(h2, a) == Hd(h, a))
  }

  lemma MinTop(h: Heap, r: Tree, t: int, lo: int, hi: int)
    requires r.Node? && Linked(h, r, t) && Ordered(r, lo, hi) && t !in Addrs(r) && Up(r, MinSize(r), t) == t
    ensures MinTaken(h, h, r, Head(r), hi) && Head(r) == Head(Sub(r, MinSize(r)))
  {
    MinIs(r, lo, hi);
    MinParts(h, r, t, lo, hi);
    PartsApart(h, r, t, lo, hi);
  }

  lemma MinOut(h: Heap, h1: Heap, h2: Heap, r: Tree, t: int, lo: int, hi: int)
    requires r.Node? && Linked(h, r, t) && Ordered(r, lo, hi) && t !in Addrs(r) && Up(r, MinSize(r), t) != t
    requires var f, rp := Up(r, MinSize(r), t), Head(Sub(r, MinSize(r)));
             var x := Hd(h, rp).right;
             (forall b {:trigger Hd(h1, b)} :: Hd(h1, b) == if b == f then Hd(h, b).(left := x)
                 else if x != NIL && b == x then Hd(h, b).(parent := f) else Hd(h, b))
             && (forall b {:trigger Hd(h2, b)} :: Hd(h2, b) == if b == rp then Hd(h1, b).(right := Head(r))
                 else if Head(r) != NIL && b == Head(r) then Hd(h1, b).(parent := rp) else Hd(h1, b))
    ensures MinTaken(h, h2, r, Head(Sub(r, MinSize(r))), hi)
  {
    hide Linked, Ordered, Sub, Subst, Up, MinSize, Member, NoDup;
    var s := MinSize(r);
    var m, f := Sub(r, s), Up(r, s, t);
    var rp := Head(m);
    MinIs(r, lo, hi);
    var rest := Subst(r, s, m.right);
    MinParts(h, r, t, lo, hi);
    MinRing(h, r, t, lo, hi);
    MinRest(h, h1, r, t, lo, hi);
    SubstAddrs(h, r, t, s, m.right, lo, hi);
    HeadSubst(h, r, s, t, m.right);
    MinReparent(h1, h2, rest, t, rp, s, hi);
    forall a | a in m.ring
      ensures Hd(h2, a) == if a == rp then Hd(h1, a).(right := Head(r)) else Hd(h1, a)
      ensures Hd(h1, a) == Hd(h, a)
    {
      assert a in Set(m.ring);
    }
    RingFrame(h, h2, m.ring, s);
  }

  /** The ring of the leftmost block, and what is on its right. */
  lemma MinRing(h: Heap, r: Tree, t: int, lo: int, hi: int)
    requires r.Node? && Linked(h, r, t) && Ordered(r, lo, hi) && t !in Addrs(r)
    ensures var s := MinSize(r);
            var m := Sub(r, s);
            && m.Node? && m.size == s && m.left.Nil? && RingOk(h, m.ring, s)
            && Addrs(m) == Set(m.ring) + Addrs(m.right) && Addrs(m.right) !! Set(m.ring) && Addrs(m) <= Addrs(r)
            && Head(m) in Set(m.ring) && Up(r, s, t) !in Addrs(m)
            && (Up(r, s, t) != t ==> Head(r) !in Addrs(m))
            && (Head(m.right) != NIL ==> Head(m.right) in Addrs(m.right))
  {
    var s := MinSize(r);
    MinIs(r, lo, hi);
    SubLinked(h, r, t, s);
    SubOrdered(r, s, lo, hi);
    var m, f := Sub(r, s), Up(r, s, t);
    PartsApart(h, m, f, Lo(r, s, lo), Hi(r, s, hi));
    UpPoints(h, r, t, s, lo, hi);
    HeadOf(h, m.right, Head(m));
    HeadOf(h, m, f);
    if f != t {
      TopNotBelow(h, r, t, s, lo, hi);
    }
  }

  lemma TopNotBelow(h: Heap, r: Tree, t: int, s: int, lo: int, hi: int)
    requires r.Node? && Linked(h, r, t) && Ordered(r, lo, hi) && Up(r, s, t) != t
    ensures Head(r) !in Addrs(Sub(r, s))
  {
    PartsApart(h, r, t, lo, hi);
    assert Head(r) in Set(r.ring);
    SubLinked(h, if s < r.size then r.left else r.right, Head(r), s);
  }

  lemma MinReparent(h1: Heap, h2: Heap, rest: Tree, t: int, rp: int, s: int, hi: int)
    requires Linked(h1, rest, t) && Ordered(rest, s, hi) && rp !in Addrs(rest)
    requires forall b {:trigger Hd(h2, b)} :: Hd(h2, b) == if b == rp then Hd(h1, b).(right := Head(rest))
              else if Head(rest) != NIL && b == Head(rest) then Hd(h1, b).(parent := rp) else Hd(h1, b)
    ensures Linked(h2, rest, rp)
  {
    HeadOf(h1, rest, t);
    forall a | a in Addrs(rest)
      ensures Hd(h2, a) == if a == Head(rest) then Hd(h1, a).(parent := rp) else Hd(h1, a)
    {}
    Reparent(h1, h2, rest, t, rp, s, hi);
  }

  /** The rest of r once the block above the leftmost has its right subtree. */
  lemma MinRest(h: Heap, h1: Heap, r: Tree, t: int, lo: int, hi: int)
    requires r.Node? && Linked(h, r, t) && Ordered(r, lo, hi) && t !in Addrs(r) && Up(r, MinSize(r), t) != t
    requires var f, rp := Up(r, MinSize(r), t), Head(Sub(r, MinSize(r)));
             var x := Hd(h, rp).right;
             forall b {:trigger Hd(h1, b)} :: Hd(h1, b) == if b == f then Hd(h, b).(left := x)
                 else if x != NIL && b == x then Hd(h, b).(parent := f) else Hd(h, b)
    ensures Sub(r, MinSize(r)).Node? && Linked(h1, Subst(r, MinSize(r), Sub(r, MinSize(r)).right), t)
  {
    var s := MinSize(r);
    var m, f := Sub(r, s), Up(r, s, t);
    MinIs(r, lo, hi);
    MinParts(h, r, t, lo, hi);
    SubLinked(h, r, t, s);
    SubOrdered(r, s, lo, hi);
    PartsApart(h, m, f, Lo(r, s, lo), Hi(r, s, hi));
    UpPoints(h, r, t, s, lo, hi);
    HeadOf(h, m.right, Head(m));
    Reparent(h, h1, m.right, Head(m), f, s, Hi(r, s, hi));
    UpSide(h, r, t, s, lo, hi);
    MinLeft(h, r, t, lo, hi);
    assert Rehung(h, h1, r, s, t, m.right);
    SubstLinked(h, h1, r, t, s, m.right, lo, hi);
  }

  /** The leftmost block hangs on the left. */
  lemma {:induction false} MinLeft(h: Heap, r: Tree, t: int, lo: int, hi: int)
    requires r.Node? && Linked(h, r, t) && Ordered(r, lo, hi) && t !in Addrs(r)
    ensures Up(r, MinSize(r), t) != t ==> MinSize(r) < Hd(h, Up(r, MinSize(r), t)).size
  {
    MinIs(r, lo, hi);
    if r.left.Node? {
      PartsApart(h, r, t, lo, hi);
      HeadOf(h, r, t);
      MinIs(r.left, lo, r.size);
      assert Head(r) in Set(r.ring);
      MinLeft(h, r.left, Head(r), lo, r.size);
    }
  }

  /** The least block with both subtrees of the node of size s. */
  lemma TookOver(h: Heap, h2: Heap, h3: Heap, t: Tree, s: int, rp: int) returns (new': Tree)
    requires Linked(h, t, NIL) && Ordered(t, 0, TOP) && 0 < s < TOP
    requires var n :=
                 Sub(t, s);
             n.Node? && |n.ring| == 1 && n.left.Node? && n.right.Node? && MinTaken(h, h2, n.right, rp, Hi(t, s, TOP))
    requires var l := Head(Sub(t, s).left);
             forall b {:trigger Hd(h3, b)} :: Hd(h3, b) == if b == rp then Hd(h2, b).(left := l)
                 else if l != NIL && b == l then Hd(h2, b).(parent := rp) else Hd(h2, b)
    ensures Successors(h, h3, t, s, new') && rp == Head(new')
  {
    hide Linked, Ordered, Sub, Subst, Up, MinSize, Member, NoDup, Lo, Hi;
    FirstOf(h, t, s);
    PlaceOrdered(h, t, s);
    var n, up, hi := Sub(t, s), Up(t, s, NIL), Hi(t, s, TOP);
    var m := Sub(n.right, MinSize(n.right));
    var rest := Subst(n.right, MinSize(n.right), m.right);
    new' := Node(n.left, MinSize(n.right), m.ring, rest);
    MinIs(n.right, s, hi);
    MemberHead(h2, m.ring, MinSize(n.right));
    assert rp in Addrs(n.right) && rp !in Addrs(n.left);
    TakenNode(h, h2, h3, n, m.ring, rest, MinSize(n.right), rp, up, Lo(t, s, 0), hi);
    assert Set(n.ring) == {Head(n)};
    forall a
      ensures if a in Addrs(n) && a != Head(n) then Kept(Hd(h, a), Hd(h3, a)) else Hd(h3, a) == Hd(h, a)
    {
      HeadOf(h, n.left, Head(n));
      assert if a in Addrs(n.right) then Kept(Hd(h, a), Hd(h2, a)) else Hd(h2, a) == Hd(h, a);
    }
  }

  /** The same on the node itself. */
  lemma TakenNode(h: Heap, h2: Heap, h3: Heap, n: Tree, ring: seq<int>, rest: Tree, size: int, rp: int, up: int,
                  lo: int, hi: int)
    requires n.Node? && n.left.Node? && Linked(h, n.left, Head(n)) && Ordered(n.left, lo, n.size)
    requires lo < n.size < size < hi
    requires Linked(h2, rest, rp) && Hd(h2, rp).right == Head(rest) && RingOk(h2, ring, size)
    requires Ordered(rest, size, hi) && rp == ring[0] && rp != NIL
    requires Addrs(rest) <= Addrs(n.right) && Set(ring) <= Addrs(n.right) && Addrs(rest) !! Set(ring)
    requires Addrs(n.left) !! Addrs(n.right)
    requires forall a :: a in Addrs(n.left) ==> Hd(h2, a) == Hd(h, a)
    requires var l := Head(n.left);
             forall b {:trigger Hd(h3, b)} :: Hd(h3, b) == if b == rp then Hd(h2, b).(left := l)
                 else if l != NIL && b == l then Hd(h2, b).(parent := rp) else Hd(h2, b)
    ensures var new' := Node(n.left, size, ring, rest);
            Linked(WithParent(h3, rp, up), new', up) && Ordered(new', lo, hi)
  {
    hide Member, NoDup;
    var g := WithParent(h3, rp, up);
    HeadOf(h, n.left, Head(n));
    assert rp in Set(ring);
    forall a | a in Addrs(n.left)
      ensures Hd(g, a) == if a == Head(n.left) then Hd(h, a).(parent := rp) else Hd(h, a)
    {
      WithParentAt(h3, rp, up, a);
    }
    Reparent(h, g, n.left, Head(n), rp, lo, n.size);
    forall a | a in Addrs(rest)
      ensures Hd(g, a) == Hd(h2, a)
    {
      WithParentAt(h3, rp, up, a);
    }
    LinkedFrame(h2, g, rest, rp);
    forall a | a in ring
      ensures Hd(g, a) == if a == rp then Hd(h2, a).(left := Head(n.left), parent := up) else Hd(h2, a)
    {
      assert a in Set(ring);
      WithParentAt(h3, rp, up, a);
    }
    RingFrame(h2, g, ring, size);
    Widen(n.left, lo, n.size, lo, size);
  }

  lemma MemberHead(h: Heap, ring: seq<int>, size: int)
    requires RingOk(h, ring, size)
    ensures ring[0] != NIL && ring[0] in Set(ring)
  {
    assert Member(h, ring, size, 0);
  }

  lemma NilEmpty(t: Tree)
    ensures t.Nil? ==> Addrs(t) == {}
  {}

  /** A search for another size goes on below: what is large enough is there, or no smaller than the top. */
  lemma OneSide(h: Heap, t: Tree, p: int, lo: int, hi: int, size: int)
    requires t.Node? && Linked(h, t, p) && Ordered(t, lo, hi) && size != t.size
    ensures Linked(h, t.left, Head(t)) && Linked(h, t.right, Head(t)) && Hd(h, Head(t)).left == Head(t.left)
    ensures Hd(h, Head(t)).right == Head(t.right)
    ensures t.size < hi && Ordered(t.left, lo, t.size) && Ordered(t.right, t.size, hi) && Addrs(t.left) <= Addrs(t)
    ensures Addrs(t.right) <= Addrs(t)
    ensures forall f :: f in Addrs(t) && Hd(h, f).size >= size ==>
              if size < t.size then f in Addrs(t.left) || Hd(h, f).size >= t.size else f in Addrs(t.right)
  {
    PartsApart(h, t, p, lo, hi);
    forall f | f in Addrs(t) && Hd(h, f).size >= size
      ensures if size < t.size then f in Addrs(t.left) || Hd(h, f).size >= t.size else f in Addrs(t.right)
    {
      assert f in Addrs(t.left) || f in t.ring || f in Addrs(t.right);
    }
  }

  lemma UnitSum(ns: int, u: int)
    requires u > 0 && ns % u == 0
    ensures (ns + u + u) % u == 0
  {
    ModZero(u, u, 1);
    ModSum(ns, u, u);
    ModSum(ns + u, u, u);
  }
}
