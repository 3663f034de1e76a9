/**
 The free blocks of the pool allocator: block headers in a map from addresses, and the tree of sizes
 with a ring of blocks at every node that `emu/alloc.c` links through them.
 */
module PoolTree {
  import opened Sequences

  const NIL := 0

  const MAGIC_A := 0xa110c
  const MAGIC_F := 0xbadc0c0a
  const MAGIC_E := 0xdeadbabe
  const MAGIC_I := 0xabba

  /** `struct Bhdr`; `clink` and `csize` are the other arm of its union, used in the leader of a chain. */
  datatype Bhdr = Bhdr(magic: int, size: int, left: int, right: int, parent: int, prev: int, fwd: int,
                       clink: int, csize: int)

  type Heap = map<int, Bhdr>

  /** The header at an address. */
  function Hd(h: Heap, a: int): Bhdr {
    if a in h then h[a] else Bhdr(0, 0, 0, 0, 0, 0, 0, 0, 0)
  }

  /** A tree of distinct sizes; the first block of a node's ring is the one in the tree. */
  datatype Tree = Nil | Node(left: Tree, size: int, ring: seq<int>, right: Tree)

  function Head(t: Tree): int {
    if t.Node? && |t.ring| > 0 then t.ring[0] else NIL
  }

  function After(ring: seq<int>, i: nat): int
    requires i < |ring|
  {
    if i + 1 < |ring| then ring[i + 1] else ring[0]
  }

  function Before(ring: seq<int>, i: nat): int
    requires i < |ring|
  {
    if i > 0 then ring[i - 1] else ring[|ring| - 1]
  }

  /** The i-th member of a ring of blocks of one size: linked both ways, and out of the tree unless first. */
  ghost predicate Member(h: Heap, ring: seq<int>, size: int, i: nat)
    requires i < |ring|
  {
    var b := Hd(h, ring[i]);
    && ring[i] != NIL && b.size == size && b.fwd == After(ring, i) && b.prev == Before(ring, i)
    && (i > 0 ==> b.parent == NIL)
  }

  ghost predicate RingOk(h: Heap, ring: seq<int>, size: int) {
    |ring| > 0 && NoDup(ring) && forall i {:trigger Member(h, ring, size, i)} :: 0 <= i < |ring| ==>
      && Member(h, ring, size, i)
  }

  /** The headers are linked as the tree says. */
  ghost predicate Linked(h: Heap, t: Tree, parent: int) {
    t.Node? ==>
      && RingOk(h, t.ring, t.size)
      && Hd(h, t.ring[0]).parent == parent && Hd(h, t.ring[0]).left == Head(t.left)
      && Hd(h, t.ring[0]).right == Head(t.right)
      && Linked(h, t.left, t.ring[0]) && Linked(h, t.right, t.ring[0])
  }

  function Set(s: seq<int>): set<int> {
    set a | a in s
  }

  /** All blocks in the tree. */
  function Addrs(t: Tree): set<int> {
    if t.Nil? then {} else Addrs(t.left) + Set(t.ring) + Addrs(t.right)
  }

  /** A search tree with distinct sizes between lo and hi. */
  predicate Ordered(t: Tree, lo: int, hi: int) {
    t.Node? ==> lo < t.size < hi && Ordered(t.left, lo, t.size) && Ordered(t.right, t.size, hi)
  }

  lemma {:induction false} LinkedFrame(h: Heap, h': Heap, t: Tree, parent: int)
    requires Linked(h, t, parent) && forall a :: a in Addrs(t) ==> Hd(h', a) == Hd(h, a)
    ensures Linked(h', t, parent)
  {
    if t.Node? {
      RingFrame(h, h', t.ring, t.size);
      assert t.ring[0] in Addrs(t);
      LinkedFrame(h, h', t.left, t.ring[0]);
      LinkedFrame(h, h', t.right, t.ring[0]);
    }
  }

  lemma RingFrame(h: Heap, h': Heap, ring: seq<int>, size: int)
    requires RingOk(h, ring, size)
    requires forall a :: a in ring ==>
               Hd(h', a).size == Hd(h, a).size && Hd(h', a).fwd == Hd(h, a).fwd && Hd(h', a).prev == Hd(h, a).prev
    requires forall a :: a in ring && a != ring[0] ==> Hd(h', a).parent == Hd(h, a).parent
    ensures RingOk(h', ring, size)
  {
    forall i | 0 <= i < |ring|
      ensures Member(h', ring, size, i)
    {
      assert Member(h, ring, size, i) && ring[i] in ring;
    }
  }

  /** Every block in the tree has a size within its bounds. */
  lemma {:induction false} SizeWithin(h: Heap, t: Tree, parent: int, lo: int, hi: int, a: int)
    requires Linked(h, t, parent) && Ordered(t, lo, hi) && a in Addrs(t)
    ensures lo < Hd(h, a).size < hi && a != NIL
  {
    if a in t.ring {
      var i :| 0 <= i < |t.ring| && t.ring[i] == a;
      assert Member(h, t.ring, t.size, i);
    } else if a in Addrs(t.left) {
      SizeWithin(h, t.left, t.ring[0], lo, t.size, a);
    } else {
      SizeWithin(h, t.right, t.ring[0], t.size, hi, a);
    }
  }

  /** The blocks of the two subtrees and the ring are apart, since their sizes are. */
  lemma PartsApart(h: Heap, t: Tree, parent: int, lo: int, hi: int)
    requires Linked(h, t, parent) && Ordered(t, lo, hi) && t.Node?
    ensures forall a :: a in Addrs(t.left) ==> Hd(h, a).size < t.size
    ensures forall a :: a in Addrs(t.right) ==> Hd(h, a).size > t.size
    ensures forall a :: a in t.ring ==> Hd(h, a).size == t.size
    ensures Addrs(t.left) !! Set(t.ring) && Addrs(t.right) !! Set(t.ring) && Addrs(t.left) !! Addrs(t.right)
  {
    forall a | a in Addrs(t.left)
      ensures Hd(h, a).size < t.size
    {
      SizeWithin(h, t.left, t.ring[0], lo, t.size, a);
    }
    forall a | a in Addrs(t.right)
      ensures Hd(h, a).size > t.size
    {
      SizeWithin(h, t.right, t.ring[0], t.size, hi, a);
    }
    forall a | a in t.ring
      ensures Hd(h, a).size == t.size
    {
      var i :| 0 <= i < |t.ring| && t.ring[i] == a;
      assert Member(h, t.ring, t.size, i);
    }
    forall a | a in Addrs(t.left)
      ensures a !in Set(t.ring) && a !in Addrs(t.right)
    {}
    forall a | a in Addrs(t.right)
      ensures a !in Set(t.ring)
    {}
  }

  // ---- positions ----

  /** Where the search for size s ends: the node of that size, or nothing. */
  function Sub(t: Tree, s: int): Tree {
    if t.Nil? || t.size == s then t else if s < t.size then Sub(t.left, s) else Sub(t.right, s)
  }

  /** The block above that place. */
  function Up(t: Tree, s: int, parent: int): int {
    if t.Nil? || t.size == s then parent else if s < t.size then Up(t.left, s, Head(t)) else Up(t.right, s, Head(t))
  }

  /** The bounds on sizes at that place. */
  function Lo(t: Tree, s: int, lo: int): int {
    if t.Nil? || t.size == s then lo else if s < t.size then Lo(t.left, s, lo) else Lo(t.right, s, t.size)
  }

  function Hi(t: Tree, s: int, hi: int): int {
    if t.Nil? || t.size == s then hi else if s < t.size then Hi(t.left, s, t.size) else Hi(t.right, s, hi)
  }

  /** The tree with another subtree in that place. */
  function Subst(t: Tree, s: int, new': Tree): Tree {
    if t.Nil? || t.size == s then new'
    else if s < t.size then t.(left := Subst(t.left, s, new'))
    else t.(right := Subst(t.right, s, new'))
  }

  /** What is in the place keeps to the bounds, and what is put there may use them. */
  lemma {:induction false} SubOrdered(t: Tree, s: int, lo: int, hi: int)
    requires Ordered(t, lo, hi) && lo < s < hi
    ensures Ordered(Sub(t, s), Lo(t, s, lo), Hi(t, s, hi)) && Lo(t, s, lo) < s < Hi(t, s, hi)
    ensures Sub(t, s).Node? ==> Sub(t, s).size == s
  {
    if t.Node? && t.size != s {
      if s < t.size {
        SubOrdered(t.left, s, lo, t.size);
      } else {
        SubOrdered(t.right, s, t.size, hi);
      }
    }
  }

  lemma {:induction false} SubstOrdered(t: Tree, s: int, lo: int, hi: int, new': Tree)
    requires Ordered(t, lo, hi) && lo < s < hi && Ordered(new', Lo(t, s, lo), Hi(t, s, hi))
    ensures Ordered(Subst(t, s, new'), lo, hi)
  {
    if t.Node? && t.size != s {
      if s < t.size {
        SubstOrdered(t.left, s, lo, t.size, new');
      } else {
        SubstOrdered(t.right, s, t.size, hi, new');
      }
    }
  }

  lemma {:induction false} SubLinked(h: Heap, t: Tree, parent: int, s: int)
    requires Linked(h, t, parent)
    ensures Linked(h, Sub(t, s), Up(t, s, parent)) && Addrs(Sub(t, s)) <= Addrs(t)
  {
    if t.Node? && t.size != s {
      if s < t.size {
        SubLinked(h, t.left, Head(t), s);
      } else {
        SubLinked(h, t.right, Head(t), s);
      }
    }
  }

  /** A header with its child on the side of size s set to x. */
  function Hang(b: Bhdr, s: int, x: int): Bhdr {
    if s < b.size then b.(left := x) else b.(right := x)
  }

  /** Outside the place only the child pointer of the block above it changes. */
  ghost predicate Rehung(h: Heap, h': Heap, t: Tree, s: int, parent: int, new': Tree) {
    forall a :: a in Addrs(t) && a !in Addrs(Sub(t, s)) ==>
      Hd(h', a) == if a == Up(t, s, parent) then Hang(Hd(h, a), s, Head(new')) else Hd(h, a)
  }

  /** Putting a linked subtree in a place and its pointer in the block above gives a linked tree. */
  lemma {:induction false} SubstLinked(h: Heap, h': Heap, t: Tree, parent: int, s: int, new': Tree, lo: int, hi: int)
    requires Linked(h, t, parent) && Ordered(t, lo, hi) && lo < s < hi
    requires Linked(h', new', Up(t, s, parent)) && Rehung(h, h', t, s, parent, new')
    requires parent !in Addrs(t)
    ensures Linked(h', Subst(t, s, new'), parent)
  {
    if t.Node? && t.size != s {
      PartsApart(h, t, parent, lo, hi);
      var a := t.ring[0];
      assert a in t.ring && a !in Addrs(t.left) && a !in Addrs(t.right);
      if s < t.size {
        Descend(h, h', t, t.left, s, parent, new', lo, t.size);
        SubstLinked(h, h', t.left, a, s, new', lo, t.size);
        LinkedFrame(h, h', t.right, a) by {
          Elsewhere(h, h', t, t.left, t.right, s, parent, new', lo, t.size);
        }
      } else {
        Descend(h, h', t, t.right, s, parent, new', t.size, hi);
        SubstLinked(h, h', t.right, a, s, new', t.size, hi);
        LinkedFrame(h, h', t.left, a) by {
          Elsewhere(h, h', t, t.right, t.left, s, parent, new', t.size, hi);
        }
      }
      NodeLinked(h, h', t, s, parent, new', lo, hi);
    }
  }

  /** Below the node the same change. */
  lemma Descend(h: Heap, h': Heap, t: Tree, c: Tree, s: int, parent: int, new': Tree, lo: int, hi: int)
    requires t.Node? && t.size != s && Rehung(h, h', t, s, parent, new')
    requires c == (if s < t.size then t.left else t.right)
    requires |t.ring| > 0
    ensures Rehung(h, h', c, s, t.ring[0], new')
  {}

  lemma {:induction false} UpWithin(h: Heap, t: Tree, s: int, parent: int)
    requires Linked(h, t, parent)
    ensures Up(t, s, parent) == parent || Up(t, s, parent) in Addrs(t)
  {
    if t.Node? && t.size != s {
      if s < t.size {
        UpWithin(h, t.left, s, t.ring[0]);
      } else {
        UpWithin(h, t.right, s, t.ring[0]);
      }
    }
  }

  /** On the other side nothing changes. */
  lemma Elsewhere(h: Heap, h': Heap, t: Tree, c: Tree, d: Tree, s: int, parent: int, new': Tree, lo: int, hi: int)
    requires t.Node? && t.size != s && Rehung(h, h', t, s, parent, new') && |t.ring| > 0
    requires c == (if s < t.size then t.left else t.right) && d == (if s < t.size then t.right else t.left)
    requires Linked(h, c, t.ring[0]) && Addrs(c) !! Addrs(d) && t.ring[0] !in Addrs(d)
    ensures forall a :: a in Addrs(d) ==> Hd(h', a) == Hd(h, a)
  {
    UpWithin(h, c, s, t.ring[0]);
    SubLinked(h, c, t.ring[0], s);
  }

  lemma NodeLinked(h: Heap, h': Heap, t: Tree, s: int, parent: int, new': Tree, lo: int, hi: int)
    requires Linked(h, t, parent) && Ordered(t, lo, hi) && t.Node? && t.size != s && Rehung(h, h', t, s, parent, new')
    requires Linked(h', if s < t.size then Subst(t.left, s, new') else t.left, t.ring[0])
    requires Linked(h', if s < t.size then t.right else Subst(t.right, s, new'), t.ring[0])
    ensures Linked(h', Subst(t, s, new'), parent)
  {
    PartsApart(h, t, parent, lo, hi);
    var a := t.ring[0];
    var c := if s < t.size then t.left else t.right;
    UpWithin(h, c, s, a);
    SubLinked(h, c, a, s);
    assert Hd(h, a).size == t.size;
    forall b | b in t.ring
      ensures Hd(h', b) == if b == Up(c, s, a) then Hang(Hd(h, b), s, Head(new')) else Hd(h, b)
      ensures b == Up(c, s, a) ==> b == a
    {
      assert b in Set(t.ring) && b in Addrs(t);
    }
    RingFrame(h, h', t.ring, t.size);
    HeadSubst(h, c, s, a, new');
  }

  /** The block at the top changes only if the top is the place, or is unchanged. */
  lemma HeadSubst(h: Heap, c: Tree, s: int, a: int, new': Tree)
    requires Linked(h, c, a) && a !in Addrs(c)
    ensures if Up(c, s, a) == a then Head(Subst(c, s, new')) == Head(new') else Head(Subst(c, s, new')) == Head(c)
  {
    if c.Node? && c.size != s {
      var d := if s < c.size then c.left else c.right;
      UpWithin(h, d, s, c.ring[0]);
      assert c.ring[0] in Addrs(c);
    }
  }

  lemma {:induction false} SubstAddrs(h: Heap, t: Tree, parent: int, s: int, new': Tree, lo: int, hi: int)
    requires Linked(h, t, parent) && Ordered(t, lo, hi)
    ensures Addrs(Subst(t, s, new')) == (Addrs(t) - Addrs(Sub(t, s))) + Addrs(new')
  {
    if t.Node? && t.size != s {
      PartsApart(h, t, parent, lo, hi);
      if s < t.size {
        SubstAddrs(h, t.left, t.ring[0], s, new', lo, t.size);
        SubLinked(h, t.left, t.ring[0], s);
      } else {
        SubstAddrs(h, t.right, t.ring[0], s, new', t.size, hi);
        SubLinked(h, t.right, t.ring[0], s);
      }
    }
  }

  /** A block is found by its size. */
  lemma {:induction false} FoundBySize(h: Heap, t: Tree, parent: int, a: int, lo: int, hi: int)
    requires Linked(h, t, parent) && Ordered(t, lo, hi) && a in Addrs(t)
    ensures Sub(t, Hd(h, a).size).Node? && a in Sub(t, Hd(h, a).size).ring
  {
    PartsApart(h, t, parent, lo, hi);
    if a in Addrs(t.left) {
      FoundBySize(h, t.left, t.ring[0], a, lo, t.size);
    } else if a in Addrs(t.right) {
      FoundBySize(h, t.right, t.ring[0], a, t.size, hi);
    } else {
      assert a in Set(t.ring);
    }
  }

  // ---- changes to the headers ----

  const TOP := 0x1_0000_0000

  /** The tree from its root pointer. */
  ghost predicate TreeOk(h: Heap, root: int, t: Tree) {
    root == Head(t) && Linked(h, t, NIL) && Ordered(t, 0, TOP)
  }

  /** Only the link fields of the blocks in s change. */
  ghost predicate OnlyLinks(h: Heap, h': Heap, s: set<int>) {
    forall a {:trigger Hd(h', a)} :: if a in s then Kept(Hd(h, a), Hd(h', a)) else Hd(h', a) == Hd(h, a)
  }

  /** What is not a link stays. */
  predicate Kept(b: Bhdr, c: Bhdr) {
    c.size == b.size && c.magic == b.magic && c.clink == b.clink && c.csize == b.csize
  }

  lemma {:induction false} SizesKept(t: Tree, s: int)
    ensures Sub(t, s).Node? ==> Sub(t, s).size == s
  {
    if t.Node? && t.size != s {
      SizesKept(if s < t.size then t.left else t.right, s);
    }
  }

  /** The block above a place points to what is in it. */
  lemma {:induction false} UpPoints(h: Heap, t: Tree, parent: int, s: int, lo: int, hi: int)
    requires Linked(h, t, parent) && Ordered(t, lo, hi) && parent !in Addrs(t) && lo < s < hi
    ensures Up(t, s, parent) != parent ==> Hang(Hd(h, Up(t, s, parent)), s, Head(Sub(t, s))) == Hd(h, Up(t, s, parent))
    ensures Up(t, s, parent) == parent ==> Sub(t, s) == t
    ensures Up(t, s, parent) !in Addrs(Sub(t, s))
  {
    if t.Node? && t.size != s {
      PartsApart(h, t, parent, lo, hi);
      var a := t.ring[0];
      assert a in Set(t.ring);
      var c := if s < t.size then t.left else t.right;
      if s < t.size {
        UpPoints(h, c, a, s, lo, t.size);
      } else {
        UpPoints(h, c, a, s, t.size, hi);
      }
      UpWithin(h, c, s, a);
    }
  }

  /** A change that leaves the block above a place alone, and puts in the place a subtree with the same head. */
  lemma SameHead(h: Heap, h': Heap, t: Tree, s: int, new': Tree)
    requires Linked(h, t, NIL) && Ordered(t, 0, TOP) && 0 < s < TOP && Head(new') == Head(Sub(t, s))
    requires forall a :: a in Addrs(t) && a !in Addrs(Sub(t, s)) ==> Hd(h', a) == Hd(h, a)
    ensures Rehung(h, h', t, s, NIL, new')
  {
    NotNil(h, t, NIL, 0, TOP);
    UpPoints(h, t, NIL, s, 0, TOP);
  }

  lemma NotNil(h: Heap, t: Tree, parent: int, lo: int, hi: int)
    requires Linked(h, t, parent) && Ordered(t, lo, hi)
    ensures NIL !in Addrs(t)
  {
    if NIL in Addrs(t) {
      SizeWithin(h, t, parent, lo, hi, NIL);
    }
  }

  /** Giving the top block another parent. */
  lemma Reparent(h: Heap, h': Heap, t: Tree, p: int, p': int, lo: int, hi: int)
    requires Linked(h, t, p) && Ordered(t, lo, hi)
    requires forall a :: a in Addrs(t) ==> Hd(h', a) == if a == Head(t) then Hd(h, a).(parent := p') else Hd(h, a)
    ensures Linked(h', t, p')
  {
    if t.Node? {
      PartsApart(h, t, p, lo, hi);
      var a := t.ring[0];
      assert a in Set(t.ring) && a in Addrs(t);
      forall b | b in t.ring
        ensures Hd(h', b) == if b == a then Hd(h, b).(parent := p') else Hd(h, b)
      {
        assert b in Set(t.ring) && b in Addrs(t);
      }
      RingFrame(h, h', t.ring, t.size);
      LinkedFrame(h, h', t.left, a);
      LinkedFrame(h, h', t.right, a);
    }
  }

  /** A block joins a ring before its first. */
  lemma RingAppend(h: Heap, h': Heap, ring: seq<int>, size: int, q: int)
    requires RingOk(h, ring, size) && q !in ring && q != NIL && Hd(h', q).size == size && Hd(h', q).parent == NIL
    requires Hd(h', q).fwd == ring[0] && Hd(h', q).prev == ring[|ring| - 1]
    requires forall a :: a in ring ==> Hd(h', a) == Hd(h, a).(prev := if a == ring[0] then q
              else Hd(h, a).prev, fwd := if a == ring[|ring| - 1] then q else Hd(h, a).fwd)
    ensures RingOk(h', ring + [q], size)
  {
    var r, n := ring + [q], |ring|;
    forall i | 0 <= i < |r|
      ensures Member(h', r, size, i)
    {
      if i < n {
        assert Member(h, ring, size, i) && ring[i] in ring;
        assert i == 0 <==> ring[i] == ring[0];
        assert i == n - 1 <==> ring[i] == ring[n - 1];
      }
    }
  }

  lemma SameIndex(ring: seq<int>, i: nat, j: nat)
    requires NoDup(ring) && i < |ring| && j < |ring|
    ensures ring[i] == ring[j] <==> i == j
  {}

  /** A ring without its i-th block. */
  function Drop(ring: seq<int>, i: nat): seq<int>
    requires i < |ring|
  {
    ring[..i] + ring[i + 1..]
  }

  /** A block leaves a ring of at least two. */
  lemma RingRemove(h: Heap, h': Heap, ring: seq<int>, size: int, i: nat)
    requires RingOk(h, ring, size) && i < |ring| && |ring| > 1
    requires forall a :: a in ring && a != ring[i] ==>
      Hd(h', a).size == size && Hd(h', a).fwd == (if a == Hd(h, ring[i]).prev then Hd(h, ring[i]).fwd else Hd(h, a).fwd)
        && Hd(h', a).prev == (if a == Hd(h, ring[i]).fwd then Hd(h, ring[i]).prev else Hd(h, a).prev)
    requires forall a :: a in ring && a != Drop(ring, i)[0] ==> Hd(h', a).parent == Hd(h, a).parent
    ensures RingOk(h', Drop(ring, i), size) && Set(Drop(ring, i)) == Set(ring) - {ring[i]}
  {
    var r, n := Drop(ring, i), |ring|;
    DropSet(ring, i);
    assert Member(h, ring, size, i);
    forall j | 0 <= j < |r|
      ensures Member(h', r, size, j)
    {
      var k := if j < i then j else j + 1;
      assert r[j] == ring[k] && Member(h, ring, size, k) && ring[k] in ring;
      NextAfter(ring, i, j);
      SameIndex(ring, k, if i > 0 then i - 1 else n - 1);
      SameIndex(ring, k, if i + 1 < n then i + 1 else 0);
      SameIndex(ring, k, i);
      if j > 0 {
        SameIndex(r, j, 0);
      }
    }
  }

  lemma DropSet(ring: seq<int>, i: nat)
    requires NoDup(ring) && i < |ring|
    ensures NoDup(Drop(ring, i)) && Set(Drop(ring, i)) == Set(ring) - {ring[i]}
  {
    var r := Drop(ring, i);
    forall j, k | 0 <= j < k < |r|
      ensures r[j] != r[k]
    {
      SameIndex(ring, if j < i then j else j + 1, if k < i then k else k + 1);
    }
    forall a
      ensures a in r <==> a in ring && a != ring[i]
    {
      if a in ring && a != ring[i] {
        var k :| 0 <= k < |ring| && ring[k] == a;
        assert r[if k < i then k else k - 1] == a;
      }
      if a in r {
        var j :| 0 <= j < |r| && r[j] == a;
        SameIndex(ring, if j < i then j else j + 1, i);
      }
    }
  }

  /** The neighbours in the shorter ring. */
  lemma NextAfter(ring: seq<int>, i: nat, j: nat)
    requires i < |ring| && |ring| > 1 && j + 1 < |ring|
    ensures var r, k := Drop(ring, i), if j < i then j else j + 1;
            After(r, j) == (if k == (if i > 0 then i - 1 else |ring| - 1) then After(ring, i) else After(ring, k))
            && Before(r, j) == (if k == (if i + 1 < |ring| then i + 1 else 0) then Before(ring, i) else Before(ring, k))
  {}

  // ---- the least block ----

  function MinSize(t: Tree): int
    requires t.Node?
  {
    if t.left.Nil? then t.size else MinSize(t.left)
  }

  /** The leftmost node has nothing to its left, and all others are larger. */
  lemma {:induction false} MinIs(t: Tree, lo: int, hi: int)
    requires t.Node? && Ordered(t, lo, hi)
    ensures lo < MinSize(t) <= t.size < hi && Sub(t, MinSize(t)).Node? && Sub(t, MinSize(t)).size == MinSize(t)
    ensures Sub(t, MinSize(t)).left.Nil?
    ensures Ordered(Subst(t, MinSize(t), Sub(t, MinSize(t)).right), MinSize(t), hi)
  {
    if t.left.Node? {
      MinIs(t.left, lo, t.size);
    } else {
      assert Sub(t, MinSize(t)) == t;
    }
  }
}
