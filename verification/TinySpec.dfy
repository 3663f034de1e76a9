/**
 What the medium of the append-only file system means, and what mounting it computes.
 A medium is a sequence of blocks; a catalogue gives, for every directory block, the name,
 the pin and the chain of data blocks it heads.
 */
module TinySpec {
  import opened Sequences
  import opened Octets
  import opened TinyFormat

  type Medium = seq<Block>

  datatype Image = Image(name: seq<Byte>, pin: nat, chain: seq<nat>)
  type Catalogue = map<nat, Image>

  function At(m: Medium, b: nat): Cell
    requires b < |m|
  {
    Decode(m[b], |m|)
  }

  ghost predicate IsChain(m: Medium, c: seq<nat>) {
    && c != []
    && (forall k :: 0 <= k < |c| ==> c[k] < |m|)
    && (forall k :: 0 <= k < |c| - 1 ==> LinkAt(m, c, k))
    && At(m, c[|c| - 1]).End?
  }

  ghost predicate LinkAt(m: Medium, c: seq<nat>, k: nat) {
    k < |c| - 1 && c[k] < |m| && At(m, c[k]).Data? && At(m, c[k]).next == c[k + 1]
  }

  lemma TailChain(m: Medium, c: seq<nat>)
    requires IsChain(m, c) && |c| > 1
    ensures IsChain(m, c[1..]) && c[0] < |m| && c[1] < |m| && At(m, c[0]).Data? && At(m, c[0]).next == c[1]
  {
    assert LinkAt(m, c, 0);
    forall k | 0 <= k < |c[1..]| - 1
      ensures LinkAt(m, c[1..], k)
    {
      assert LinkAt(m, c, k + 1);
    }
  }

  /** The bytes stored along a chain. */
  function Text(m: Medium, c: seq<nat>): seq<Byte> {
    if c == [] then [] else (if c[0] < |m| then Bytes(At(m, c[0])) else []) + Text(m, c[1..])
  }

  ghost predicate Apart(c: seq<nat>, d: seq<nat>) {
    forall k :: 0 <= k < |c| ==> c[k] !in d
  }

  /** `cat` is the catalogue of `m`: it lists exactly the directory blocks, every chain is a
      well-formed acyclic chain of data blocks, and no block serves two purposes. */
  ghost predicate Holds(m: Medium, cat: Catalogue) {
    && (forall b :: b in cat ==> b < |m|)
    && (forall b :: 0 <= b < |m| ==> (At(m, b).Dir? <==> b in cat))
    && (forall b :: b in cat ==> ImageAt(m, b, cat[b]))
    && (forall b, d :: b in cat && d in cat && b != d ==> Apart(cat[b].chain, cat[d].chain))
  }

  ghost predicate ImageAt(m: Medium, b: nat, img: Image)
    requires b < |m|
  {
    && IsChain(m, img.chain)
    && NoDup(img.chain)
    && At(m, b) == Dir(img.chain[0], img.pin, img.name)
  }

  /** What files a medium shows: by directory block, the name, pin and bytes. */
  ghost function ShownBy(m: Medium, cat: Catalogue): map<nat, (seq<Byte>, nat, seq<Byte>)>
    requires Holds(m, cat)
  {
    map b | b in cat :: (cat[b].name, cat[b].pin, Text(m, cat[b].chain))
  }

  /** Chains this code writes never end in an empty block, and names fit their field. */
  ghost predicate Tidy(m: Medium, img: Image) {
    && WellNamed(img.name, img.pin)
    && img.chain != []
    && var last := img.chain[|img.chain| - 1];
    last < |m| && At(m, last).End? && At(m, last).len > 0
  }

  /** A name and a pin that a directory block gives back as they were. */
  ghost predicate Storable(name: seq<Byte>, pin: nat) {
    |name| < NLEN && 0 !in name && pin <= 0xffff
  }

  ghost predicate WellNamed(name: seq<Byte>, pin: nat) {
    name != [] && Storable(name, pin)
  }

  ghost predicate AllTidy(m: Medium, cat: Catalogue) {
    forall b :: b in cat ==> Tidy(m, cat[b])
  }

  // ---- chains ----

  lemma {:induction false} TextLength(m: Medium, c: seq<nat>)
    requires IsChain(m, c)
    ensures |Text(m, c)| == DLEN * (|c| - 1) + At(m, c[|c| - 1]).len
  {
    DecodedData(m[c[0]], |m|);
    hide Decode;
    if |c| > 1 {
      TailChain(m, c);
      TextLength(m, c[1..]);
    } else {
      assert Text(m, c[1..]) == [];
    }
  }

  lemma TextEmpty(m: Medium)
    ensures Text(m, []) == []
  {}

  /** Block k of a chain holds the bytes from 44k on. */
  lemma {:induction false} TextAt(m: Medium, c: seq<nat>, k: nat)
    requires IsChain(m, c) && k < |c|
    ensures SliceIs(Text(m, c), DLEN * k, Bytes(At(m, c[k])))
  {
    hide Decode, Bytes, SliceIs;
    if k > 0 {
      TailChain(m, c);
      DecodedData(m[c[0]], |m|);
      TextAt(m, c[1..], k - 1);
      SliceAfter(Bytes(At(m, c[0])), Text(m, c[1..]), DLEN * (k - 1), Bytes(At(m, c[k])));
    } else {
      SliceFirst(Bytes(At(m, c[0])), Text(m, c[1..]));
    }
  }

  ghost predicate SliceIs<T>(s: seq<T>, i: nat, t: seq<T>) {
    i + |t| <= |s| && s[i..i + |t|] == t
  }

  lemma SliceFirst<T>(t: seq<T>, r: seq<T>)
    ensures SliceIs(t + r, 0, t)
  {}

  lemma SliceAfter<T>(t: seq<T>, r: seq<T>, i: nat, b: seq<T>)
    requires SliceIs(r, i, b)
    ensures SliceIs(t + r, |t| + i, b)
  {
    assert (t + r)[|t| + i..|t| + i + |b|] == r[i..i + |b|];
  }

  lemma {:induction false} TextConcat(m: Medium, c: seq<nat>, d: seq<nat>)
    ensures Text(m, c + d) == Text(m, c) + Text(m, d)
  {
    if c == [] {
      assert c + d == d;
    } else {
      assert (c + d)[1..] == c[1..] + d;
      TextConcat(m, c[1..], d);
    }
  }

  /** Text depends only on the blocks of the chain. */
  lemma {:induction false} TextFrame(m: Medium, m': Medium, c: seq<nat>)
    requires |m| == |m'|
    requires forall k :: 0 <= k < |c| ==> c[k] < |m| && m'[c[k]] == m[c[k]]
    ensures Text(m', c) == Text(m, c)
  {
    if c != [] {
      TextFrame(m, m', c[1..]);
    }
  }

  /** A block leads at most one chain. */
  lemma {:induction false} ChainUnique(m: Medium, c: seq<nat>, d: seq<nat>)
    requires IsChain(m, c) && IsChain(m, d) && c[0] == d[0]
    ensures c == d
  {
    hide Decode;
    if |c| > 1 { TailChain(m, c); }
    if |d| > 1 { TailChain(m, d); }
    if |c| > 1 && |d| > 1 {
      ChainUnique(m, c[1..], d[1..]);
      assert c == [c[0]] + c[1..] && d == [d[0]] + d[1..];
    }
  }

  /** A medium has at most one catalogue, so `ShownBy` is a property of the medium alone. */
  lemma CatalogueUnique(m: Medium, cat: Catalogue, cat': Catalogue)
    requires Holds(m, cat) && Holds(m, cat')
    ensures cat == cat'
  {
    forall b | b in cat
      ensures b in cat' && cat[b] == cat'[b]
    {
      assert At(m, b).Dir?;
      ChainUnique(m, cat[b].chain, cat'[b].chain);
    }
    forall b | b in cat'
      ensures b in cat
    {
      assert At(m, b).Dir?;
    }
  }

  // ---- mounting ----

  /** One file of the in-memory table; `name == []` marks a free entry. */
  datatype Tfile = Tfile(name: seq<Byte>, bno: nat, dbno: nat, pin: nat, length: nat)

  const NOFILE := Tfile([], 0, 0, 0, 0)

  /** Following one file: the blocks freshly visited, whether an end block was reached, and
      otherwise the block at which the walk stopped. */
  datatype Walk = Walk(visited: seq<nat>, complete: bool, stop: nat)

  function Unmarked(m: Medium, marked: set<nat>): set<nat> {
    set b | 0 <= b < |m| && b !in marked
  }

  function Follow(m: Medium, marked: set<nat>, bno: nat): (w: Walk)
    requires bno < |m|
    ensures w.complete ==> w.visited != []
    ensures forall k :: 0 <= k < |w.visited| ==> w.visited[k] < |m|
    decreases Unmarked(m, marked)
  {
    if bno in marked then Walk([], false, bno)
    else
      assert bno in Unmarked(m, marked);
      assert bno !in Unmarked(m, marked + {bno});
      match At(m, bno)
      case Data(next, _) =>
        var w := Follow(m, marked + {bno}, next);
        Walk([bno] + w.visited, w.complete, w.stop)
      case End(_, _) => Walk([bno], true, bno)
      case _ => Walk([], false, bno)
  }

  function ToSet(c: seq<nat>): set<nat> {
    set b | b in c
  }

  /** The part of a walk before its first visit of `stop`: what a purge returns to the map. */
  function Before(c: seq<nat>, stop: nat): (p: seq<nat>)
    ensures p <= c && stop !in p
    ensures |p| < |c| ==> c[|p|] == stop
  {
    if c == [] || c[0] == stop then [] else [c[0]] + Before(c[1..], stop)
  }

  /** Directory blocks below k, in order. */
  function Dirs(m: Medium, k: nat): (ds: seq<nat>)
    requires k <= |m|
    ensures forall i :: 0 <= i < |ds| ==> ds[i] < k && At(m, ds[i]).Dir? && At(m, ds[i]).dbno < |m|
    ensures forall b :: 0 <= b < k && At(m, b).Dir? ==> b in ds
    ensures NoDup(ds)
  {
    if k == 0 then [] else Dirs(m, k - 1) + if At(m, k - 1).Dir? then [k - 1] else []
  }

  function Found(m: Medium, k: nat): (fs: seq<Tfile>)
    requires k <= |m|
    ensures |fs| == |Dirs(m, k)|
    ensures forall i :: 0 <= i < |fs| ==> fs[i].bno == Dirs(m, k)[i] && fs[i] == EntryOf(m, Dirs(m, k)[i])
    ensures forall i :: 0 <= i < |fs| ==> fs[i].bno < |m| && fs[i].dbno < |m| && fs[i].length == 0
  {
    if k == 0 then [] else Found(m, k - 1) + if At(m, k - 1).Dir? then [EntryOf(m, k - 1)] else []
  }

  function EntryOf(m: Medium, b: nat): Tfile
    requires b < |m|
  {
    var c := At(m, b);
    if c.Dir? then Tfile(c.name, b, c.dbno, c.pin, 0) else NOFILE
  }

  datatype Mounted = Mounted(m: Medium, files: seq<Tfile>, marked: set<nat>)

  /** What happens to entry i: kept with its length, or purged. */
  function Visit(s: Mounted, i: nat): (s': Mounted)
    requires i < |s.files| && s.files[i].dbno < |s.m| && s.files[i].bno < |s.m|
    ensures |s'.m| == |s.m| && |s'.files| == |s.files|
  {
    var w := Follow(s.m, s.marked, s.files[i].dbno);
    if w.complete then
      Mounted(s.m, s.files[i := s.files[i].(length := |Text(s.m, w.visited)|)], s.marked + ToSet(w.visited))
    else
      Mounted(s.m[s.files[i].bno := Blank()], s.files[i := NOFILE],
              s.marked + ToSet(w.visited) - ToSet(Before(w.visited, w.stop)) - {s.files[i].bno})
  }

  ghost predicate Pending(s: Mounted, i: nat) {
    && i <= |s.files|
    && (forall j :: i <= j < |s.files| ==> s.files[j].dbno < |s.m| && s.files[j].bno < |s.m|)
  }

  function Survey(s: Mounted, i: nat): Mounted
    requires Pending(s, i)
    decreases |s.files| - i
  {
    if i == |s.files| then s else Survey(Visit(s, i), i + 1)
  }

  /** Everything `tfsinit` computes from a medium. */
  function Mount(m: Medium): Mounted
  {
    Survey(Mounted(m, Found(m, |m|), ToSet(Dirs(m, |m|))), 0)
  }

  /** A walk visits fresh, distinct blocks, linked as data blocks. */
  lemma {:induction false} FollowMeaning(m: Medium, marked: set<nat>, bno: nat)
    requires bno < |m|
    ensures var w := Follow(m, marked, bno);
            && NoDup(w.visited)
            && (forall k :: 0 <= k < |w.visited| ==> w.visited[k] < |m| && w.visited[k] !in marked)
            && (forall k :: 0 <= k < |w.visited| - 1 ==> LinkAt(m, w.visited, k))
            && (w.visited != [] ==> w.visited[0] == bno)
            && (w.complete ==> IsChain(m, w.visited))
            && (!w.complete ==>
                  && w.stop < |m|
                  && (w.visited == [] ==> w.stop == bno)
                  && (w.visited != [] ==>
                        At(m, w.visited[|w.visited| - 1]).Data? && At(m, w.visited[|w.visited| - 1]).next == w.stop)
                  && (w.stop in marked || w.stop in w.visited || !(At(m, w.stop).Data? || At(m, w.stop).End?)))
    decreases Unmarked(m, marked)
  {
    hide Decode;
    DecodedData(m[bno], |m|);
    if bno !in marked && At(m, bno).Data? {
      assert bno in Unmarked(m, marked);
      assert bno !in Unmarked(m, marked + {bno});
      FollowMeaning(m, marked + {bno}, At(m, bno).next);
      var w, v := Follow(m, marked, bno).visited, Follow(m, marked + {bno}, At(m, bno).next).visited;
      forall k | 0 <= k < |w| - 1
        ensures LinkAt(m, w, k)
      {
        if k > 0 { assert LinkAt(m, v, k - 1); }
      }
    }
  }

  /** A chain clear of the map is walked to its end. */
  lemma {:induction false} FollowChain(m: Medium, marked: set<nat>, c: seq<nat>)
    requires IsChain(m, c) && NoDup(c) && |c| > 0 && c[0] < |m|
    requires forall k :: 0 <= k < |c| ==> c[k] !in marked
    ensures Follow(m, marked, c[0]) == Walk(c, true, c[|c| - 1])
    decreases |c|
  {
    hide Decode, IsChain;
    if |c| > 1 {
      TailChain(m, c);
      FollowChain(m, marked + {c[0]}, c[1..]);
      assert c == [c[0]] + c[1..];
    } else {
      SingleChain(m, c);
    }
  }

  lemma SingleChain(m: Medium, c: seq<nat>)
    requires IsChain(m, c) && |c| == 1
    ensures c[0] < |m| && At(m, c[0]).End?
  {}
}
