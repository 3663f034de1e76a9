/**
 What mounting achieves: on any medium, even a corrupt one, the surviving files form a
 catalogue of the medium that mounting leaves behind; on a consistent medium nothing is lost.
 */
module TinyMount {
  import opened Sequences
  import opened Octets
  import opened TinyFormat
  import opened TinySpec

  /** A file with data: its directory block heads a chain holding `length` bytes. */
  ghost predicate EntryOk(m: Medium, f: Tfile, c: seq<nat>) {
    && f.bno < |m|
    && IsChain(m, c)
    && NoDup(c)
    && c[0] == f.dbno
    && At(m, f.bno) == Dir(f.dbno, f.pin, f.name)
    && f.length == |Text(m, c)|
  }

  /** A file without data: its directory block exists but reads as no directory. */
  ghost predicate EmptyOk(m: Medium, f: Tfile, c: seq<nat>) {
    f.bno < |m| && At(m, f.bno) == Junk && f.dbno == NOTABNO && f.length == 0 && c == []
  }

  ghost predicate PendingOk(m: Medium, f: Tfile, c: seq<nat>) {
    f.bno < |m| && At(m, f.bno) == Dir(f.dbno, f.pin, f.name) && f.length == 0 && c == []
  }

  ghost predicate SlotOk(m: Medium, f: Tfile, c: seq<nat>, pending: bool) {
    if pending then PendingOk(m, f, c)
    else if f == NOFILE then c == []
    else EntryOk(m, f, c) || EmptyOk(m, f, c)
  }

  /** Which entry a block belongs to.  A block belongs to at most one entry. */
  type Owners = map<nat, nat>

  ghost predicate Owns(own: Owners, c: seq<nat>, j: nat) {
    forall x :: x in c ==> x in own && own[x] == j
  }

  /** Entry j is sound, and its blocks belong to it.  Entries from i on are yet to be followed. */
  ghost predicate SlotAt(m: Medium, files: seq<Tfile>, chains: seq<seq<nat>>, own: Owners, i: nat, j: nat) {
    && j < |files| == |chains|
    && SlotOk(m, files[j], chains[j], j >= i)
    && (j >= i || files[j] != NOFILE ==> files[j].bno in own && own[files[j].bno] == j)
    && Owns(own, chains[j], j)
  }

  /** A directory block belongs to the entry that names it. */
  ghost predicate CoveredAt(m: Medium, files: seq<Tfile>, own: Owners, i: nat, b: nat) {
    b < |m| && At(m, b).Dir? ==>
      b in own && own[b] < |files| && files[own[b]].bno == b && (own[b] >= i || files[own[b]] != NOFILE)
  }

  /** The table after the first i entries were followed; `chains` are the files' chains. */
  ghost predicate Table(m: Medium, files: seq<Tfile>, chains: seq<seq<nat>>, own: Owners, marked: set<nat>, i: nat) {
    && i <= |files| == |chains|
    && (forall j {:trigger SlotAt(m, files, chains, own, i, j)} :: 0 <= j < |files| ==>
          SlotAt(m, files, chains, own, i, j))
    && (forall b {:trigger CoveredAt(m, files, own, i, b)} :: 0 <= b ==> CoveredAt(m, files, own, i, b))
    && own.Keys <= marked
  }

  ghost function Claim(own: Owners, c: seq<nat>, i: nat): Owners {
    own + map x | x in c :: i
  }

  /** The chain that following entry i adds. */
  function VisitChain(s: Mounted, i: nat): seq<nat>
    requires i < |s.files| && s.files[i].dbno < |s.m|
  {
    var w := Follow(s.m, s.marked, s.files[i].dbno);
    if w.complete then w.visited else []
  }

  ghost function VisitOwners(s: Mounted, own: Owners, i: nat): Owners
    requires i < |s.files| && s.files[i].dbno < |s.m|
  {
    if Follow(s.m, s.marked, s.files[i].dbno).complete then Claim(own, VisitChain(s, i), i) else own - {s.files[i].bno}
  }

  ghost predicate Agree(m: Medium, m': Medium, b: nat) {
    b < |m| == |m'| && m'[b] == m[b]
  }

  /** A chain's links, end and text depend on its own blocks only. */
  lemma ChainFrame(m: Medium, m': Medium, c: seq<nat>)
    requires IsChain(m, c) && forall x :: x in c ==> Agree(m, m', x)
    ensures IsChain(m', c) && Text(m', c) == Text(m, c) && At(m', c[|c| - 1]) == At(m, c[|c| - 1])
  {
    hide Decode;
    forall k | 0 <= k < |c| - 1
      ensures LinkAt(m', c, k)
    {
      assert LinkAt(m, c, k) && c[k] in c && c[k + 1] in c;
    }
    assert forall k :: 0 <= k < |c| ==> c[k] in c;
    TextFrame(m, m', c);
  }

  lemma SlotFrame(m: Medium, m': Medium, f: Tfile, c: seq<nat>, pending: bool)
    requires |m| == |m'| && SlotOk(m, f, c, pending)
    requires pending || f != NOFILE ==> Agree(m, m', f.bno)
    requires forall x :: x in c ==> Agree(m, m', x)
    ensures SlotOk(m', f, c, pending)
  {
    hide Decode, Text;
    if !pending && f != NOFILE && EntryOk(m, f, c) {
      ChainFrame(m, m', c);
    }
  }

  lemma CellKinds(m: Medium, c: seq<nat>, x: nat)
    requires IsChain(m, c) && x in c
    ensures x < |m| && (At(m, x).Data? || At(m, x).End?)
  {
    var k :| 0 <= k < |c| && c[k] == x;
    assert k < |c| - 1 ==> LinkAt(m, c, k);
  }

  /** Blocks outside the map have no owner yet: claiming them disturbs no one. */
  lemma ClaimFresh(own: Owners, c: seq<nat>, i: nat)
    requires forall x :: x in c ==> x !in own
    ensures Owns(Claim(own, c, i), c, i)
    ensures Claim(own, c, i).Keys == own.Keys + ToSet(c)
    ensures forall x :: x in own ==> Claim(own, c, i)[x] == own[x]
  {}

  lemma KeepOther(m: Medium, files: seq<Tfile>, chains: seq<seq<nat>>, own: Owners, i: nat, f: Tfile, c: seq<nat>,
                  own': Owners, j: nat)
    requires i < |files| && j != i && SlotAt(m, files, chains, own, i, j)
    requires forall x :: x in own ==> x in own' && own'[x] == own[x]
    ensures SlotAt(m, files[i := f], chains[i := c], own', i + 1, j)
  {
    hide SlotOk;
  }

  /** A completed walk becomes the entry's chain. */
  lemma KeepStep(s: Mounted, chains: seq<seq<nat>>, own: Owners, i: nat)
    requires Table(s.m, s.files, chains, own, s.marked, i) && Pending(s, i) && i < |s.files|
    requires Follow(s.m, s.marked, s.files[i].dbno).complete
    ensures var s' := Visit(s, i);
            Table(s'.m, s'.files, chains[i := VisitChain(s, i)], VisitOwners(s, own, i), s'.marked, i + 1)
  {
    FollowMeaning(s.m, s.marked, s.files[i].dbno);
    var c, s', n := VisitChain(s, i), Visit(s, i), i + 1;
    ClaimFresh(own, c, i);
    hide Decode, Follow, Text, Claim, NoDup, IsChain;
    var chains', own' := chains[i := c], VisitOwners(s, own, i);
    assert SlotAt(s.m, s.files, chains, own, i, i);
    assert c[0] in c && c[0] !in s.marked;
    forall j | 0 <= j < |s'.files|
      ensures SlotAt(s'.m, s'.files, chains', own', n, j)
    {
      assert SlotAt(s.m, s.files, chains, own, i, j);
      if j != i { KeepOther(s.m, s.files, chains, own, i, s'.files[i], c, own', j); }
    }
    hide SlotAt;
    forall b | 0 <= b
      ensures CoveredAt(s'.m, s'.files, own', n, b)
    {
      assert CoveredAt(s.m, s.files, own, i, b);
    }
  }

  /** An incomplete walk removes the entry and hurts no other file. */
  lemma PurgeStep(s: Mounted, chains: seq<seq<nat>>, own: Owners, i: nat)
    requires Table(s.m, s.files, chains, own, s.marked, i) && Pending(s, i) && i < |s.files|
    requires !Follow(s.m, s.marked, s.files[i].dbno).complete
    ensures var s' := Visit(s, i);
            Table(s'.m, s'.files, chains[i := VisitChain(s, i)], VisitOwners(s, own, i), s'.marked, i + 1)
  {
    FollowMeaning(s.m, s.marked, s.files[i].dbno);
    BlankIsJunk(|s.m|);
    hide Decode, Follow, Text;
    var s', own', n := Visit(s, i), VisitOwners(s, own, i), i + 1;
    assert SlotAt(s.m, s.files, chains, own, i, i);
    assert chains[i := []] == chains;
    forall j | 0 <= j < |s'.files|
      ensures SlotAt(s'.m, s'.files, chains, own', n, j)
    {
      PurgeOther(s, chains, own, i, j);
    }
    forall b | 0 <= b
      ensures CoveredAt(s'.m, s'.files, own', n, b)
    {
      assert CoveredAt(s.m, s.files, own, i, b);
    }
    forall x | x in own'
      ensures x in s'.marked
    {
      assert x in s.marked;
    }
  }

  lemma PurgeOther(s: Mounted, chains: seq<seq<nat>>, own: Owners, i: nat, j: nat)
    requires i < |s.files| && j < |s.files| && s.files[i].bno < |s.m| && At(s.m, s.files[i].bno).Dir?
    requires SlotAt(s.m, s.files, chains, own, i, i) && SlotAt(s.m, s.files, chains, own, i, j)
    ensures SlotAt(s.m[s.files[i].bno := Blank()], s.files[i := NOFILE], chains, own - {s.files[i].bno}, i + 1, j)
  {
    hide Decode, Text;
    var b := s.files[i].bno;
    var m' := s.m[b := Blank()];
    if j != i {
      forall x | x in chains[j]
        ensures Agree(s.m, m', x) && x != b
      {
        CellKinds(s.m, chains[j], x);
      }
      SlotFrame(s.m, m', s.files[j], chains[j], j >= i);
    }
  }

  lemma TablePending(s: Mounted, chains: seq<seq<nat>>, own: Owners, i: nat)
    requires Table(s.m, s.files, chains, own, s.marked, i)
    ensures Pending(s, i)
  {
    forall j | i <= j < |s.files|
      ensures s.files[j].dbno < |s.m| && s.files[j].bno < |s.m|
    {
      assert SlotAt(s.m, s.files, chains, own, i, j);
      DecodedData(s.m[s.files[j].bno], |s.m|);
    }
  }

  /** Following all files turns the pending table into a settled one. */
  lemma {:induction false} SurveyTable(s: Mounted, chains: seq<seq<nat>>, own: Owners, i: nat)
    returns (chains': seq<seq<nat>>, own': Owners)
    requires Table(s.m, s.files, chains, own, s.marked, i) && Pending(s, i) && |chains| == |s.files|
    ensures var s' := Survey(s, i);
            && |s'.m| == |s.m| && |s'.files| == |s.files| == |chains'|
            && Table(s'.m, s'.files, chains', own', s'.marked, |s'.files|)
    decreases |s.files| - i
  {
    hide Table, Visit, Follow, VisitChain, VisitOwners;
    if i == |s.files| {
      chains', own' := chains, own;
    } else {
      if Follow(s.m, s.marked, s.files[i].dbno).complete {
        KeepStep(s, chains, own, i);
      } else {
        PurgeStep(s, chains, own, i);
      }
      TablePending(Visit(s, i), chains[i := VisitChain(s, i)], VisitOwners(s, own, i), i + 1);
      chains', own' := SurveyTable(Visit(s, i), chains[i := VisitChain(s, i)], VisitOwners(s, own, i), i + 1);
    }
  }

  lemma FoundTable(m: Medium) returns (chains: seq<seq<nat>>, own: Owners)
    ensures Table(m, Found(m, |m|), chains, own, ToSet(Dirs(m, |m|)), 0)
    ensures Pending(Mounted(m, Found(m, |m|), ToSet(Dirs(m, |m|))), 0)
    ensures own.Keys == ToSet(Dirs(m, |m|)) && |chains| == |Found(m, |m|)|
  {
    hide Decode, Found, Dirs, SlotOk, IndexOf, NoDup;
    var files, ds := Found(m, |m|), Dirs(m, |m|);
    chains := seq(|files|, _ => []);
    own := map b | b in ds :: IndexOf(ds, b);
    forall j | 0 <= j < |files|
      ensures SlotAt(m, files, chains, own, 0, j)
    {
      FoundSlot(m, j);
    }
    forall b | 0 <= b
      ensures CoveredAt(m, files, own, 0, b)
    {}
  }

  lemma FoundSlot(m: Medium, j: nat)
    requires j < |Found(m, |m|)|
    ensures var f, ds := Found(m, |m|)[j], Dirs(m, |m|);
            SlotOk(m, f, [], true) && f.bno in ds && IndexOf(ds, f.bno) == j
  {
    hide Decode, Found, Dirs;
    var ds := Dirs(m, |m|);
    assert ds[j] in ds;
  }

  function IndexOf(s: seq<nat>, x: nat): (k: nat)
    requires x in s
    ensures k < |s| && s[k] == x
  {
    if s[0] == x then 0 else 1 + IndexOf(s[1..], x)
  }

  // ---- the catalogue of a table ----

  ghost predicate Shows(files: seq<Tfile>, chains: seq<seq<nat>>, own: Owners, b: nat) {
    && b in own && own[b] < |files| && own[b] < |chains|
    && files[own[b]].bno == b && chains[own[b]] != []
  }

  /** The catalogue a settled table stands for: its non-empty files by directory block. */
  ghost function CatOf(files: seq<Tfile>, chains: seq<seq<nat>>, own: Owners): Catalogue {
    map b | b in own && Shows(files, chains, own, b) :: Image(files[own[b]].name, files[own[b]].pin, chains[own[b]])
  }

  /** A settled table describes its medium: no block serves two files. */
  lemma TableHolds(m: Medium, files: seq<Tfile>, chains: seq<seq<nat>>, own: Owners, marked: set<nat>)
    requires Table(m, files, chains, own, marked, |files|)
    ensures Holds(m, CatOf(files, chains, own))
  {
    hide Decode, Text;
    var cat := CatOf(files, chains, own);
    forall b | b in cat
      ensures b < |m| && ImageAt(m, b, cat[b])
    {
      assert SlotAt(m, files, chains, own, |files|, own[b]);
    }
    forall b | 0 <= b < |m|
      ensures At(m, b).Dir? <==> b in cat
    {
      assert CoveredAt(m, files, own, |files|, b);
      if b in own && own[b] < |files| { assert SlotAt(m, files, chains, own, |files|, own[b]); }
    }
    forall b, d | b in cat && d in cat && b != d
      ensures Apart(cat[b].chain, cat[d].chain)
    {
      assert SlotAt(m, files, chains, own, |files|, own[b]) && SlotAt(m, files, chains, own, |files|, own[d]);
    }
  }

  /** Mounting any medium whatever leaves a consistent one: the surviving files have valid,
      acyclic, pairwise disjoint chains, all marked in the map, and `length` bytes each. */
  lemma MountSound(m: Medium) returns (chains: seq<seq<nat>>, own: Owners)
    ensures var s := Mount(m);
            && |s.m| == |m| && |chains| == |s.files|
            && Table(s.m, s.files, chains, own, s.marked, |s.files|)
            && Holds(s.m, CatOf(s.files, chains, own))
  {
    var chains0, own0 := FoundTable(m);
    hide Table;
    chains, own := SurveyTable(Mounted(m, Found(m, |m|), ToSet(Dirs(m, |m|))), chains0, own0, 0);
    TableHolds(Mount(m).m, Mount(m).files, chains, own, Mount(m).marked);
  }

  // ---- consistent media ----

  /** The first i entries are kept with the chains `cat` gives, and only owned blocks are marked. */
  ghost predicate Kept(s: Mounted, chains: seq<seq<nat>>, own: Owners, i: nat, cat: Catalogue) {
    && i <= |s.files| == |chains|
    && s.marked == own.Keys
    && (forall j {:trigger KeptAt(s, chains, i, cat, j)} :: 0 <= j < |s.files| ==> KeptAt(s, chains, i, cat, j))
    && (forall x {:trigger OwnedAt(s, chains, own, i, x)} :: 0 <= x ==> OwnedAt(s, chains, own, i, x))
  }

  ghost predicate KeptAt(s: Mounted, chains: seq<seq<nat>>, i: nat, cat: Catalogue, j: nat) {
    && j < |s.files| == |chains|
    && s.files[j].bno in cat
    && (j < i ==> s.files[j] != NOFILE && chains[j] == cat[s.files[j].bno].chain)
  }

  /** An owned block is its owner's directory block or on its owner's chain. */
  ghost predicate OwnedAt(s: Mounted, chains: seq<seq<nat>>, own: Owners, i: nat, x: nat) {
    x in own ==>
      && own[x] < |s.files| == |chains|
      && (x == s.files[own[x]].bno || (own[x] < i && x in chains[own[x]]))
  }

  /** The walk over the next file completes with the chain the catalogue gives. */
  lemma KeepsNext(s: Mounted, chains: seq<seq<nat>>, own: Owners, i: nat, cat: Catalogue)
    requires Table(s.m, s.files, chains, own, s.marked, i) && Pending(s, i) && i < |s.files|
    requires Holds(s.m, cat) && Kept(s, chains, own, i, cat)
    ensures s.files[i].bno in cat && s.files[i].bno != s.files[i].dbno
    ensures VisitChain(s, i) == cat[s.files[i].bno].chain != []
    ensures Follow(s.m, s.marked, s.files[i].dbno).complete
  {
    hide Decode, Text;
    var b := s.files[i].bno;
    assert SlotAt(s.m, s.files, chains, own, i, i) && KeptAt(s, chains, i, cat, i);
    var c := cat[b].chain;
    assert ImageAt(s.m, b, cat[b]);
    forall k | 0 <= k < |c|
      ensures c[k] !in s.marked
    {
      assert c[k] in c;
      CellKinds(s.m, c, c[k]);
      forall j | 0 <= j < |s.files|
        ensures c[k] != s.files[j].bno && !(j < i && c[k] in chains[j])
      {
        assert SlotAt(s.m, s.files, chains, own, i, j) && KeptAt(s, chains, i, cat, j);
      }
      assert OwnedAt(s, chains, own, i, c[k]);
    }
    FollowChain(s.m, s.marked, c);
  }

  lemma KeptStep(s: Mounted, chains: seq<seq<nat>>, own: Owners, i: nat, cat: Catalogue)
    requires Table(s.m, s.files, chains, own, s.marked, i) && Pending(s, i) && i < |s.files| == |chains|
    requires Holds(s.m, cat) && Kept(s, chains, own, i, cat)
    ensures Visit(s, i).m == s.m
    ensures Kept(Visit(s, i), chains[i := VisitChain(s, i)], VisitOwners(s, own, i), i + 1, cat)
  {
    hide Decode, Text, Follow, Holds, Table, Claim, IsChain, NoDup;
    KeepsNext(s, chains, own, i, cat);
    FollowMeaning(s.m, s.marked, s.files[i].dbno);
    var s', c, own', n := Visit(s, i), VisitChain(s, i), VisitOwners(s, own, i), i + 1;
    var chains' := chains[i := c];
    ClaimFresh(own, c, i);
    forall j | 0 <= j < |s'.files|
      ensures KeptAt(s', chains', n, cat, j)
    {
      assert KeptAt(s, chains, i, cat, j);
    }
    forall x | 0 <= x
      ensures OwnedAt(s', chains', own', n, x)
    {
      assert OwnedAt(s, chains, own, i, x);
      assert x in c ==> own'[x] == i;
    }
  }

  lemma {:induction false} SurveyKeeps(s: Mounted, chains: seq<seq<nat>>, own: Owners, i: nat, cat: Catalogue)
    returns (chains': seq<seq<nat>>, own': Owners)
    requires Table(s.m, s.files, chains, own, s.marked, i) && Pending(s, i) && |chains| == |s.files|
    requires Holds(s.m, cat) && Kept(s, chains, own, i, cat)
    ensures var s' := Survey(s, i);
            && s'.m == s.m && |s'.files| == |s.files|
            && Table(s'.m, s'.files, chains', own', s'.marked, |s'.files|)
            && Kept(s', chains', own', |s'.files|, cat)
    decreases |s.files| - i
  {
    hide Table, Visit, Kept, Holds, Follow, VisitChain, VisitOwners;
    if i == |s.files| {
      chains', own' := chains, own;
    } else {
      KeepsNext(s, chains, own, i, cat);
      KeptStep(s, chains, own, i, cat);
      KeepStep(s, chains, own, i);
      TablePending(Visit(s, i), chains[i := VisitChain(s, i)], VisitOwners(s, own, i), i + 1);
      chains', own' := SurveyKeeps(Visit(s, i), chains[i := VisitChain(s, i)], VisitOwners(s, own, i), i + 1, cat);
    }
  }

  ghost predicate InUse(cat: Catalogue, x: nat) {
    x in cat || exists b :: b in cat && x in cat[b].chain
  }

  /** On a consistent medium mounting changes nothing, keeps every file with its chain, and
      marks exactly the blocks in use. */
  lemma MountComplete(m: Medium, cat: Catalogue) returns (chains: seq<seq<nat>>, own: Owners)
    requires Holds(m, cat)
    ensures var s := Mount(m);
            && s.m == m
            && Table(m, s.files, chains, own, s.marked, |s.files|)
            && |chains| == |s.files| && CatOf(s.files, chains, own) == cat
            && (forall j :: 0 <= j < |s.files| ==> s.files[j] != NOFILE && chains[j] != [])
            && (forall x :: x in s.marked <==> InUse(cat, x))
  {
    hide Table, Kept, Holds, CatOf, InUse;
    var chains0, own0 := FoundTable(m);
    var s := Mounted(m, Found(m, |m|), ToSet(Dirs(m, |m|)));
    FoundKept(m, cat, chains0, own0);
    chains, own := SurveyKeeps(s, chains0, own0, 0, cat);
    TableHolds(m, Mount(m).files, chains, own, Mount(m).marked);
    CatalogueUnique(m, cat, CatOf(Mount(m).files, chains, own));
    KeptMeans(Mount(m), chains, own, cat);
  }

  lemma FoundKept(m: Medium, cat: Catalogue, chains: seq<seq<nat>>, own: Owners)
    requires Holds(m, cat) && Table(m, Found(m, |m|), chains, own, ToSet(Dirs(m, |m|)), 0)
    requires own.Keys == ToSet(Dirs(m, |m|))
    ensures Kept(Mounted(m, Found(m, |m|), ToSet(Dirs(m, |m|))), chains, own, 0, cat)
  {
    hide Decode, Found, Dirs, Text, IsChain, NoDup, Apart;
    var s := Mounted(m, Found(m, |m|), ToSet(Dirs(m, |m|)));
    forall j | 0 <= j < |s.files|
      ensures KeptAt(s, chains, 0, cat, j)
    {
      assert SlotAt(m, s.files, chains, own, 0, j);
    }
    forall x | 0 <= x
      ensures OwnedAt(s, chains, own, 0, x)
    {
      assert CoveredAt(m, s.files, own, 0, x);
    }
  }

  lemma KeptMeans(s: Mounted, chains: seq<seq<nat>>, own: Owners, cat: Catalogue)
    requires Table(s.m, s.files, chains, own, s.marked, |s.files|)
    requires Kept(s, chains, own, |s.files|, cat) && cat == CatOf(s.files, chains, own) && Holds(s.m, cat)
    ensures |chains| == |s.files|
    ensures forall j :: 0 <= j < |s.files| ==> s.files[j] != NOFILE && chains[j] != []
    ensures forall x :: x in s.marked <==> InUse(cat, x)
  {
    hide Decode, Text;
    forall j | 0 <= j < |s.files|
      ensures s.files[j] != NOFILE && chains[j] != []
    {
      assert KeptAt(s, chains, |s.files|, cat, j);
      assert ImageAt(s.m, s.files[j].bno, cat[s.files[j].bno]);
    }
    forall x
      ensures x in s.marked <==> InUse(cat, x)
    {
      assert OwnedAt(s, chains, own, |s.files|, x);
      if x in own {
        assert KeptAt(s, chains, |s.files|, cat, own[x]);
      }
      if InUse(cat, x) && x !in cat {
        var b :| b in cat && x in cat[b].chain;
        assert SlotAt(s.m, s.files, chains, own, |s.files|, own[b]);
      }
    }
  }

  /** Mounting twice finds what mounting once found. */
  lemma MountStable(m: Medium)
    ensures Mount(Mount(m).m).m == Mount(m).m
    ensures exists cat :: Holds(Mount(m).m, cat)
  {
    var chains, own := MountSound(m);
    hide Table, Mount, Holds, CatOf;
    var again, own' := MountComplete(Mount(m).m, CatOf(Mount(m).files, chains, own));
  }
}