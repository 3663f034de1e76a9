/**
 How single changes of the medium and of the file table keep the table describing the medium,
 and what a crash then recovers.
 */
module TinyUpdate {
  import opened Sequences
  import opened Octets
  import opened TinyFormat
  import opened TinySpec
  import opened TinyMount

  type Shown = map<nat, (seq<Byte>, nat, seq<Byte>)>

  /** Mounting `m` recovers exactly the files `shown`; if `tidy`, with well-formed names and no
      chain that ends in an empty block. */
  ghost predicate Recovers(m: Medium, shown: Shown, tidy: bool) {
    exists cat :: Holds(m, cat) && (tidy ==> AllTidy(m, cat)) && ShownBy(m, cat) == shown
  }

  /** The meaning of `Recovers`: the mounted table, on the unchanged medium, shows those files. */
  lemma RecoveryIsMounting(m: Medium, shown: Shown, tidy: bool) returns (chains: seq<seq<nat>>, own: Owners)
    requires Recovers(m, shown, tidy)
    ensures var s := Mount(m);
            && s.m == m && |chains| == |s.files|
            && Table(m, s.files, chains, own, s.marked, |s.files|)
            && Holds(m, CatOf(s.files, chains, own))
            && OnMedium(m, s.files, chains, own) == shown
            && (tidy ==> TidyTable(m, s.files, chains) && AllNamed(s.files))
  {
    hide Table, Holds, AllTidy, ShownBy, CatOf, TidyTable, OnMedium, Mount;
    var cat :| Holds(m, cat) && (tidy ==> AllTidy(m, cat)) && ShownBy(m, cat) == shown;
    chains, own := MountComplete(m, cat);
    ShownByTable(m, Mount(m).files, chains, own);
    if tidy {
      MountedTidy(m, Mount(m).files, chains, own, Mount(m).marked);
    }
  }

  lemma MountedTidy(m: Medium, files: seq<Tfile>, chains: seq<seq<nat>>, own: Owners, marked: set<nat>)
    requires Table(m, files, chains, own, marked, |files|) && |files| == |chains|
    requires Holds(m, CatOf(files, chains, own)) && AllTidy(m, CatOf(files, chains, own))
    requires forall j :: 0 <= j < |files| ==> chains[j] != []
    ensures TidyTable(m, files, chains) && AllNamed(files)
  {
    hide Decode, Text, IsChain, Holds, WellNamed;
    forall j | 0 <= j < |files|
      ensures TidySlot(m, files[j], chains[j]) && WellNamed(files[j].name, files[j].pin)
    {
      assert SlotAt(m, files, chains, own, |files|, j);
      assert files[j].bno in CatOf(files, chains, own);
    }
  }

  // ---- what the table shows ----

  datatype File = File(name: seq<Byte>, pin: nat, bytes: seq<Byte>)

  /** The table as its clients see it: the live entries with their bytes. */
  ghost function Files(m: Medium, files: seq<Tfile>, chains: seq<seq<nat>>): map<nat, File>
    requires |files| == |chains|
  {
    map j | 0 <= j < |files| && files[j] != NOFILE :: File(files[j].name, files[j].pin, Text(m, chains[j]))
  }

  /** What a crash at this moment would recover, by directory block. */
  ghost function OnMedium(m: Medium, files: seq<Tfile>, chains: seq<seq<nat>>, own: Owners): Shown {
    map b | b in own && Shows(files, chains, own, b) ::
      (files[own[b]].name, files[own[b]].pin, Text(m, chains[own[b]]))
  }

  /** The last block of a chain holds bytes. */
  ghost predicate EndsFull(m: Medium, c: seq<nat>) {
    && c != []
    && var last := c[|c| - 1];
    last < |m| && At(m, last).End? && At(m, last).len > 0
  }

  ghost predicate TidySlot(m: Medium, f: Tfile, c: seq<nat>) {
    IsChain(m, c) && Tidy(m, Image(f.name, f.pin, c))
  }

  /** Every live entry has a name and a pin that a directory block holds. */
  ghost predicate AllNamed(files: seq<Tfile>) {
    forall j :: 0 <= j < |files| ==> files[j] == NOFILE || WellNamed(files[j].name, files[j].pin)
  }

  ghost predicate TidyTable(m: Medium, files: seq<Tfile>, chains: seq<seq<nat>>)
    requires |files| == |chains|
  {
    forall j {:trigger TidySlot(m, files[j], chains[j])} :: 0 <= j < |files| && chains[j] != [] ==>
          TidySlot(m, files[j], chains[j])
  }

  /** A table's medium recovers to just its files with data. */
  lemma TableRecovers(m: Medium, files: seq<Tfile>, chains: seq<seq<nat>>, own: Owners, marked: set<nat>, tidy: bool)
    requires Table(m, files, chains, own, marked, |files|) && |files| == |chains|
    requires tidy ==> TidyTable(m, files, chains)
    ensures Recovers(m, OnMedium(m, files, chains, own), tidy)
  {
    hide Table, Decode, Text, IsChain, Holds;
    TableHolds(m, files, chains, own, marked);
    var cat := CatOf(files, chains, own);
    forall b | b in cat && tidy
      ensures Tidy(m, cat[b])
    {
      assert TidySlot(m, files[own[b]], chains[own[b]]);
    }
    ShownByTable(m, files, chains, own);
  }

  lemma ShownByTable(m: Medium, files: seq<Tfile>, chains: seq<seq<nat>>, own: Owners)
    requires Holds(m, CatOf(files, chains, own))
    ensures ShownBy(m, CatOf(files, chains, own)) == OnMedium(m, files, chains, own)
  {
    hide Holds, Text;
  }

  /** Two media store the same bytes along a chain, with the same end. */
  ghost predicate SameText(m: Medium, m': Medium, f: Tfile, c: seq<nat>) {
    && Text(m', c) == Text(m, c)
    && (TidySlot(m, f, c) ==> TidySlot(m', f, c))
  }

  // ---- changes around one entry ----

  /** The medium changed only on blocks of entry i and on blocks that had no owner, and gained no
      directory except possibly at the entry's own directory block. */
  ghost predicate ChangesAround(m: Medium, m': Medium, own: Owners, i: nat, bno: nat) {
    && |m| == |m'|
    && (forall b :: 0 <= b < |m| && m'[b] != m[b] ==> (b in own ==> own[b] == i))
    && (forall b :: 0 <= b < |m| && m'[b] != m[b] && b != bno ==> !At(m', b).Dir?)
  }

  lemma OtherSlot(m: Medium, m': Medium, files: seq<Tfile>, chains: seq<seq<nat>>, own: Owners, marked: set<nat>,
                  i: nat, bno: nat, j: nat)
    requires Table(m, files, chains, own, marked, |files|) && j < |files| && i != j
    requires ChangesAround(m, m', own, i, bno)
    ensures SlotOk(m', files[j], chains[j], false) && SameText(m, m', files[j], chains[j])
  {
    assert SlotAt(m, files, chains, own, |files|, j);
    hide Table, Decode, Text;
    if chains[j] != [] {
      forall x | x in chains[j]
        ensures Agree(m, m', x)
      {
        CellKinds(m, chains[j], x);
      }
      ChainFrame(m, m', chains[j]);
    }
    SlotFrame(m, m', files[j], chains[j], false);
  }

  /** The owners after entry i's blocks change to its directory block and the chain c. */
  ghost function Reown(own: Owners, i: nat, f: Tfile, c: seq<nat>): Owners {
    var rest := map x | x in own && own[x] != i :: own[x];
    if f == NOFILE then rest else Claim(rest, [f.bno] + c, i)
  }

  lemma ReownRest(own: Owners, i: nat, f: Tfile, c: seq<nat>)
    requires f != NOFILE ==> forall x :: x in [f.bno] + c && x in own ==> own[x] == i
    ensures var own' := Reown(own, i, f, c);
            && (forall x :: x in own && own[x] != i ==> x in own' && own'[x] == own[x])
            && (forall x :: x in own' ==>
                  (x in own && own'[x] == own[x]) || (f != NOFILE && x in [f.bno] + c && own'[x] == i))
            && (f != NOFILE ==> f.bno in own' && own'[f.bno] == i && Owns(own', c, i))
            && (f == NOFILE ==> forall x :: x in own' ==> own'[x] != i)
  {}

  /** Entry i may be replaced, its chain reusing its own blocks and fresh ones; or removed; or,
      if it was free, filled.  Every other file keeps its place and its bytes. */
  lemma ReplaceEntry(m: Medium, m': Medium, files: seq<Tfile>, chains: seq<seq<nat>>, own: Owners,
                     marked: set<nat>, marked': set<nat>, i: nat, bno: nat, f: Tfile, c: seq<nat>)
    requires Table(m, files, chains, own, marked, |files|) && i < |files|
    requires ChangesAround(m, m', own, i, bno)
    requires SlotOk(m', f, c, false)
    requires f != NOFILE ==> f.bno == bno && forall x :: x in [bno] + c && x in own ==> own[x] == i
    requires f == NOFILE ==> bno < |m| && !At(m', bno).Dir? && files[i] != NOFILE
    requires files[i] != NOFILE ==> files[i].bno == bno
    requires Reown(own, i, f, c).Keys <= marked'
    ensures Table(m', files[i := f], chains[i := c], Reown(own, i, f, c), marked', |files|)
  {
    ReownRest(own, i, f, c);
    hide Decode, Text, Reown, IsChain, NoDup;
    var files', chains', own', n := files[i := f], chains[i := c], Reown(own, i, f, c), |files|;
    forall j | 0 <= j < |files'|
      ensures SlotAt(m', files', chains', own', n, j)
    {
      if j != i {
        assert SlotAt(m, files, chains, own, n, j);
        OtherSlot(m, m', files, chains, own, marked, i, bno, j);
      }
    }
    hide SlotOk;
    forall b | 0 <= b
      ensures CoveredAt(m', files', own', n, b)
    {
      assert CoveredAt(m, files, own, n, b);
      if b in own && own[b] == i && b != bno {
        assert SlotAt(m, files, chains, own, n, i);
      }
    }
  }

  lemma TidyKept(m: Medium, m': Medium, files: seq<Tfile>, chains: seq<seq<nat>>, i: nat, f: Tfile, c: seq<nat>)
    requires i < |files| == |chains|
    requires TidyTable(m, files, chains) && (c != [] ==> TidySlot(m', f, c))
    requires forall j :: 0 <= j < |files| && j != i ==> SameText(m, m', files[j], chains[j])
    ensures TidyTable(m', files[i := f], chains[i := c])
  {
    hide TidySlot, Text;
    var files', chains' := files[i := f], chains[i := c];
    forall j | 0 <= j < |files'| && chains'[j] != []
      ensures TidySlot(m', files'[j], chains'[j])
    {
      if j != i { assert TidySlot(m, files[j], chains[j]) && SameText(m, m', files[j], chains[j]); }
    }
  }

  lemma ReplaceShows(m: Medium, m': Medium, files: seq<Tfile>, chains: seq<seq<nat>>, own: Owners,
                     marked: set<nat>, i: nat, bno: nat, f: Tfile, c: seq<nat>)
    requires Table(m, files, chains, own, marked, |files|) && i < |files| == |chains|
    requires ChangesAround(m, m', own, i, bno)
    requires f != NOFILE ==> f.bno == bno && forall x :: x in [bno] + c && x in own ==> own[x] == i
    requires f == NOFILE ==> c == [] && files[i] != NOFILE
    requires files[i] != NOFILE ==> files[i].bno == bno
    ensures Files(m', files[i := f], chains[i := c]) ==
            if f == NOFILE then Files(m, files, chains) - {i}
              else Files(m, files, chains)[i := File(f.name, f.pin, Text(m', c))]
    ensures OnMedium(m', files[i := f], chains[i := c], Reown(own, i, f, c)) ==
            if c == [] then OnMedium(m, files, chains, own) - {bno}
            else OnMedium(m, files, chains, own)[bno := (f.name, f.pin, Text(m', c))]
    ensures TidyTable(m, files, chains) && (c != [] ==> TidySlot(m', f, c)) ==>
              TidyTable(m', files[i := f], chains[i := c])
  {
    hide Table, ChangesAround, Decode, Text, Reown, TidySlot, SlotOk, OnMedium, TidyTable, Files, SameText;
    SlotEmpty(m, files, chains, own, marked, i);
    OthersSame(m, m', files, chains, own, marked, i, bno);
    ReownRest(own, i, f, c);
    ReplaceOnMedium(m, m', files, chains, own, Reown(own, i, f, c), i, bno, f, c);
    ReplaceFiles(m, m', files, chains, i, f, c);
    if TidyTable(m, files, chains) && (c != [] ==> TidySlot(m', f, c)) {
      TidyKept(m, m', files, chains, i, f, c);
    }
  }

  lemma SlotEmpty(m: Medium, files: seq<Tfile>, chains: seq<seq<nat>>, own: Owners, marked: set<nat>, i: nat)
    requires Table(m, files, chains, own, marked, |files|) && i < |files|
    ensures |files| == |chains| && (files[i] == NOFILE ==> chains[i] == [])
    ensures files[i] != NOFILE ==> files[i].bno < |m| && files[i].bno in own && own[files[i].bno] == i
    ensures forall x :: x in chains[i] ==> x < |m| && x in own && own[x] == i
  {
    hide Decode, Text;
    assert SlotAt(m, files, chains, own, |files|, i);
    forall x | x in chains[i]
      ensures x < |m|
    {
      CellKinds(m, chains[i], x);
    }
  }

  lemma OthersSame(m: Medium, m': Medium, files: seq<Tfile>, chains: seq<seq<nat>>, own: Owners, marked: set<nat>,
                   i: nat, bno: nat)
    requires Table(m, files, chains, own, marked, |files|)
    requires ChangesAround(m, m', own, i, bno) && |files| == |chains|
    ensures forall j :: 0 <= j < |files| && j != i ==> SameText(m, m', files[j], chains[j])
  {
    hide Table, ChangesAround, SameText, SlotOk;
    forall j | 0 <= j < |files| && j != i
      ensures SameText(m, m', files[j], chains[j])
    {
      OtherSlot(m, m', files, chains, own, marked, i, bno, j);
    }
  }

  lemma ReplaceFiles(m: Medium, m': Medium, files: seq<Tfile>, chains: seq<seq<nat>>, i: nat, f: Tfile, c: seq<nat>)
    requires i < |files| == |chains|
    requires forall j :: 0 <= j < |files| && j != i ==> SameText(m, m', files[j], chains[j])
    ensures Files(m', files[i := f], chains[i := c]) ==
            if f == NOFILE then Files(m, files, chains) - {i}
              else Files(m, files, chains)[i := File(f.name, f.pin, Text(m', c))]
  {
    hide Text, TidySlot;
  }

  lemma ReplaceOnMedium(m: Medium, m': Medium, files: seq<Tfile>, chains: seq<seq<nat>>, own: Owners, own': Owners,
                        i: nat, bno: nat, f: Tfile, c: seq<nat>)
    requires i < |files| == |chains|
    requires forall j :: 0 <= j < |files| && j != i ==> SameText(m, m', files[j], chains[j])
    requires forall x :: x in own && own[x] != i ==> x in own' && own'[x] == own[x]
    requires forall x :: x in own' ==> (x in own && own'[x] == own[x]) || own'[x] == i
    requires f != NOFILE ==> f.bno == bno && bno in own' && own'[bno] == i
    requires f == NOFILE ==> c == []
    requires bno in own ==> own[bno] == i
    requires files[i] != NOFILE ==> files[i].bno == bno
    requires files[i] == NOFILE ==> chains[i] == []
    ensures OnMedium(m', files[i := f], chains[i := c], own') ==
            if c == [] then OnMedium(m, files, chains, own) - {bno}
            else OnMedium(m, files, chains, own)[bno := (f.name, f.pin, Text(m', c))]
  {
    hide Text, TidySlot, OnMedium;
    var files', chains' := files[i := f], chains[i := c];
    var s, s' := OnMedium(m, files, chains, own), OnMedium(m', files', chains', own');
    forall b: nat | b != bno
      ensures b in s <==> b in s'
      ensures b in s ==> s'[b] == s[b]
    {
      OnMediumAt(m, files, chains, own, b);
      OnMediumAt(m', files', chains', own', b);
      if b in own && own[b] < |files| && own[b] != i {
        assert SameText(m, m', files[own[b]], chains[own[b]]);
      }
    }
    OnMediumAt(m', files', chains', own', bno);
  }

  lemma OnMediumAt(m: Medium, files: seq<Tfile>, chains: seq<seq<nat>>, own: Owners, b: nat)
    ensures b in OnMedium(m, files, chains, own) <==> Shows(files, chains, own, b)
    ensures Shows(files, chains, own, b) ==>
              OnMedium(m, files, chains, own)[b] == (files[own[b]].name, files[own[b]].pin, Text(m, chains[own[b]]))
  {
    hide Text;
  }

  /** Writes to blocks without owner, none of them a directory, change neither the files nor
      what a crash would recover. */
  lemma FreshWrites(m: Medium, m': Medium, files: seq<Tfile>, chains: seq<seq<nat>>, own: Owners, marked: set<nat>,
                    marked': set<nat>)
    requires Table(m, files, chains, own, marked, |files|) && |files| == |chains|
    requires ChangesAround(m, m', own, |files|, |m|) && own.Keys <= marked'
    ensures Table(m', files, chains, own, marked', |files|)
    ensures Files(m', files, chains) == Files(m, files, chains)
    ensures OnMedium(m', files, chains, own) == OnMedium(m, files, chains, own)
    ensures TidyTable(m, files, chains) ==> TidyTable(m', files, chains)
  {
    hide Table, ChangesAround, Decode, Text, TidySlot;
    FreshTable(m, m', files, chains, own, marked, marked');
    OthersSame(m, m', files, chains, own, marked, |files|, |m|);
    TidySame(m, m', files, chains);
  }

  lemma TidySame(m: Medium, m': Medium, files: seq<Tfile>, chains: seq<seq<nat>>)
    requires |files| == |chains|
    requires forall j :: 0 <= j < |files| ==> SameText(m, m', files[j], chains[j])
    ensures TidyTable(m, files, chains) ==> TidyTable(m', files, chains)
  {
    hide TidySlot, Text;
    if TidyTable(m, files, chains) {
      forall j | 0 <= j < |files| && chains[j] != []
        ensures TidySlot(m', files[j], chains[j])
      {
        assert TidySlot(m, files[j], chains[j]) && SameText(m, m', files[j], chains[j]);
      }
    }
  }

  lemma FreshTable(m: Medium, m': Medium, files: seq<Tfile>, chains: seq<seq<nat>>, own: Owners, marked: set<nat>,
                   marked': set<nat>)
    requires Table(m, files, chains, own, marked, |files|)
    requires ChangesAround(m, m', own, |files|, |m|) && own.Keys <= marked'
    ensures Table(m', files, chains, own, marked', |files|)
  {
    hide Decode, Text, SameText, SlotOk;
    var n := |files|;
    forall j | 0 <= j < |files|
      ensures SlotAt(m', files, chains, own, n, j)
    {
      assert SlotAt(m, files, chains, own, n, j);
      OtherSlot(m, m', files, chains, own, marked, n, |m|, j);
    }
    forall b | 0 <= b
      ensures CoveredAt(m', files, own, n, b)
    {
      assert CoveredAt(m, files, own, n, b);
    }
  }

  /** The table may grow by free entries. */
  lemma ExtendTable(m: Medium, files: seq<Tfile>, chains: seq<seq<nat>>, own: Owners, marked: set<nat>)
    requires Table(m, files, chains, own, marked, |files|)
    ensures Table(m, files + [NOFILE], chains + [[]], own, marked, |files| + 1)
    ensures Files(m, files + [NOFILE], chains + [[]]) == Files(m, files, chains)
    ensures OnMedium(m, files + [NOFILE], chains + [[]], own) == OnMedium(m, files, chains, own)
    ensures TidyTable(m, files, chains) ==> TidyTable(m, files + [NOFILE], chains + [[]])
  {
    hide Decode, Text, EntryOk, EmptyOk, TidySlot;
    var files', chains', n := files + [NOFILE], chains + [[]], |files| + 1;
    forall j | 0 <= j < |files'|
      ensures SlotAt(m, files', chains', own, n, j)
    {
      if j < |files| { assert SlotAt(m, files, chains, own, |files|, j); }
    }
    hide SlotAt;
    forall b | 0 <= b
      ensures CoveredAt(m, files', own, n, b)
    {
      assert CoveredAt(m, files, own, |files|, b);
    }
    if TidyTable(m, files, chains) {
      forall j | 0 <= j < |files'| && chains'[j] != []
        ensures TidySlot(m, files'[j], chains'[j])
      {
        assert TidySlot(m, files[j], chains[j]);
      }
    }
  }

  // ---- growing a chain ----

  /** Prepending a fresh data block to a chain of fresh blocks. */
  lemma Prepend(m: Medium, b: nat, data: seq<Byte>, c: seq<nat>)
    requires IsChain(m, c) && NoDup(c) && b < |m| <= NOTABNO && b !in c && |data| == DLEN
    ensures var m' := m[b := EncodeData(c[0], data)];
            && IsChain(m', [b] + c) && NoDup([b] + c)
            && Text(m', [b] + c) == data + Text(m, c)
            && !At(m', b).Dir?
            && At(m', c[|c| - 1]) == At(m, c[|c| - 1])
  {
    var m' := m[b := EncodeData(c[0], data)];
    DecodeData(c[0], data, |m|);
    ChainFrame(m, m', c);
    assert data + Zeros(0) == data;
    assert ([b] + c)[1..] == c;
    forall k | 0 <= k < |c|
      ensures LinkAt(m', [b] + c, k)
    {
      if k > 0 { assert LinkAt(m', c, k - 1); }
    }
  }

  lemma Singleton(m: Medium, b: nat, data: seq<Byte>)
    requires b < |m| && |data| <= DLEN
    ensures var m' := m[b := EncodeEnd(data)];
            IsChain(m', [b]) && NoDup([b]) && Text(m', [b]) == data && At(m', b).len == |data|
  {
    DecodeEnd(data, |m|);
    var m' := m[b := EncodeEnd(data)];
    assert Text(m', [b]) == Bytes(At(m', b)) + Text(m', []);
  }

  /** Rewriting the last block of a chain as a longer end block. */
  lemma ExtendEnd(m: Medium, c: seq<nat>, data: seq<Byte>)
    requires IsChain(m, c) && NoDup(c) && |data| <= DLEN
    ensures var m' := m[c[|c| - 1] := EncodeEnd(data)];
            && IsChain(m', c)
            && DLEN * (|c| - 1) <= |Text(m, c)|
            && Text(m', c) == Text(m, c)[..DLEN * (|c| - 1)] + data
            && At(m', c[|c| - 1]).End? && At(m', c[|c| - 1]).len == |data|
  {
    var b := c[|c| - 1];
    var m' := m[b := EncodeEnd(data)];
    DecodeEnd(data, |m|);
    forall k | 0 <= k < |c| - 1
      ensures LinkAt(m', c, k)
    {
      assert LinkAt(m, c, k) && c[k] != b;
    }
    SplitLast(m, m', c);
  }

  /** The text of a chain splits before its last block, and the front survives a change of that block. */
  lemma SplitLast(m: Medium, m': Medium, c: seq<nat>)
    requires IsChain(m, c) && NoDup(c) && |m'| == |m|
    requires forall x :: 0 <= x < |m| && x != c[|c| - 1] ==> m'[x] == m[x]
    ensures DLEN * (|c| - 1) <= |Text(m, c)|
    ensures Text(m', c) == Text(m, c)[..DLEN * (|c| - 1)] + Bytes(At(m', c[|c| - 1]))
  {
    hide Decode, Text, Bytes;
    var n := |c| - 1;
    var front := c[..n];
    assert c == front + [c[n]];
    TextConcat(m, front, [c[n]]);
    TextConcat(m', front, [c[n]]);
    TextFrame(m, m', front);
    TextLength(m, c);
    DecodedData(m[c[n]], |m|);
    TextOne(m, c[n]);
    TextOne(m', c[n]);
  }

  lemma TextOne(m: Medium, b: nat)
    requires b < |m|
    ensures Text(m, [b]) == Bytes(At(m, b))
  {
    hide Decode, Bytes;
    assert Text(m, [b]) == Bytes(At(m, b)) + Text(m, [b][1..]);
  }

  lemma LinkChain(m: Medium, c: seq<nat>, d: seq<nat>, data: seq<Byte>)
    requires IsChain(m, c) && NoDup(c) && IsChain(m, d) && NoDup(d) && Apart(c, d)
    requires |data| <= DLEN && |m| <= NOTABNO
    ensures var m' := m[c[|c| - 1] := EncodeData(d[0], data)];
            IsChain(m', c + d) && NoDup(c + d) && At(m', c[|c| - 1]) == Data(d[0], data + Zeros(DLEN - |data|))
  {
    var n := |c| - 1;
    var m' := m[c[n] := EncodeData(d[0], data)];
    DecodeData(d[0], data, |m|);
    assert c[n] !in d;
    var e := c + d;
    forall k | 0 <= k < |e| - 1
      ensures LinkAt(m', e, k)
    {
      if k < n {
        assert LinkAt(m, c, k) && c[k] != c[n];
      } else if k > n {
        assert LinkAt(m, d, k - |c|);
      }
    }
  }

  /** Turning the last block of a chain into a data block that links to another chain.  The data
      written is padded to 44 bytes, so the texts join up exactly when the block is full. */
  lemma Link(m: Medium, c: seq<nat>, d: seq<nat>, data: seq<Byte>)
    requires IsChain(m, c) && NoDup(c) && IsChain(m, d) && NoDup(d) && Apart(c, d)
    requires |data| <= DLEN && |m| <= NOTABNO
    ensures var m' := m[c[|c| - 1] := EncodeData(d[0], data)];
            && IsChain(m', c + d) && NoDup(c + d)
            && DLEN * (|c| - 1) <= |Text(m, c)|
            && Text(m', c + d) == Text(m, c)[..DLEN * (|c| - 1)] + data + Zeros(DLEN - |data|) + Text(m, d)
            && At(m', (c + d)[|c + d| - 1]) == At(m, d[|d| - 1])
    ensures Text(m[c[|c| - 1] := EncodeData(d[0], data)], c + d) == Text(m, c)[..DLEN * (|c| - 1)] + data + Text(m, d)
            <==> |data| == DLEN
  {
    hide Decode, EncodeData, NoDup, Text;
    LinkChain(m, c, d, data);
    LinkText(m, m[c[|c| - 1] := EncodeData(d[0], data)], c, d, data + Zeros(DLEN - |data|));
    JoinFull(Text(m, c)[..DLEN * (|c| - 1)], data, DLEN - |data|, Text(m, d));
  }

  /** Linking on behind an empty last block leaves 44 zero bytes in the middle, which no one wrote. */
  lemma EmptyEndLeavesGap(m: Medium, c: seq<nat>, d: seq<nat>)
    requires IsChain(m, c) && NoDup(c) && IsChain(m, d) && NoDup(d) && Apart(c, d) && |m| <= NOTABNO
    requires !EndsFull(m, c)
    ensures var m' := m[c[|c| - 1] := EncodeData(d[0], [])];
            && Text(m', c + d) == Text(m, c) + Zeros(DLEN) + Text(m, d)
            && Text(m', c + d) != Text(m, c) + Text(m, d)
  {
    hide Decode, EncodeData, NoDup, Text, IsChain, EndsFull, Apart;
    EmptyEnd(m, c);
    Link(m, c, d, []);
    JoinNothing(Text(m, c));
  }

  lemma EmptyEnd(m: Medium, c: seq<nat>)
    requires IsChain(m, c) && !EndsFull(m, c)
    ensures |Text(m, c)| == DLEN * (|c| - 1)
  {
    hide Decode, Text;
    TextLength(m, c);
  }

  lemma JoinNothing(t: seq<Byte>)
    ensures t[..|t|] + [] == t
  {}

  /** A medium that mounts with a file of 44 bytes behind which an append leaves a gap. */
  lemma SomeMediumEndsEmpty(m: Medium)
    requires m == [EncodeDir(1, 0, [97]), EncodeData(2, Zeros(DLEN)), EncodeEnd([])]
    ensures IsChain(m, [1, 2]) && !EndsFull(m, [1, 2])
    ensures Recovers(m, map[0 := ([97], 0, Zeros(DLEN))], false)
  {
    hide Decode, EncodeDir, EncodeData, EncodeEnd;
    DecodeDir(1, 0, [97], 3);
    DecodeData(2, Zeros(DLEN), 3);
    DecodeEnd([], 3);
    assert Zeros(DLEN) + Zeros(0) == Zeros(DLEN);
    var c, cat := [1, 2], map[0 := Image([97], 0, [1, 2])];
    assert At(m, 1) == Data(2, Zeros(DLEN));
    assert LinkAt(m, c, 0);
    assert Text(m, [2]) == [] + Text(m, []) && c[1..] == [2];
    assert Text(m, c) == Zeros(DLEN) + [];
    assert Holds(m, cat) && ShownBy(m, cat) == map[0 := ([97], 0, Zeros(DLEN))];
  }

  lemma LinkText(m: Medium, m': Medium, c: seq<nat>, d: seq<nat>, data: seq<Byte>)
    requires IsChain(m, c) && NoDup(c) && IsChain(m, d) && Apart(c, d) && |m'| == |m|
    requires forall x :: 0 <= x < |m| && x != c[|c| - 1] ==> m'[x] == m[x]
    requires At(m', c[|c| - 1]) == Data(d[0], data)
    ensures DLEN * (|c| - 1) <= |Text(m, c)|
    ensures Text(m', c + d) == Text(m, c)[..DLEN * (|c| - 1)] + data + Text(m, d)
    ensures At(m', (c + d)[|c + d| - 1]) == At(m, d[|d| - 1])
  {
    hide Decode, Text;
    assert c[|c| - 1] !in d;
    ChainFrame(m, m', d);
    SplitLast(m, m', c);
    TextConcat(m', c, d);
  }

  lemma JoinFull(front: seq<Byte>, data: seq<Byte>, gap: nat, rest: seq<Byte>)
    ensures front + (data + Zeros(gap)) + rest == front + data + Zeros(gap) + rest
    ensures front + data + Zeros(gap) + rest == front + data + rest <==> gap == 0
  {
    if gap == 0 {
      assert front + data + Zeros(0) == front + data;
    } else {
      assert |front + data + Zeros(gap) + rest| != |front + data + rest|;
    }
  }

  // ---- the backward write ----

  /** After writing the blocks `lay`, last block first: they were free, they form a chain holding
      `text`, and nothing else changed. */
  ghost predicate Laid(m0: Medium, m: Medium, marked0: set<nat>, marked: set<nat>, lay: seq<nat>, text: seq<Byte>) {
    && |m| == |m0|
    && (forall b :: 0 <= b < |m| && m[b] != m0[b] ==> b in lay)
    && NoDup(lay)
    && (forall x :: x in lay ==> x < |m| && x !in marked0)
    && marked == marked0 + ToSet(lay)
    && (lay == [] ==> text == [])
    && (lay != [] ==> IsChain(m, lay) && Text(m, lay) == text && At(m, lay[|lay| - 1]).len > 0)
  }

  lemma LaidNone(m: Medium, marked: set<nat>)
    ensures Laid(m, m, marked, marked, [], [])
  {}

  lemma LaidText(m0: Medium, m: Medium, marked0: set<nat>, marked: set<nat>, lay: seq<nat>, text: seq<Byte>)
    requires Laid(m0, m, marked0, marked, lay, text)
    ensures lay == [] <==> text == []
  {
    hide Decode;
    if lay != [] { TextLength(m, lay); }
  }

  lemma LayFirst(m: Medium, marked: set<nat>, b: nat, data: seq<Byte>)
    requires b < |m| && b !in marked && 0 < |data| <= DLEN
    ensures Laid(m, m[b := EncodeEnd(data)], marked, marked + {b}, [b], data)
  {
    hide Decode, EncodeEnd;
    Singleton(m, b, data);
  }

  lemma LayNext(m0: Medium, m: Medium, marked0: set<nat>, marked: set<nat>, lay: seq<nat>, text: seq<Byte>, b: nat,
                data: seq<Byte>)
    requires Laid(m0, m, marked0, marked, lay, text) && lay != []
    requires b < |m| <= NOTABNO && b !in marked && |data| == DLEN
    ensures Laid(m0, m[b := EncodeData(lay[0], data)], marked0, marked + {b}, [b] + lay, data + text)
  {
    hide Decode, EncodeData, Text, IsChain;
    assert b !in lay by { assert forall x :: x in lay ==> x in ToSet(lay); }
    Prepend(m, b, data, lay);
  }

  /** The laid blocks are a path that `freeblocks` can follow back. */
  lemma LaidPath(m0: Medium, m: Medium, marked0: set<nat>, marked: set<nat>, lay: seq<nat>, text: seq<Byte>)
    requires Laid(m0, m, marked0, marked, lay, text)
    ensures forall k :: 0 <= k < |lay| ==> lay[k] < |m|
    ensures forall k :: 0 <= k < |lay| - 1 ==> LinkAt(m, lay, k)
    ensures lay != [] ==> At(m, lay[|lay| - 1]).End?
    ensures marked - ToSet(lay) == marked0 && marked0 <= marked
    ensures forall x :: x in lay ==> x in marked && x !in marked0
  {
    hide Decode, Text;
    assert forall k :: 0 <= k < |lay| ==> lay[k] in lay;
  }

  /** Laying blocks changes no file and nothing a crash would recover. */
  lemma LaidHarmless(m0: Medium, m: Medium, marked0: set<nat>, marked: set<nat>, lay: seq<nat>, text: seq<Byte>,
                     files: seq<Tfile>, chains: seq<seq<nat>>, own: Owners, marks: set<nat>, tidy: bool)
    requires Laid(m0, m, marked0, marked, lay, text) && marked0 <= marks
    requires Table(m0, files, chains, own, marked0, |files|) && |files| == |chains|
    requires tidy ==> TidyTable(m0, files, chains)
    ensures Table(m, files, chains, own, marks, |files|)
    ensures tidy ==> TidyTable(m, files, chains)
    ensures Files(m, files, chains) == Files(m0, files, chains)
    ensures OnMedium(m, files, chains, own) == OnMedium(m0, files, chains, own)
    ensures Recovers(m, OnMedium(m0, files, chains, own), tidy)
  {
    hide TidyTable, Files, OnMedium, Recovers, Decode, Text;
    LaidAround(m0, m, marked0, marked, lay, text, files, chains, own);
    FreshWrites(m0, m, files, chains, own, marked0, marks);
    TableRecovers(m, files, chains, own, marks, tidy);
  }

  lemma LaidAround(m0: Medium, m: Medium, marked0: set<nat>, marked: set<nat>, lay: seq<nat>, text: seq<Byte>,
                   files: seq<Tfile>, chains: seq<seq<nat>>, own: Owners)
    requires Laid(m0, m, marked0, marked, lay, text)
    requires own.Keys <= marked0
    ensures ChangesAround(m0, m, own, |files|, |m0|)
  {
    hide Decode, Text, IsChain;
    forall b | 0 <= b < |m| && m[b] != m0[b]
      ensures b !in own && !At(m, b).Dir?
    {
      CellKinds(m, lay, b);
    }
  }

  /** Laying blocks leaves the end of a chain in use alone. */
  lemma LaidEnds(m0: Medium, m: Medium, marked0: set<nat>, marked: set<nat>, lay: seq<nat>, text: seq<Byte>,
                 c: seq<nat>)
    requires Laid(m0, m, marked0, marked, lay, text) && forall x :: x in c ==> x in marked0
    ensures EndsFull(m, c) == EndsFull(m0, c)
  {
    hide Decode, Text, IsChain;
    if c != [] {
      var last := c[|c| - 1];
      assert last in c && last !in lay;
    }
  }

  // ---- linking the new blocks in ----

  /** The first blocks of an empty file: its directory block is rewritten to name them. */
  lemma LinkFirst(m0: Medium, m: Medium, marked0: set<nat>, marked: set<nat>, lay: seq<nat>, text: seq<Byte>, f: Tfile)
    requires Laid(m0, m, marked0, marked, lay, text) && lay != [] && |m| <= NOTABNO
    requires f.bno < |m| && f.bno in marked0 && Storable(f.name, f.pin)
    ensures var m' := m[f.bno := EncodeDir(lay[0], f.pin, f.name)];
            var f' := f.(dbno := lay[0], length := |text|);
            && EntryOk(m', f', lay) && Text(m', lay) == text
            && (WellNamed(f.name, f.pin) ==> TidySlot(m', f', lay))
  {
    hide Decode, EncodeDir, Text;
    var m' := m[f.bno := EncodeDir(lay[0], f.pin, f.name)];
    assert lay[0] in lay;
    DecodeDir(lay[0], f.pin, f.name, |m|);
    ChainFrame(m, m', lay);
  }

  /** The data still fits the last block: it is rewritten as a longer end block. */
  lemma LinkInPlace(m: Medium, f: Tfile, c: seq<nat>, data: seq<Byte>)
    requires EntryOk(m, f, c) && data != []
    requires At(m, c[|c| - 1]).len + |data| <= DLEN
    ensures var last := c[|c| - 1];
            var m' := m[last := EncodeEnd(Bytes(At(m, last)) + data)];
            var f' := f.(length := f.length + |data|);
            && EntryOk(m', f', c) && Text(m', c) == Text(m, c) + data && !At(m', last).Dir?
            && (WellNamed(f.name, f.pin) ==> TidySlot(m', f', c))
  {
    hide Decode, EncodeEnd, Text;
    var last := c[|c| - 1];
    assert f.bno != last;
    DecodedData(m[last], |m|);
    SplitLast(m, m, c);
    ExtendEnd(m, c, Bytes(At(m, last)) + data);
    TextLength(m, c);
  }

  /** The last block is filled up and linked to the new ones.  An empty last block stays as a gap
      of zero bytes. */
  lemma LinkOn(m0: Medium, m: Medium, marked0: set<nat>, marked: set<nat>, lay: seq<nat>, text: seq<Byte>,
               f: Tfile, c: seq<nat>, fill: seq<Byte>)
    requires Laid(m0, m, marked0, marked, lay, text) && lay != [] && |m| <= NOTABNO
    requires EntryOk(m, f, c) && forall x :: x in c ==> x in marked0
    requires At(m, c[|c| - 1]).len + |fill| == DLEN || (At(m, c[|c| - 1]).len == 0 && fill == [])
    ensures var last := c[|c| - 1];
            var gap := DLEN - At(m, last).len - |fill|;
            var m' := m[last := EncodeData(lay[0], Bytes(At(m, last)) + fill)];
            var f' := f.(length := f.length + |fill| + gap + |text|);
            && EntryOk(m', f', c + lay) && !At(m', last).Dir?
            && Text(m', c + lay) == Text(m, c) + fill + Zeros(gap) + text
            && (WellNamed(f.name, f.pin) ==> TidySlot(m', f', c + lay))
  {
    hide Decode, EncodeData, Text;
    var last := c[|c| - 1];
    assert f.bno != last;
    assert Apart(c, lay) by { assert forall k :: 0 <= k < |c| ==> c[k] in c; }
    DecodedData(m[last], |m|);
    SplitLast(m, m, c);
    LinkChain(m, c, lay, Bytes(At(m, last)) + fill);
    Link(m, c, lay, Bytes(At(m, last)) + fill);
    JoinFour(Text(m, c)[..DLEN * (|c| - 1)], Bytes(At(m, last)), fill, Zeros(DLEN - At(m, last).len - |fill|), text);
    LinkEntry(m[last := EncodeData(lay[0], Bytes(At(m, last)) + fill)], m, f, c, lay);
  }

  lemma JoinFour(a: seq<Byte>, b: seq<Byte>, c: seq<Byte>, z: seq<Byte>, d: seq<Byte>)
    ensures a + (b + c) + z + d == a + b + c + z + d
    ensures |a + b + c + z + d| == |a + b| + |c| + |z| + |d|
  {}

  lemma LinkEntry(m': Medium, m: Medium, f: Tfile, c: seq<nat>, d: seq<nat>)
    requires |c| > 0 && |m'| == |m| && f.bno < |m| && m'[f.bno] == m[f.bno]
    ensures At(m', f.bno) == At(m, f.bno) && (c + d)[0] == c[0]
  {}

  /** Writing one block of file i so that its entry reads anew changes exactly that file, for the
      clients and for a crash. */
  lemma Relink(m: Medium, b: nat, blk: Block, files: seq<Tfile>, chains: seq<seq<nat>>, own: Owners, marked: set<nat>,
               i: nat, f': Tfile, c': seq<nat>, tidy: bool)
    requires Table(m, files, chains, own, marked, |files|) && i < |files| == |chains|
    requires files[i] != NOFILE && f' != NOFILE && f'.bno == files[i].bno
    requires b < |m| && (b == f'.bno || (b in chains[i] && !At(m[b := blk], b).Dir?))
    requires EntryOk(m[b := blk], f', c') && c' != []
    requires tidy ==> TidyTable(m, files, chains) && TidySlot(m[b := blk], f', c')
    requires forall x :: x in c' ==> x in marked && (x in chains[i] || x !in own)
    ensures var m', files', chains', own' := m[b := blk], files[i := f'], chains[i := c'], Reown(own, i, f', c');
            && Table(m', files', chains', own', marked, |files|)
            && (tidy ==> TidyTable(m', files', chains'))
            && Files(m', files', chains') == Files(m, files, chains)[i := File(f'.name, f'.pin, Text(m', c'))]
            && OnMedium(m', files', chains', own') ==
               OnMedium(m, files, chains, own)[f'.bno := (f'.name, f'.pin, Text(m', c'))]
            && Recovers(m', OnMedium(m', files', chains', own'), tidy)
  {
    hide Decode, Text, IsChain, NoDup, TidySlot, TidyTable, Files, OnMedium, Recovers, Reown, SlotAt, CoveredAt;
    var m' := m[b := blk];
    SlotEmpty(m, files, chains, own, marked, i);
    RelinkOwners(m, files, chains, own, marked, i, f', c');
    ReplaceEntry(m, m', files, chains, own, marked, marked, i, f'.bno, f', c');
    ReplaceShows(m, m', files, chains, own, marked, i, f'.bno, f', c');
    TableRecovers(m', files[i := f'], chains[i := c'], Reown(own, i, f', c'), marked, tidy);
  }

  /** The table and its files do not see an entry's length, but the table demands the right one. */
  lemma Recount(m: Medium, files: seq<Tfile>, chains: seq<seq<nat>>, own: Owners, marked: set<nat>,
                i: nat, full: Tfile, f': Tfile, c: seq<nat>)
    requires i < |files| == |chains| && Table(m, files[i := full], chains[i := c], own, marked, |files|)
    requires f' == full.(length := f'.length) && 0 < f'.length <= full.length && EntryOk(m, full, c)
    ensures Files(m, files[i := f'], chains[i := c]) == Files(m, files[i := full], chains[i := c])
    ensures OnMedium(m, files[i := f'], chains[i := c], own) == OnMedium(m, files[i := full], chains[i := c], own)
    ensures TidyTable(m, files[i := full], chains[i := c]) ==> TidyTable(m, files[i := f'], chains[i := c])
    ensures Table(m, files[i := f'], chains[i := c], own, marked, |files|) <==> f' == full
  {
    hide Decode, Text, IsChain, NoDup, Tidy;
    var was, files', chains' := files[i := full], files[i := f'], chains[i := c];
    if Table(m, files', chains', own, marked, |files|) {
      assert SlotAt(m, files', chains', own, |files|, i);
    }
    if TidyTable(m, was, chains') {
      forall j | 0 <= j < |files| && chains'[j] != []
        ensures TidySlot(m, files'[j], chains'[j])
      {
        assert TidySlot(m, was[j], chains'[j]);
      }
    }
  }

  lemma RelinkOwners(m: Medium, files: seq<Tfile>, chains: seq<seq<nat>>, own: Owners, marked: set<nat>,
                     i: nat, f': Tfile, c': seq<nat>)
    requires Table(m, files, chains, own, marked, |files|) && i < |files| == |chains|
    requires files[i] != NOFILE && f' != NOFILE && f'.bno == files[i].bno
    requires forall x :: x in c' ==> x in marked && (x in chains[i] || x !in own)
    ensures forall x :: x in [f'.bno] + c' && x in own ==> own[x] == i
    ensures Reown(own, i, f', c').Keys <= marked
  {
    hide Decode, SlotOk;
    assert SlotAt(m, files, chains, own, |files|, i);
  }

  /** Blanking file i's directory block and forgetting its blocks removes exactly that file. */
  lemma Unlink(m: Medium, files: seq<Tfile>, chains: seq<seq<nat>>, own: Owners, marked: set<nat>, i: nat, tidy: bool)
    requires Table(m, files, chains, own, marked, |files|) && i < |files| == |chains|
    requires tidy ==> TidyTable(m, files, chains)
    requires files[i] != NOFILE && files[i].bno < |m|
    ensures var m', files', chains', own' :=
                m[files[i].bno := Blank()], files[i := NOFILE], chains[i := []], Reown(own, i, NOFILE, []);
            && Table(m', files', chains', own', marked - ToSet(chains[i]) - {files[i].bno}, |files|)
            && (tidy ==> TidyTable(m', files', chains'))
            && Files(m', files', chains') == Files(m, files, chains) - {i}
            && OnMedium(m', files', chains', own') == OnMedium(m, files, chains, own) - {files[i].bno}
            && Recovers(m', OnMedium(m', files', chains', own'), tidy)
  {
    hide Decode, Text, IsChain, NoDup, TidySlot, TidyTable, Files, OnMedium, Recovers, SlotAt, CoveredAt, Blank;
    var bno := files[i].bno;
    var m', marked' := m[bno := Blank()], marked - ToSet(chains[i]) - {bno};
    BlankIsJunk(|m|);
    SlotEmpty(m, files, chains, own, marked, i);
    ReplaceEntry(m, m', files, chains, own, marked, marked', i, bno, NOFILE, []);
    ReplaceShows(m, m', files, chains, own, marked, i, bno, NOFILE, []);
    TableRecovers(m', files[i := NOFILE], chains[i := []], Reown(own, i, NOFILE, []), marked', tidy);
  }

  /** Writing an empty file's directory block over a free block adds it for the clients and
      nothing for a crash. */
  lemma Create(m: Medium, files: seq<Tfile>, chains: seq<seq<nat>>, own: Owners, marked: set<nat>, i: nat, f': Tfile,
               tidy: bool)
    requires Table(m, files, chains, own, marked, |files|) && i < |files| == |chains|
    requires tidy ==> TidyTable(m, files, chains)
    requires files[i] == NOFILE && WellNamed(f'.name, f'.pin) && f'.dbno == NOTABNO && f'.length == 0
    requires f'.bno < |m| <= NOTABNO && f'.bno !in marked
    ensures var m', files', own' :=
                m[f'.bno := EncodeDir(NOTABNO, f'.pin, f'.name)], files[i := f'], Reown(own, i, f', []);
            && Table(m', files', chains, own', marked + {f'.bno}, |files|)
            && (tidy ==> TidyTable(m', files', chains))
            && Files(m', files', chains) == Files(m, files, chains)[i := File(f'.name, f'.pin, [])]
            && OnMedium(m', files', chains, own') == OnMedium(m, files, chains, own)
            && Recovers(m', OnMedium(m', files', chains, own'), tidy)
  {
    hide Decode, IsChain, NoDup, TidySlot, TidyTable, Files, Recovers, SlotAt, CoveredAt, EncodeDir;
    var bno := f'.bno;
    var m', marked' := m[bno := EncodeDir(NOTABNO, f'.pin, f'.name)], marked + {bno};
    DecodeDir(NOTABNO, f'.pin, f'.name, |m|);
    SlotEmpty(m, files, chains, own, marked, i);
    assert chains[i := []] == chains;
    assert bno !in OnMedium(m, files, chains, own);
    assert OnMedium(m, files, chains, own) - {bno} == OnMedium(m, files, chains, own);
    hide OnMedium;
    ReplaceEntry(m, m', files, chains, own, marked, marked', i, bno, f', []);
    ReplaceShows(m, m', files, chains, own, marked, i, bno, f', []);
    TableRecovers(m', files[i := f'], chains, Reown(own, i, f', []), marked', tidy);
  }
}