/**
 Whole runs of the append-only file system: any sequence of operations, a crash after any block
 write of it, and the mount that follows.
 */
module TinyRun {
  import opened Octets
  import opened TinyFormat
  import opened TinySpec
  import opened TinyMount
  import opened TinyUpdate
  import opened TinyMap
  import opened TinyFs

  datatype Op = Create(name: seq<Byte>, pin: nat) | Append(file: nat, data: seq<Byte>) | Delete(file: nat)

  type Live = map<nat, File>

  predicate WellFormed(op: Op) {
    op.Create? ==> op.name != [] && 0 !in op.name && op.pin <= 0xffff
  }

  /** The files after an operation, how many blocks are free, and what the medium then shows. */
  datatype Moment = Moment(live: Live, free: nat, shown: Shown)

  /** Slot r is the first without a file. */
  ghost predicate FirstFree(v: Live, r: nat) {
    r !in v && forall j :: 0 <= j < r ==> j in v
  }

  /** What an operation does to the files and to the number of free blocks, which a file takes one of for
      itself and one for every 44 bytes. Without space, or without the file it names, it does nothing. */
  ghost predicate Does(op: Op, h: Moment, h': Moment) {
    match op
    case Create(name, pin) =>
      if h.free == 0 then h'.live == h.live && h'.free == h.free
      else h'.free == h.free - 1 && exists r: nat :: FirstFree(h.live, r) && h'.live == h.live[r := New(name, pin)]
    case Append(i, data) =>
      if i !in h.live || Growth(h.live[i].bytes, data) > h.free then h'.live == h.live && h'.free == h.free
      else
        && h'.live == h.live[i := h.live[i].(bytes := h.live[i].bytes + data)]
        && h'.free == h.free - Growth(h.live[i].bytes, data)
    case Delete(i) =>
      && h'.live == h.live - {i}
      && h'.free == if i in h.live then h.free + 1 + BlocksFor(|h.live[i].bytes|) else h.free
  }

  function New(name: seq<Byte>, pin: nat): File {
    File(if |name| < NLEN then name else name[..NLEN - 1], pin, [])
  }

  /** How many more blocks a file needs with more data. */
  function Growth(was: seq<Byte>, data: seq<Byte>): int {
    BlocksFor(|was| + |data|) - BlocksFor(|was|)
  }

  /** The files with data, by the directory blocks `place` gives, are just the files `shown`. */
  ghost predicate Saves(v: Live, shown: Shown, place: map<nat, nat>) {
    && place.Keys == v.Keys
    && (forall i, j :: i in place && j in place && i != j ==> place[i] != place[j])
    && (forall j :: j in v && v[j].bytes != [] ==>
          place[j] in shown && shown[place[j]] == (v[j].name, v[j].pin, v[j].bytes))
    && (forall b :: b in shown ==> exists j :: j in v && v[j].bytes != [] && place[j] == b)
  }

  ghost predicate Faithful(h: Moment) {
    exists place :: Saves(h.live, h.shown, place)
  }

  /** The block writes ends[n] to ends[n + 1] of the trace are those of operation n: a crash among
      them recovers what the medium showed before the operation or shows after it. */
  ghost predicate During(trace: seq<Medium>, hist: seq<Moment>, ends: seq<nat>, n: nat) {
    && n + 1 < |hist| == |ends| && ends[n] <= ends[n + 1] <= |trace|
    && forall t :: ends[n] <= t < ends[n + 1] ==>
         Recovers(trace[t], hist[n].shown, true) || Recovers(trace[t], hist[n + 1].shown, true)
  }

  ghost function Now(fs: Tfs): Moment
    requires |fs.f| == |fs.chains|
    reads fs, fs.medium, fs.bits
  {
    Moment(fs.View(), |fs.Free()|, fs.Durable())
  }

  ghost predicate Ready(fs: Tfs)
    reads fs, fs.medium, fs.bits
  {
    fs.Valid() && fs.Clean()
  }

  /** In a clean state the medium shows exactly the files with data. */
  lemma NowFaithful(fs: Tfs)
    requires Ready(fs)
    ensures Faithful(Now(fs))
  {
    hide Table, TidyTable, Text, Decode, AllNamed;
    var v := fs.View();
    var place := map j | j in v :: fs.f[j].bno;
    forall j | j in v
      ensures fs.f[j].bno in fs.own && fs.own[fs.f[j].bno] == j && (v[j].bytes != [] <==> fs.chains[j] != [])
    {
      LivePlace(fs, j);
    }
    forall b | b in fs.Durable()
      ensures exists j :: j in v && v[j].bytes != [] && place[j] == b
    {
      DurableLive(fs, b);
      assert fs.own[b] in v;
    }
    assert Saves(v, fs.Durable(), place);
  }

  lemma LivePlace(fs: Tfs, j: nat)
    requires Ready(fs) && j in fs.View()
    ensures fs.f[j].bno in fs.own && fs.own[fs.f[j].bno] == j
    ensures fs.View()[j].bytes != [] <==> fs.chains[j] != []
  {
    hide Table, Text, Decode, AllNamed;
    fs.SlotFacts(j);
    SlotEmpty(fs.medium[..], fs.f, fs.chains, fs.own, Marked(fs.bits[..]), j);
    if fs.chains[j] != [] {
      assert TidySlot(fs.medium[..], fs.f[j], fs.chains[j]);
      TextLength(fs.medium[..], fs.chains[j]);
    }
  }

  lemma DurableLive(fs: Tfs, b: nat)
    requires Ready(fs) && b in fs.Durable()
    ensures b in fs.own && fs.own[b] in fs.View() && fs.f[fs.own[b]].bno == b && fs.chains[fs.own[b]] != []
  {
    hide Table, TidyTable, Text, Decode, AllNamed;
    SlotEmpty(fs.medium[..], fs.f, fs.chains, fs.own, Marked(fs.bits[..]), fs.own[b]);
  }

  /** One operation: its effect on the files, and what a crash during it recovers. */
  method Perform(fs: Tfs, op: Op)
    requires Ready(fs) && WellFormed(op)
    modifies fs, fs.medium, fs.bits
    ensures fs.bits == old(fs.bits) && Ready(fs) && old(fs.trace) <= fs.trace
    ensures Does(op, old(Now(fs)), Now(fs))
    ensures forall t :: |old(fs.trace)| <= t < |fs.trace| ==>
              Recovers(fs.trace[t], old(fs.Durable()), true) || Recovers(fs.trace[t], fs.Durable(), true)
  {
    hide Table, TidyTable, Text, Decode, Recovers, OnMedium, Files, Marked;
    match op
    case Create(name, pin) =>
      var r := fs.NewFile(name, pin);
      assert r != |fs.f| ==> FirstFree(old(fs.View()), r);
    case Append(i, data) =>
      if i < |fs.f| && fs.f[i] != NOFILE {
        fs.SlotFacts(i);
        assert data == [] ==> fs.View()[i].bytes + data == fs.View()[i].bytes;
        var r := fs.Write(i, data, fs.f[i].length);
      }
      Missing(fs, i);
    case Delete(i) =>
      Missing(fs, i);
      if i < |fs.f| && fs.f[i] != NOFILE {
        ChainSize(fs, i);
        fs.Remove(i);
      }
  }

  /** In a clean state the chain of a file is no longer than its bytes need. */
  lemma ChainSize(fs: Tfs, i: nat)
    requires Ready(fs) && i < |fs.f| && fs.f[i] != NOFILE
    ensures i in fs.View() && |fs.chains[i]| == BlocksFor(|fs.View()[i].bytes|)
  {
    hide Table, Decode, Text, AllNamed, Marked;
    fs.SlotFacts(i);
    var m, c := fs.medium[..], fs.chains[i];
    if c != [] {
      assert TidySlot(m, fs.f[i], c);
      TextLength(m, c);
      DecodedData(m[c[|c| - 1]], |m|);
    } else {
      TextEmpty(m);
    }
  }

  lemma Missing(fs: Tfs, i: nat)
    requires |fs.f| == |fs.chains|
    ensures i in fs.View() <==> i < |fs.f| && fs.f[i] != NOFILE
    ensures i !in fs.View() ==> fs.View() - {i} == fs.View()
  {
    hide Text;
  }

  lemma DuringLater(trace: seq<Medium>, trace': seq<Medium>, hist: seq<Moment>, ends: seq<nat>, h: Moment, e: nat,
                    n: nat)
    requires During(trace, hist, ends, n) && trace <= trace'
    ensures During(trace', hist + [h], ends + [e], n)
  {
    hide Recovers;
  }

  /** Any run: the files go through the moments `hist`, one operation after the other, and a crash
      after any block write recovers the files with data just before or just after the operation
      that made the write. */
  method Run(fs: Tfs, ops: seq<Op>) returns (ghost hist: seq<Moment>, ghost ends: seq<nat>)
    requires Ready(fs) && forall k :: 0 <= k < |ops| ==> WellFormed(ops[k])
    modifies fs, fs.medium, fs.bits
    ensures fs.bits == old(fs.bits) && Ready(fs) && old(fs.trace) <= fs.trace
    ensures |hist| == |ends| == |ops| + 1 && hist[0] == old(Now(fs)) && hist[|ops|] == Now(fs)
    ensures ends[0] == |old(fs.trace)| && ends[|ops|] == |fs.trace|
    ensures forall k :: 0 <= k < |ops| ==> Does(ops[k], hist[k], hist[k + 1])
    ensures forall k :: 0 <= k < |hist| ==> Faithful(hist[k])
    ensures forall n :: 0 <= n < |ops| ==> During(fs.trace, hist, ends, n)
  {
    hide Recovers, Does, Faithful, Marked, During;
    hist, ends := [Now(fs)], [|fs.trace|];
    NowFaithful(fs);
    for n := 0 to |ops|
      invariant fs.bits == old(fs.bits) && Ready(fs) && old(fs.trace) <= fs.trace
      invariant |hist| == |ends| == n + 1 && hist[0] == old(Now(fs)) && hist[n] == Now(fs)
      invariant ends[0] == |old(fs.trace)| && ends[n] == |fs.trace|
      invariant forall k :: 0 <= k < n ==> Does(ops[k], hist[k], hist[k + 1])
      invariant forall k :: 0 <= k <= n ==> Faithful(hist[k])
      invariant forall k :: 0 <= k < n ==> During(fs.trace, hist, ends, k)
    {
      ghost var was, past, marks := fs.trace, hist, ends;
      Perform(fs, ops[n]);
      NowFaithful(fs);
      hist, ends := hist + [Now(fs)], ends + [|fs.trace|];
      forall k | 0 <= k <= n
        ensures During(fs.trace, hist, ends, k)
      {
        if k < n {
          DuringLater(was, fs.trace, past, marks, Now(fs), |fs.trace|, k);
        } else {
          DuringLast(fs.trace, hist, ends, n);
        }
      }
    }
  }

  lemma DuringLast(trace: seq<Medium>, hist: seq<Moment>, ends: seq<nat>, n: nat)
    requires |hist| == |ends| == n + 2 && ends[n] <= ends[n + 1] == |trace|
    requires forall t :: ends[n] <= t < |trace| ==>
               Recovers(trace[t], hist[n].shown, true) || Recovers(trace[t], hist[n + 1].shown, true)
    ensures During(trace, hist, ends, n)
  {
    hide Recovers;
  }

  /** The operation that makes block write `cut`. */
  lemma {:induction false} WriterOf(ends: seq<nat>, cut: nat, k: nat) returns (n: nat)
    requires k < |ends| && ends[0] <= cut < ends[k]
    ensures n < k && ends[n] <= cut < ends[n + 1]
  {
    if ends[k - 1] <= cut {
      n := k - 1;
    } else {
      n := WriterOf(ends, cut, k - 1);
    }
  }

  /** The run ends with a crash after block write `cut`, and the medium left is mounted again: the
      mounted files are those with data just before or just after the operation that made the
      write, and the file system is as clean as before. */
  method CrashAndMount(fs: Tfs, ops: seq<Op>, ghost cut: nat, left: array<Block>)
    returns (again: Tfs?, ghost hist: seq<Moment>, ghost ends: seq<nat>, ghost n: nat)
    requires Ready(fs) && forall k :: 0 <= k < |ops| ==> WellFormed(ops[k])
    requires left != fs.medium && left as object != fs.bits && left.Length == fs.medium.Length
    modifies fs, fs.medium, fs.bits, left
    ensures |hist| == |ends| == |ops| + 1 && hist[0] == old(Now(fs)) && ends[|ops|] == |fs.trace|
    ensures forall k :: 0 <= k < |ops| ==> Does(ops[k], hist[k], hist[k + 1])
    ensures |old(fs.trace)| <= cut < |fs.trace| && fs.trace[cut] == old(left[..]) ==>
              && again != null && Ready(again) && again.medium == left && left[..] == old(left[..])
              && n < |ops| && ends[n] <= cut < ends[n + 1] && Faithful(hist[n]) && Faithful(hist[n + 1])
              && (again.Durable() == hist[n].shown || again.Durable() == hist[n + 1].shown)
  {
    hide Recovers, Does, Faithful, Marked, Table, Holds, CatOf, Mount;
    hist, ends := Run(fs, ops);
    again := Attach(left);
    n := 0;
    if |old(fs.trace)| <= cut < |fs.trace| && fs.trace[cut] == old(left[..]) {
      n := WriterOf(ends, cut, |ops|);
      assert During(fs.trace, hist, ends, n);
    }
  }
}
