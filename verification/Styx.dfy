/**
 The wire format of Styx messages, after `emu/styx.c`: the fields of every message type in order, the
 table of header lengths, and reading messages back from a stream that arrives in pieces.
 */
module Styx {
  import opened Octets

  const NAMELEN := 28
  const ERRLEN := 64
  const DIRLEN := 116
  const MAXFDATA := 8192
  const MAXMSG := 128
  const MAXRPC := MAXFDATA + MAXMSG
  const TMAX := 30

  datatype Field =
    | Fid | NewFid | OldTag | Mode | Perm | Offset | Count | QidPath | QidVers
    | Uname | Aname | Ename | Name | Stat

  function Width(x: Field): nat {
    match x
    case Mode => 1
    case Fid => 2
    case NewFid => 2
    case OldTag => 2
    case Count => 2
    case Perm => 4
    case QidPath => 4
    case QidVers => 4
    case Offset => 8
    case Uname => NAMELEN
    case Aname => NAMELEN
    case Name => NAMELEN
    case Ename => ERRLEN
    case Stat => DIRLEN
  }

  /** A message in memory. Integers are taken without sign, texts have their full width. */
  datatype Fcall = Fcall(typ: Byte, tag: nat, fid: nat, newfid: nat, oldtag: nat, mode: nat, perm: nat, offset: nat,
                         count: nat, path: nat, vers: nat, uname: seq<Byte>, aname: seq<Byte>, ename: seq<Byte>,
                         name: seq<Byte>, stat: seq<Byte>, data: seq<Byte>)

  /** The fields behind type and tag, in order; none for a type that is no message. */
  function Layout(t: nat): seq<Field> {
    match t
    case 3 => [Ename]
    case 4 => [OldTag]
    case 6 => [Fid, NewFid]
    case 7 => [Fid]
    case 8 => [Fid, Name]
    case 9 => [Fid, QidPath, QidVers]
    case 10 => [Fid, Mode]
    case 11 => [Fid, QidPath, QidVers]
    case 12 => [Fid, Name, Perm, Mode]
    case 13 => [Fid, QidPath, QidVers]
    case 14 => [Fid, Offset, Count]
    case 15 => [Fid, Count]
    case 16 => [Fid, Offset, Count]
    case 17 => [Fid, Count]
    case 18 => [Fid]
    case 19 => [Fid]
    case 20 => [Fid]
    case 21 => [Fid]
    case 22 => [Fid]
    case 23 => [Fid, Stat]
    case 24 => [Fid, Stat]
    case 25 => [Fid]
    case 28 => [Fid, Uname, Aname]
    case 29 => [Fid, QidPath, QidVers]
    case _ => []
  }

  /** The switch has a case for the type. */
  predicate Known(t: nat) { t < TMAX && t !in {2, 26, 27} }

  /** Rread and Twrite carry data, behind a byte of padding. */
  predicate HasData(t: nat) { t == 15 || t == 16 }

  /** The table `msglen`; for messages with data, without them. */
  function MsgLen(t: nat): nat {
    match t
    case 0 => 3
    case 1 => 3
    case 3 => 67
    case 4 => 5
    case 5 => 3
    case 6 => 7
    case 7 => 5
    case 8 => 33
    case 9 => 13
    case 10 => 6
    case 11 => 13
    case 12 => 38
    case 13 => 13
    case 14 => 15
    case 15 => 8
    case 16 => 16
    case 17 => 7
    case 18 => 5
    case 19 => 5
    case 20 => 5
    case 21 => 5
    case 22 => 5
    case 23 => 121
    case 24 => 121
    case 25 => 5
    case 28 => 5 + 2 * NAMELEN
    case 29 => 13
    case _ => 0
  }

  function Total(xs: seq<Field>): nat {
    if xs == [] then 0 else Total(xs[..|xs| - 1]) + Width(xs[|xs| - 1])
  }

  lemma TotalOf(xs: seq<Field>)
    requires |xs| <= 4
    ensures Total(xs) == (if |xs| > 0 then Width(xs[0]) else 0) + (if |xs| > 1 then Width(xs[1]) else 0)
                         + (if |xs| > 2 then Width(xs[2]) else 0) + (if |xs| > 3 then Width(xs[3]) else 0)
  {
    if xs != [] {
      TotalOf(xs[..|xs| - 1]);
    }
  }

  /** The table of header lengths agrees with the fields. */
  lemma MsgLenIsTotal(t: nat)
    requires Known(t)
    ensures MsgLen(t) == 3 + Total(Layout(t)) + if HasData(t) then 1 else 0
  {
    hide Total;
    TotalOf(Layout(t));
  }

  // ---- numbers ----

  /** The n low bytes of v, low byte first. */
  function Little(v: nat, n: nat): (s: seq<Byte>)
    ensures |s| == n
  {
    if n == 0 then [] else [v % 256] + Little(v / 256, n - 1)
  }

  function Num(s: seq<Byte>): nat {
    if s == [] then 0 else s[0] + 256 * Num(s[1..])
  }

  function Limit(n: nat): nat { if n == 0 then 1 else 256 * Limit(n - 1) }

  lemma {:induction false} NumLittle(v: nat, n: nat)
    requires v < Limit(n)
    ensures Num(Little(v, n)) == v
  {
    if n > 0 {
      NumLittle(v / 256, n - 1);
      assert Little(v, n)[1..] == Little(v / 256, n - 1);
    }
  }

  lemma Limits()
    ensures Limit(1) == 0x100 && Limit(2) == 0x1_0000 && Limit(4) == 0x1_0000_0000
  {
    assert Limit(3) == 0x100_0000;
  }

  // ---- fields ----

  datatype Value = Int(n: nat) | Text(s: seq<Byte>)

  function ValueOf(f: Fcall, x: Field): Value {
    match x
    case Fid => Int(f.fid)
    case NewFid => Int(f.newfid)
    case OldTag => Int(f.oldtag)
    case Mode => Int(f.mode)
    case Perm => Int(f.perm)
    case Offset => Int(f.offset)
    case Count => Int(f.count)
    case QidPath => Int(f.path)
    case QidVers => Int(f.vers)
    case Uname => Text(f.uname)
    case Aname => Text(f.aname)
    case Ename => Text(f.ename)
    case Name => Text(f.name)
    case Stat => Text(f.stat)
  }

  function WithValue(f: Fcall, x: Field, v: Value): Fcall {
    match x
    case Uname => f.(uname := Chars(v))
    case Aname => f.(aname := Chars(v))
    case Ename => f.(ename := Chars(v))
    case Name => f.(name := Chars(v))
    case Stat => f.(stat := Chars(v))
    case Fid => f.(fid := Number(v))
    case NewFid => f.(newfid := Number(v))
    case OldTag => f.(oldtag := Number(v))
    case Mode => f.(mode := Number(v))
    case Perm => f.(perm := Number(v))
    case Offset => f.(offset := Number(v))
    case Count => f.(count := Number(v))
    case QidPath => f.(path := Number(v))
    case QidVers => f.(vers := Number(v))
  }

  function Number(v: Value): nat { if v.Int? then v.n else 0 }

  function Chars(v: Value): seq<Byte> { if v.Text? then v.s else [] }

  predicate IsText(x: Field) { x in {Uname, Aname, Ename, Name, Stat} }

  /** The value is one the field holds: an offset has four bytes, though eight are sent. */
  predicate Fits(x: Field, v: Value) {
    if IsText(x) then v.Text? && |v.s| == Width(x)
    else v.Int? && v.n < Limit(if x == Offset then 4 else Width(x))
  }

  lemma ValueWith(f: Fcall, x: Field, v: Value, y: Field)
    requires IsText(x) <==> v.Text?
    ensures ValueOf(WithValue(f, x, v), y) == if y == x then v else ValueOf(f, y)
    ensures var h := WithValue(f, x, v); h.typ == f.typ && h.tag == f.tag && h.data == f.data
  {}

  /** The bytes of a field. */
  function Put(x: Field, v: Value): (s: seq<Byte>)
    ensures |s| == Width(x)
  {
    if IsText(x) then
      if |Chars(v)| == Width(x) then Chars(v) else Little(0, Width(x))
    else if x == Offset then Little(Number(v), 4) + [0, 0, 0, 0]
    else Little(Number(v), Width(x))
  }

  /** The value in the bytes of a field. */
  function Get(x: Field, s: seq<Byte>): Value
    requires |s| == Width(x)
  {
    if IsText(x) then Text(s) else if x == Offset then Int(Num(s[..4])) else Int(Num(s))
  }

  lemma GetPut(x: Field, v: Value)
    requires Fits(x, v)
    ensures Get(x, Put(x, v)) == v
  {
    if v.Int? {
      NumLittle(v.n, if x == Offset then 4 else Width(x));
      assert x == Offset ==> Put(x, v)[..4] == Little(v.n, 4);
    }
  }

  // ---- messages ----

  /** The bytes of the fields xs. */
  function Body(f: Fcall, xs: seq<Field>): (s: seq<Byte>)
    ensures |s| == Total(xs)
  {
    if xs == [] then [] else Body(f, xs[..|xs| - 1]) + Put(xs[|xs| - 1], ValueOf(f, xs[|xs| - 1]))
  }

  /** A message on the wire. The byte of padding is whatever the buffer held. */
  function Encode(f: Fcall, pad: Byte): seq<Byte> {
    [f.typ] + Little(f.tag, 2) + Body(f, Layout(f.typ))
    + if HasData(f.typ) then [pad] + (if f.count <= |f.data| then f.data[..f.count] else []) else []
  }

  /** The type is one, and every field fits. */
  predicate Fitting(f: Fcall) {
    && Known(f.typ) && f.tag < 0x1_0000
    && (forall k :: 0 <= k < |Layout(f.typ)| ==> Fits(Layout(f.typ)[k], ValueOf(f, Layout(f.typ)[k])))
  }

  /** The message may be sent: it fits, is not too long, and the data is there. */
  predicate Sendable(f: Fcall) {
    && Fitting(f)
    && (Count in Layout(f.typ) ==> f.count <= MAXFDATA)
    && (HasData(f.typ) ==> f.count <= |f.data|)
  }

  /** The fields xs read into g from the bytes s. */
  function Fill(g: Fcall, xs: seq<Field>, s: seq<Byte>): Fcall
    requires |s| == Total(xs)
  {
    if xs == [] then g
    else
      var n := Total(xs[..|xs| - 1]);
      WithValue(Fill(g, xs[..|xs| - 1], s[..n]), xs[|xs| - 1], Get(xs[|xs| - 1], s[n..]))
  }

  /** What `convM2S` finds at the head of a buffer: no message, part of one, or one of `len` bytes. */
  datatype Parsed = Bad | More | Got(len: nat, f: Fcall)

  function Parse(g: Fcall, ap: seq<Byte>): Parsed {
    if |ap| < 3 then More
    else if ap[0] >= TMAX then Bad
    else if |ap| < MsgLen(ap[0]) then More
    else if !Known(ap[0]) then Bad
    else
      MsgLenIsTotal(ap[0]);
      var xs := Layout(ap[0]);
      var f := Fill(g.(typ := ap[0], tag := Num(ap[1..3])), xs, ap[3..3 + Total(xs)]);
      if Count in xs && f.count > MAXFDATA then Bad
      else if !HasData(ap[0]) then Got(MsgLen(ap[0]), f)
      else if |ap| < MsgLen(ap[0]) + f.count then More
      else Got(MsgLen(ap[0]) + f.count, f.(data := ap[MsgLen(ap[0])..MsgLen(ap[0]) + f.count]))
  }

  /** The fields of a type are different ones. */
  lemma LayoutDistinct(t: nat)
    ensures forall i, j :: 0 <= i < j < |Layout(t)| ==> Layout(t)[i] != Layout(t)[j]
  {}

  lemma {:induction false} FillBody(g: Fcall, f: Fcall, xs: seq<Field>)
    requires forall i, j :: 0 <= i < j < |xs| ==> xs[i] != xs[j]
    requires forall k :: 0 <= k < |xs| ==> Fits(xs[k], ValueOf(f, xs[k]))
    ensures var h := Fill(g, xs, Body(f, xs));
            && (forall y :: ValueOf(h, y) == if y in xs then ValueOf(f, y) else ValueOf(g, y))
            && h.typ == g.typ && h.tag == g.tag && h.data == g.data
  {
    hide ValueOf, WithValue, Get, Put, Fits;
    if xs != [] {
      var front, x := xs[..|xs| - 1], xs[|xs| - 1];
      FillBody(g, f, front);
      var h0 := Fill(g, front, Body(f, front));
      assert Body(f, xs)[..Total(front)] == Body(f, front);
      assert Body(f, xs)[Total(front)..] == Put(x, ValueOf(f, x));
      GetPut(x, ValueOf(f, x));
      FitsKind(x, ValueOf(f, x));
      forall y
        ensures ValueOf(Fill(g, xs, Body(f, xs)), y) == if y in xs then ValueOf(f, y) else ValueOf(g, y)
      {
        ValueWith(h0, x, ValueOf(f, x), y);
        assert xs == front + [x];
      }
      ValueWith(h0, x, ValueOf(f, x), x);
    }
  }

  lemma FitsKind(x: Field, v: Value)
    requires Fits(x, v)
    ensures IsText(x) <==> v.Text?
  {}

  /** The received message has the fields sent; fields the type does not have stay as they were. */
  ghost predicate Received(g: Fcall, f: Fcall, h: Fcall) {
    && h.typ == f.typ && h.tag == f.tag
    && (forall y :: ValueOf(h, y) == ValueOf(if y in Layout(f.typ) then f else g, y))
    && h.data == if HasData(f.typ) && f.count <= |f.data| then f.data[..f.count] else g.data
  }

  /** The head of any encoded message, however it goes on. */
  lemma HeadParsed(g: Fcall, f: Fcall, pad: Byte, ap: seq<Byte>)
    requires Fitting(f) && |ap| >= 3 + Total(Layout(f.typ))
    requires ap[..3 + Total(Layout(f.typ))] == ([f.typ] + Little(f.tag, 2) + Body(f, Layout(f.typ)))
    ensures var h := Fill(g.(typ := ap[0], tag := Num(ap[1..3])), Layout(f.typ), ap[3..3 + Total(Layout(f.typ))]);
            && ap[0] == f.typ && h.typ == f.typ && h.tag == f.tag && h.data == g.data
            && (forall y :: ValueOf(h, y) == ValueOf(if y in Layout(f.typ) then f else g, y))
            && (Count in Layout(f.typ) ==> h.count == f.count)
  {
    hide Fits, Fill, Body;
    var xs, g' := Layout(f.typ), g.(typ := f.typ, tag := f.tag);
    var head := [f.typ] + Little(f.tag, 2) + Body(f, xs);
    Limits();
    NumLittle(f.tag, 2);
    assert ap[1..3] == ap[..3 + Total(xs)][1..3] == Little(f.tag, 2);
    assert ap[3..3 + Total(xs)] == ap[..3 + Total(xs)][3..] == Body(f, xs);
    assert ap[0] == ap[..3 + Total(xs)][0];
    LayoutDistinct(f.typ);
    FillBody(g', f, xs);
    assert forall y :: ValueOf(g', y) == ValueOf(g, y);
    var h := Fill(g', xs, Body(f, xs));
    assert Count in xs ==> ValueOf(h, Count) == ValueOf(f, Count);
  }

  lemma EncodedLength(f: Fcall, pad: Byte)
    requires Sendable(f)
    ensures |Encode(f, pad)| == MsgLen(f.typ) + if HasData(f.typ) then f.count else 0
    ensures MsgLen(f.typ) >= 3 && Encode(f, pad)[0] == f.typ < TMAX
    ensures Encode(f, pad)[..3 + Total(Layout(f.typ))] == [f.typ] + Little(f.tag, 2) + Body(f, Layout(f.typ))
  {
    hide Fits, Body, Total;
    MsgLenIsTotal(f.typ);
    var head := [f.typ] + Little(f.tag, 2) + Body(f, Layout(f.typ));
    assert Encode(f, pad)[..|head|] == head;
  }

  /** A message followed by anything reads back as sent, with its length. */
  lemma RoundTrip(g: Fcall, f: Fcall, pad: Byte, rest: seq<Byte>)
    requires Sendable(f)
    ensures var p := Parse(g, Encode(f, pad) + rest);
            p.Got? && p.len == |Encode(f, pad)| && Received(g, f, p.f)
  {
    hide Fits, Fill, Body, ValueOf, Layout, MsgLen, Total, Known;
    var e := Encode(f, pad);
    var ap := e + rest;
    EncodedLength(f, pad);
    MsgLenIsTotal(f.typ);
    var n := 3 + Total(Layout(f.typ));
    assert ap[..n] == e[..n];
    HeadParsed(g, f, pad, ap);
    if HasData(f.typ) {
      WithCount(f.typ);
      assert ap[MsgLen(f.typ)..MsgLen(f.typ) + f.count] == f.data[..f.count] by {
        assert e == e[..n] + [pad] + f.data[..f.count];
      }
    }
    var h := Fill(g.(typ := ap[0], tag := Num(ap[1..3])), Layout(ap[0]), ap[3..n]);
    DataApart(h, ap[MsgLen(f.typ)..|e|]);
  }

  lemma WithCount(t: nat)
    ensures HasData(t) ==> Count in Layout(t) && Known(t)
  {}

  lemma DataApart(h: Fcall, d: seq<Byte>)
    ensures forall y :: ValueOf(h.(data := d), y) == ValueOf(h, y)
  {}

  /** A message that asks for more than a message may carry is encoded, but not taken at the other end. */
  lemma TooLong(g: Fcall, f: Fcall, pad: Byte, rest: seq<Byte>)
    requires Fitting(f) && Count in Layout(f.typ) && f.count > MAXFDATA
    ensures Parse(g, Encode(f, pad) + rest) == Bad
  {
    hide Fits, Fill, Body, ValueOf, Layout, MsgLen, Total, Known;
    MsgLenIsTotal(f.typ);
    MsgLenPositive(f.typ);
    var n, ap := 3 + Total(Layout(f.typ)), Encode(f, pad) + rest;
    var head := [f.typ] + Little(f.tag, 2) + Body(f, Layout(f.typ));
    assert ap[..n] == head;
    HeadParsed(g, f, pad, ap);
  }

  /** Of a strict part of a message, nothing is taken. */
  lemma PrefixIsPart(g: Fcall, f: Fcall, pad: Byte, k: nat)
    requires Sendable(f) && k < |Encode(f, pad)|
    ensures Parse(g, Encode(f, pad)[..k]) == More
  {
    hide Fits, Fill, Body, ValueOf, Layout, MsgLen, Total, Known;
    var e := Encode(f, pad);
    EncodedLength(f, pad);
    MsgLenIsTotal(f.typ);
    WithCount(f.typ);
    if k >= MsgLen(f.typ) {
      var n := 3 + Total(Layout(f.typ));
      assert e[..k][..n] == e[..n];
      HeadParsed(g, f, pad, e[..k]);
    }
  }

  /** More bytes change nothing about a message found, or about a head that is none. */
  lemma ParseStable(g: Fcall, ap: seq<Byte>, rest: seq<Byte>)
    requires !Parse(g, ap).More?
    ensures Parse(g, ap + rest) == Parse(g, ap)
  {
    hide Fill, Layout, MsgLen, Total, Known;
    assert (ap + rest)[..|ap|] == ap;
    MsgLenPositive(ap[0]);
    if Known(ap[0]) {
      MsgLenIsTotal(ap[0]);
      var n, xs := Total(Layout(ap[0])), Layout(ap[0]);
      if |ap| >= MsgLen(ap[0]) {
        assert (ap + rest)[1..3] == ap[1..3] && (ap + rest)[3..3 + n] == ap[3..3 + n];
        var f := Fill(g.(typ := ap[0], tag := Num(ap[1..3])), xs, ap[3..3 + n]);
        if HasData(ap[0]) && |ap| >= MsgLen(ap[0]) + f.count {
          assert (ap + rest)[MsgLen(ap[0])..MsgLen(ap[0]) + f.count] == ap[MsgLen(ap[0])..MsgLen(ap[0]) + f.count];
        }
      }
    }
  }

  lemma GotLength(g: Fcall, ap: seq<Byte>)
    ensures Parse(g, ap).Got? ==> 3 <= Parse(g, ap).len <= |ap|
  {
    hide Fill, Layout, MsgLen, Total, Known;
    if |ap| >= 3 {
      MsgLenPositive(ap[0]);
      if Known(ap[0]) {
        MsgLenIsTotal(ap[0]);
      }
    }
  }

  lemma MsgLenPositive(t: nat)
    ensures Known(t) ==> 3 <= MsgLen(t) <= MAXMSG
    ensures !Known(t) ==> MsgLen(t) == 0
    ensures HasData(t) ==> MsgLen(t) <= 16
  {}

  /** A full buffer never holds just part of a message. */
  lemma NeverFull(g: Fcall, ap: seq<Byte>)
    requires Parse(g, ap).More?
    ensures |ap| < MAXRPC
  {
    hide Fill, Layout, MsgLen, Total, Known;
    if |ap| >= 3 && ap[0] < TMAX {
      MsgLenPositive(ap[0]);
      WithCount(ap[0]);
      if Known(ap[0]) {
        MsgLenIsTotal(ap[0]);
      }
    }
  }

  // ---- the code ----

  /** Writes s at p. */
  method Copy(s: seq<Byte>, ap: array<Byte>, p: nat)
    requires p + |s| <= ap.Length
    modifies ap
    ensures ap[..p + |s|] == old(ap[..p]) + s && ap[p + |s|..] == old(ap[p + |s|..])
  {
    for i := 0 to |s|
      invariant ap[..p] == old(ap[..p]) && ap[p..p + i] == s[..i] && ap[p + i..] == old(ap[p + i..])
    {
      ghost var was := ap[p..p + i];
      assert ap[p + i..][1..] == ap[p + i + 1..] && old(ap[p + i..])[1..] == old(ap[p + i + 1..]);
      ap[p + i] := s[i];
      assert ap[p..p + i] == was;
      assert ap[p..p + i + 1] == ap[p..p + i] + [s[i]];
    }
    assert ap[..p + |s|] == ap[..p] + ap[p..p + |s|];
  }

  /** `convS2M`: the message in bytes, at the head of ap, and its length; -1 if the type is none. */
  method ConvS2M(f: Fcall, ap: array<Byte>) returns (n: int)
    requires ap.Length >= 3
    requires Known(f.typ) ==> Sendable(f) && ap.Length >= MsgLen(f.typ) + if HasData(f.typ) then f.count else 0
    modifies ap
    ensures n == -1 <==> !Known(f.typ)
    ensures Known(f.typ) ==>
              var pad := if HasData(f.typ) then old(ap[MsgLen(f.typ) - 1]) else 0;
              n == |Encode(f, pad)| <= ap.Length && ap[..n] == Encode(f, pad) && ap[n..] == old(ap[n..])
  {
    hide Fits, Put, ValueOf, Layout, MsgLen, Known, Encode, Total, Body, Little;
    Copy([f.typ] + Little(f.tag, 2), ap, 0);
    if !Known(f.typ) {
      return -1;
    }
    MsgLenIsTotal(f.typ);
    ghost var tail := ap[3..];
    assert tail == old(ap[3..]);
    var p := PutFields(f, ap);
    ghost var body := ap[..p];
    if HasData(f.typ) {
      WithCount(f.typ);
      p := p + 1;
      ghost var pad := ap[p - 1];
      assert pad == old(ap[3..])[p - 4];
      assert ap[..p] == body + [pad];
      ghost var q := p + f.count;
      assert ap[q..] == old(ap[q..]) by {
        assert ap[q..] == ap[p - 1..][q - p + 1..] && old(ap[q..]) == old(ap[p - 1..])[q - p + 1..];
      }
      Copy(f.data[..f.count], ap, p);
      p := p + f.count;
      EncodeIs(f, pad);
    } else {
      EncodeIs(f, 0);
    }
    n := p;
  }

  /** The fields of the switch, behind the three bytes of the head. */
  method PutFields(f: Fcall, ap: array<Byte>) returns (p: nat)
    requires 3 + Total(Layout(f.typ)) <= ap.Length && ap[..3] == [f.typ] + Little(f.tag, 2)
    modifies ap
    ensures p == 3 + Total(Layout(f.typ)) && ap[..p] == [f.typ] + Little(f.tag, 2) + Body(f, Layout(f.typ))
    ensures ap[p..] == old(ap[p..])
  {
    hide Fits, Put, ValueOf, Layout, Total, Body, Little, Width;
    var xs := Layout(f.typ);
    ghost var head := [f.typ] + Little(f.tag, 2);
    TotalNone(f);
    assert ap[..3] == head + Body(f, []) && xs[..0] == [];
    p := 3;
    for k := 0 to |xs|
      invariant p == 3 + Total(xs[..k]) <= 3 + Total(xs)
      invariant ap[..p] == head + Body(f, xs[..k]) && ap[p..] == old(ap[p..])
    {
      TotalNext(f, xs, k);
      var s := Put(xs[k], ValueOf(f, xs[k]));
      ghost var q := p + |s|;
      assert ap[q..] == ap[p..][|s|..] && old(ap[q..]) == old(ap[p..])[|s|..];
      Copy(s, ap, p);
      p := p + |s|;
    }
    assert xs[..|xs|] == xs;
  }

  lemma EncodeIs(f: Fcall, pad: Byte)
    ensures var body := [f.typ] + Little(f.tag, 2) + Body(f, Layout(f.typ));
            && (HasData(f.typ) && f.count <= |f.data| ==> Encode(f, pad) == body + [pad] + f.data[..f.count])
            && (!HasData(f.typ) ==> Encode(f, pad) == body)
  {
    hide Body, Layout;
    var body := [f.typ] + Little(f.tag, 2) + Body(f, Layout(f.typ));
    assert HasData(f.typ) && f.count <= |f.data| ==>
          body + ([pad] + f.data[..f.count]) == body + [pad] + f.data[..f.count];
    assert body + [] == body;
  }

  lemma TotalNone(f: Fcall)
    ensures Total([]) == 0 && Body(f, []) == []
  {}

  lemma TotalNext(f: Fcall, xs: seq<Field>, k: nat)
    requires k < |xs|
    ensures Total(xs[..k + 1]) == Total(xs[..k]) + Width(xs[k]) && Total(xs[..k + 1]) <= Total(xs)
    ensures Body(f, xs[..k + 1]) == Body(f, xs[..k]) + Put(xs[k], ValueOf(f, xs[k]))
  {
    hide Width, Put, ValueOf;
    assert xs[..k + 1][..k] == xs[..k];
    TotalGrows(xs, k + 1);
  }

  lemma {:induction false} TotalGrows(xs: seq<Field>, k: nat)
    requires k <= |xs|
    ensures Total(xs[..k]) <= Total(xs)
    decreases |xs|
  {
    hide Width;
    if k == |xs| {
      assert xs[..k] == xs;
    } else {
      TotalGrows(xs[..|xs| - 1], k);
      assert xs[..|xs| - 1][..k] == xs[..k];
    }
  }

  /** `convM2S`: the length of the message at the head of n bytes, into f; 0 if there is only part of one,
      -1 if there is none. */
  method ConvM2S(ap: array<Byte>, g: Fcall, n: nat) returns (r: int, f: Fcall)
    requires n <= ap.Length
    ensures match Parse(g, ap[..n])
            case Bad => r == -1
            case More => r == 0
            case Got(len, h) => r == len && f == h
  {
    hide Fill, Get, WithValue, Layout, MsgLen, Known;
    f := g;
    if n < 3 {
      return 0, f;
    }
    ghost var s := ap[..n];
    f := f.(typ := ap[0], tag := Num(ap[1..3]));
    assert ap[1..3] == s[1..3];
    if f.typ >= TMAX {
      return -1, f;
    }
    if n < MsgLen(f.typ) {
      return 0, f;
    }
    if !Known(f.typ) {
      return -1, f;
    }
    MsgLenIsTotal(f.typ);
    var p;
    f, p := GetFields(ap, f, n);
    assert ap[3..p] == s[3..p];
    var typ := ap[0];
    if Count in Layout(typ) && f.count > MAXFDATA {
      return -1, f;
    }
    if HasData(typ) {
      WithCount(typ);
      if n < MsgLen(typ) + f.count {
        return 0, f;
      }
      p := p + 1;
      f := f.(data := ap[p..p + f.count]);
      p := p + f.count;
      assert ap[MsgLen(typ)..p] == s[MsgLen(typ)..p];
    }
    r := p;
  }

  /** The fields of the switch. */
  method GetFields(ap: array<Byte>, g: Fcall, n: nat) returns (f: Fcall, p: nat)
    requires n <= ap.Length && n >= 3 + Total(Layout(g.typ))
    ensures p == 3 + Total(Layout(g.typ)) && f == Fill(g, Layout(g.typ), ap[3..p])
  {
    hide Get, WithValue, Layout, Fill, Total, Width;
    var xs := Layout(g.typ);
    f, p := g, 3;
    TotalNone(g);
    FillNone(g);
    assert xs[..0] == [] && ap[3..3] == [];
    for k := 0 to |xs|
      invariant p == 3 + Total(xs[..k]) <= n && f == Fill(g, xs[..k], ap[3..p])
    {
      TotalNext(g, xs, k);
      var q := p + Width(xs[k]);
      FillNext(g, xs, k, ap[3..q]);
      assert ap[3..q][..p - 3] == ap[3..p] && ap[3..q][p - 3..] == ap[p..q];
      f := WithValue(f, xs[k], Get(xs[k], ap[p..q]));
      p := q;
    }
    assert xs[..|xs|] == xs;
  }

  lemma FillNone(g: Fcall)
    ensures Fill(g, [], []) == g
  {}

  lemma FillNext(g: Fcall, xs: seq<Field>, k: nat, s: seq<Byte>)
    requires k < |xs| && |s| == Total(xs[..k + 1])
    ensures var n := Total(xs[..k]);
            && n <= |s| && |s[n..]| == Width(xs[k])
            && Fill(g, xs[..k + 1], s) == WithValue(Fill(g, xs[..k], s[..n]), xs[k], Get(xs[k], s[n..]))
  {
    hide Get, WithValue, Width;
    assert xs[..k + 1][..k] == xs[..k];
  }

  // ---- reassembly ----

  /** What reading for one message comes to: a message, a head that is none, the end of the channel, or no
      more reads. */
  datatype Reading = Message(len: nat, f: Fcall) | BadType | HungUp | Pending

  /** Reads one message, after `mntrpcread`: the part left over from last time first, then what the channel
      brings, in pieces of any size. What comes out depends on the bytes alone, not on the pieces.
      `sizes` says how many bytes the reads bring at most; none left means one that waits. */
  method ReadMessage(part: seq<Byte>, stream: seq<Byte>, sizes: seq<nat>, g: Fcall, rpc: array<Byte>)
    returns (r: Reading, left: seq<Byte>, rest: seq<Byte>, ghost g': Fcall)
    requires |part| <= MAXRPC == rpc.Length
    modifies rpc
    ensures |left| <= MAXRPC
    ensures r.Message? ==> Parse(g', part + stream) == Got(r.len, r.f) && 3 <= r.len <= |part + stream|
    ensures left + rest == (part + stream)[if r.Message? then r.len else 0..]
    ensures r.BadType? ==> Parse(g', part + stream).Bad?
    ensures r.HungUp? || r.Pending? ==> Parse(g', left).More?
    ensures 0 !in sizes ==>
              (r.HungUp? ==> rest == []) && (r.Pending? ==> |stream| - |rest| + 1 >= |sizes|)
  {
    hide Parse;
    ghost var all := part + stream;
    var buf, i, eof, f := |part|, 0, false, g;
    Copy(part, rpc, 0);
    g', rest := g, stream;
    assert rpc[..buf] == part;
    if buf > 0 {
      r, f, left, g' := Check(rpc, buf, f, all, rest);
      if !r.Pending? {
        return;
      }
    } else {
      NothingYet(g);
    }
    while i < |sizes|
      invariant 0 <= i <= |sizes| && 0 <= buf < MAXRPC && rpc[..buf] + rest == all && Parse(g', rpc[..buf]).More?
      invariant 0 !in sizes ==> i <= |stream| - |rest| + (if eof then 1 else 0) && (eof ==> rest == [])
    {
      var n := Least(sizes[i], MAXRPC - buf, |rest|);
      i := i + 1;
      if n == 0 {
        if eof {
          r, left := HungUp, rpc[..buf];
          return;
        }
        eof := true;
      } else {
        eof := false;
        f := f.(typ := 0, tag := 0);
        buf, rest := Receive(rpc, buf, rest, n, all);
        r, f, left, g' := Check(rpc, buf, f, all, rest);
        if !r.Pending? {
          return;
        }
      }
    }
    r, left := Pending, rpc[..buf];
  }

  function Least(a: nat, b: nat, c: nat): (n: nat)
    ensures n <= a && n <= b && n <= c
  {
    if a <= b && a <= c then a else if b <= c then b else c
  }

  /** One read: the next n bytes of the channel, behind those in the buffer. */
  method Receive(rpc: array<Byte>, buf: nat, rest: seq<Byte>, n: nat, ghost all: seq<Byte>)
    returns (buf': nat, rest': seq<Byte>)
    requires buf + n <= rpc.Length && n <= |rest| && rpc[..buf] + rest == all
    modifies rpc
    ensures buf' == buf + n && rpc[..buf'] + rest' == all
  {
    ghost var held := rpc[..buf];
    Copy(rest[..n], rpc, buf);
    JoinParts(held, rest, n);
    buf', rest' := buf + n, rest[n..];
  }

  lemma JoinParts(held: seq<Byte>, rest: seq<Byte>, n: nat)
    requires n <= |rest|
    ensures (held + rest[..n]) + rest[n..] == held + rest
  {
    assert rest == rest[..n] + rest[n..];
  }

  lemma NothingYet(g: Fcall)
    ensures Parse(g, []).More?
  {}

  lemma SplitAt(a: seq<Byte>, b: seq<Byte>, n: nat)
    requires n <= |a|
    ensures a[n..] + b == (a + b)[n..]
  {}

  /** The check of what is in the buffer, after `chk`: if it begins with a message, the rest is left over. */
  method Check(rpc: array<Byte>, buf: nat, g: Fcall, ghost all: seq<Byte>, ghost rest: seq<Byte>)
    returns (r: Reading, f: Fcall, left: seq<Byte>, ghost g': Fcall)
    requires buf <= rpc.Length == MAXRPC && all == rpc[..buf] + rest
    ensures !r.HungUp? && |left| <= MAXRPC
    ensures r.Message? ==> Parse(g', all) == Got(r.len, r.f) && 3 <= r.len <= |all|
    ensures r.BadType? ==> Parse(g', all).Bad?
    ensures r.Pending? ==> Parse(g', rpc[..buf]).More? && buf < MAXRPC
    ensures left + rest == all[if r.Message? then r.len else 0..]
  {
    hide Parse;
    var n;
    g' := g;
    n, f := ConvM2S(rpc, g, buf);
    ghost var held := rpc[..buf];
    GotLength(g, held);
    if Parse(g, held).More? {
      NeverFull(g, held);
    } else {
      ParseStable(g, held, rest);
    }
    if n > 0 {
      SplitAt(held, rest, n);
      r, left := Message(n, f), rpc[n..buf];
      assert left == held[n..];
    } else {
      r, left := if n < 0 then BadType else Pending, rpc[..buf];
    }
  }

  // ---- a stream of messages ----

  /** The messages fs on the wire, one behind the other. */
  function Wire(fs: seq<Fcall>, pads: seq<Byte>): seq<Byte>
    requires |fs| == |pads|
  {
    if fs == [] then [] else Encode(fs[0], pads[0]) + Wire(fs[1..], pads[1..])
  }

  /** Whatever pieces the stream comes in, the messages read from it are the messages sent, in order; and all of
      them, if the channel keeps bringing something. */
  method ReadStream(fs: seq<Fcall>, pads: seq<Byte>, sizes: seq<seq<nat>>, g: Fcall, rpc: array<Byte>)
    returns (got: seq<Fcall>, last: Reading, ghost gs: seq<Fcall>)
    requires |fs| == |pads| && rpc.Length == MAXRPC && forall k :: 0 <= k < |fs| ==> Sendable(fs[k])
    modifies rpc
    ensures |got| == |gs| <= |fs| && forall k :: 0 <= k < |got| ==> Received(gs[k], fs[k], got[k])
    ensures |got| == (if |fs| < |sizes| then |fs| else |sizes|) || last.HungUp? || last.Pending?
    ensures (forall k :: 0 <= k < |sizes| ==> 0 !in sizes[k] && |sizes[k]| > |Wire(fs, pads)| + 1) ==>
              |got| == if |fs| < |sizes| then |fs| else |sizes|
  {
    hide Parse, Encode, Sendable, Received;
    got, gs, last := [], [], Pending;
    var part, stream, f, k := [], Wire(fs, pads), g, 0;
    assert fs[0..] == fs && pads[0..] == pads && part + stream == stream;
    while k < |fs| && k < |sizes|
      invariant k <= |fs| && k <= |sizes| && |got| == |gs| == k && |part| <= MAXRPC
      invariant part + stream == Wire(fs[k..], pads[k..]) && |part + stream| <= |Wire(fs, pads)|
      invariant forall j :: 0 <= j < k ==> Received(gs[j], fs[j], got[j])
    {
      var left, rest;
      ghost var g';
      WireNext(fs, pads, k);
      last, left, rest, g' := ReadMessage(part, stream, sizes[k], f, rpc);
      RoundTrip(g', fs[k], pads[k], Wire(fs[k + 1..], pads[k + 1..]));
      assert rest == [] ==> left + rest == left;
      if !last.Message? {
        return;
      }
      got, gs, f := got + [last.f], gs + [g'], last.f;
      part, stream, k := left, rest, k + 1;
    }
  }

  lemma WireNext(fs: seq<Fcall>, pads: seq<Byte>, k: nat)
    requires |fs| == |pads| && k < |fs|
    ensures Wire(fs[k..], pads[k..]) == Encode(fs[k], pads[k]) + Wire(fs[k + 1..], pads[k + 1..])
  {
    hide Encode;
    assert fs[k..][1..] == fs[k + 1..] && pads[k..][1..] == pads[k + 1..];
  }
}
