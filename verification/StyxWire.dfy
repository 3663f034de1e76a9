/**
 What is on the wire, byte by byte: for every type of message where each field stands, how numbers are laid out,
 and how long the message is. `convS2M` writes just these bytes, and `convM2S` reads them.
 */
module StyxWire {
  import opened Octets
  import opened Styx

  /** The number in four bytes. */
  function Long(e: seq<Byte>, at: nat): nat
    requires at + 4 <= |e|
  {
    e[at] as int + 0x100 * e[at + 1] as int + 0x1_0000 * e[at + 2] as int + 0x100_0000 * e[at + 3] as int
  }

  /** The bytes e are the message f: the type, the tag, and the fields of the type. */
  predicate OnWire(f: Fcall, e: seq<Byte>) {
    |e| >= 3 && e[0] == f.typ && ShortAt(e, 1) == f.tag && FieldsOnWire(f, e)
  }

  predicate FieldsOnWire(f: Fcall, e: seq<Byte>) {
    if f.typ in {0, 1, 5} then |e| == 3
    else if f.typ == 3 then |e| == 67 && e[3..67] == f.ename
    else if f.typ == 4 then |e| == 5 && ShortAt(e, 3) == f.oldtag
    else
      |e| >= 5 && ShortAt(e, 3) == f.fid
      && if f.typ in {7, 18, 19, 20, 21, 22, 25} then |e| == 5
         else if f.typ == 6 then |e| == 7 && ShortAt(e, 5) == f.newfid
         else if f.typ == 8 then |e| == 33 && e[5..33] == f.name
         else if f.typ in {9, 11, 13, 29} then |e| == 13 && Long(e, 5) == f.path && Long(e, 9) == f.vers
         else if f.typ == 10 then |e| == 6 && e[5] == f.mode
         else if f.typ == 12 then |e| == 38 && e[5..33] == f.name && Long(e, 33) == f.perm && e[37] == f.mode
         else if f.typ == 14 then |e| == 15 && Long(e, 5) == f.offset && ShortAt(e, 13) == f.count
         else if f.typ == 15 then
           |e| == 8 + f.count && ShortAt(e, 5) == f.count && f.count <= |f.data| && e[8..] == f.data[..f.count]
         else if f.typ == 16 then
           && |e| == 16 + f.count && Long(e, 5) == f.offset && ShortAt(e, 13) == f.count
           && f.count <= |f.data| && e[16..] == f.data[..f.count]
         else if f.typ == 17 then |e| == 7 && ShortAt(e, 5) == f.count
         else if f.typ in {23, 24} then |e| == 121 && e[5..121] == f.stat
         else f.typ == 28 && |e| == 61 && e[5..33] == f.uname && e[33..61] == f.aname
  }

  /** What the high half of an offset and the byte of padding hold, in a message written. */
  predicate Filled(e: seq<Byte>, pad: Byte) {
    && |e| > 0
    && (e[0] in {14, 16} && |e| >= 13 ==> e[9..13] == [0, 0, 0, 0])
    && (e[0] == 15 && |e| >= 8 ==> e[7] == pad) && (e[0] == 16 && |e| >= 16 ==> e[15] == pad)
  }

  // ---- one field ----

  /** What the bytes at a place hold, for each kind of field. */
  function Held(e: seq<Byte>, x: Field, at: nat): Value
    requires at + Width(x) <= |e|
  {
    if IsText(x) then Text(e[at..at + Width(x)])
    else if x == Mode then Int(e[at])
    else if x in {Perm, QidPath, QidVers, Offset} then Int(Long(e, at))
    else Int(ShortAt(e, at))
  }

  lemma NumTwo(s: seq<Byte>)
    requires |s| == 2
    ensures Num(s) == ShortAt(s, 0)
  {
    assert Num(s[1..]) == s[1] + 256 * Num(s[1..][1..]);
  }

  lemma NumFour(s: seq<Byte>)
    requires |s| == 4
    ensures Num(s) == Long(s, 0)
  {
    NumTwo(s[2..]);
    assert s[1..][1..] == s[2..];
    assert Num(s[1..]) == s[1] + 256 * Num(s[2..]);
  }

  lemma NumOne(s: seq<Byte>)
    requires |s| == 1
    ensures Num(s) == s[0]
  {
    assert s[1..] == [];
  }

  lemma GetIsHeld(e: seq<Byte>, x: Field, at: nat)
    requires at + Width(x) <= |e|
    ensures Get(x, e[at..at + Width(x)]) == Held(e, x, at)
  {
    hide Num;
    var s := e[at..at + Width(x)];
    if !IsText(x) {
      if x == Mode {
        NumOne(s);
      } else if x in {Perm, QidPath, QidVers} {
        NumFour(s);
      } else if x == Offset {
        NumFour(s[..4]);
      } else {
        NumTwo(s);
      }
    }
  }

  // ---- all fields of a message ----

  lemma SliceOf(e: seq<Byte>, from: nat, to: nat, at: nat, w: nat)
    requires from + at + w <= to <= |e|
    ensures e[from..to][at..at + w] == e[from + at..from + at + w]
  {
    var x, y := e[from..to][at..at + w], e[from + at..from + at + w];
    assert |x| == |y| == w;
    forall i | 0 <= i < w
      ensures x[i] == y[i]
    {
      assert x[i] == e[from..to][at + i] == e[from + (at + i)];
      assert y[i] == e[from + at + i];
    }
  }

  /** Every field of f is what stands in its place. */
  ghost predicate Agrees(f: Fcall, xs: seq<Field>, e: seq<Byte>)
    requires |e| >= 3 + Total(xs)
  {
    forall k :: 0 <= k < |xs| ==>
      3 + Total(xs[..k]) + Width(xs[k]) <= |e| && Held(e, xs[k], 3 + Total(xs[..k])) == ValueOf(f, xs[k])
  }

  lemma PlaceFits(xs: seq<Field>, k: nat)
    requires k < |xs|
    ensures Total(xs[..k + 1]) == Total(xs[..k]) + Width(xs[k]) <= Total(xs)
  {
    hide Width;
    assert xs[..k + 1][..k] == xs[..k];
    TotalGrows(xs, k + 1);
  }

  lemma {:induction false} BodyAt(f: Fcall, xs: seq<Field>, k: nat)
    requires k < |xs|
    ensures Total(xs[..k]) + Width(xs[k]) <= Total(xs)
    ensures Body(f, xs)[Total(xs[..k])..Total(xs[..k]) + Width(xs[k])] == Put(xs[k], ValueOf(f, xs[k]))
  {
    hide Width, Put, ValueOf;
    PlaceFits(xs, k);
    var front := xs[..|xs| - 1];
    if k == |front| {
      assert xs[..k] == front;
    } else {
      BodyAt(f, front, k);
      assert front[..k] == xs[..k];
    }
  }

  lemma {:induction false} FillAt(g: Fcall, xs: seq<Field>, s: seq<Byte>, k: nat)
    requires |s| == Total(xs) && k < |xs|
    requires forall i, j :: 0 <= i < j < |xs| ==> xs[i] != xs[j]
    ensures Total(xs[..k]) + Width(xs[k]) <= Total(xs)
    ensures ValueOf(Fill(g, xs, s), xs[k]) == Get(xs[k], s[Total(xs[..k])..Total(xs[..k]) + Width(xs[k])])
  {
    hide Width, Get, ValueOf, WithValue, IsText;
    PlaceFits(xs, k);
    var front, x := xs[..|xs| - 1], xs[|xs| - 1];
    var h, v := Fill(g, front, s[..Total(front)]), Get(x, s[Total(front)..]);
    GetKind(x, s[Total(front)..]);
    ValueWith(h, x, v, xs[k]);
    if k == |front| {
      assert xs[..k] == front;
      assert s[Total(front)..] == s[Total(front)..Total(front) + Width(x)];
    } else {
      FillAt(g, front, s[..Total(front)], k);
      assert front[..k] == xs[..k] && xs[k] == front[k] != x;
      var at := Total(xs[..k]);
      assert s[..Total(front)][at..at + Width(xs[k])] == s[at..at + Width(xs[k])];
    }
  }

  lemma GetKind(x: Field, s: seq<Byte>)
    requires |s| == Width(x)
    ensures IsText(x) <==> Get(x, s).Text?
  {}

  lemma {:induction false} FillKeeps(g: Fcall, xs: seq<Field>, s: seq<Byte>)
    requires |s| == Total(xs)
    ensures Fill(g, xs, s).typ == g.typ && Fill(g, xs, s).tag == g.tag && Fill(g, xs, s).data == g.data
  {
    hide Width, Get, ValueOf, WithValue, IsText;
    if xs != [] {
      var front, x := xs[..|xs| - 1], xs[|xs| - 1];
      FillKeeps(g, front, s[..Total(front)]);
      GetKind(x, s[Total(front)..]);
      ValueWith(Fill(g, front, s[..Total(front)]), x, Get(x, s[Total(front)..]), x);
    }
  }

  /** The first fields, each in its place. */
  lemma FirstFields(f: Fcall, xs: seq<Field>, e: seq<Byte>)
    requires |xs| <= 4 && |e| >= 3 + Total(xs) && Agrees(f, xs, e)
    ensures |xs| > 0 ==> 3 + Width(xs[0]) <= |e| && Held(e, xs[0], 3) == ValueOf(f, xs[0])
    ensures |xs| > 1 ==>
              var at := 3 + Width(xs[0]);
              at + Width(xs[1]) <= |e| && Held(e, xs[1], at) == ValueOf(f, xs[1])
    ensures |xs| > 2 ==>
              var at := 3 + Width(xs[0]) + Width(xs[1]);
              at + Width(xs[2]) <= |e| && Held(e, xs[2], at) == ValueOf(f, xs[2])
    ensures |xs| > 3 ==>
              var at := 3 + Width(xs[0]) + Width(xs[1]) + Width(xs[2]);
              at + Width(xs[3]) <= |e| && Held(e, xs[3], at) == ValueOf(f, xs[3])
  {
    hide Total, Width, Held, ValueOf;
    if |xs| > 0 {
      TotalOf(xs[..0]);
    }
    if |xs| > 1 {
      TotalOf(xs[..1]);
    }
    if |xs| > 2 {
      TotalOf(xs[..2]);
    }
    if |xs| > 3 {
      TotalOf(xs[..3]);
    }
  }

  /** If every field agrees with its place, and the length and the data are right, the bytes are the message. */
  lemma FieldsAgree(f: Fcall, e: seq<Byte>)
    requires Known(f.typ) && |e| >= 3 + Total(Layout(f.typ)) && Agrees(f, Layout(f.typ), e)
    requires |e| == MsgLen(f.typ) + if HasData(f.typ) then f.count else 0
    requires HasData(f.typ) ==> f.count <= |f.data| && e[MsgLen(f.typ)..] == f.data[..f.count]
    ensures FieldsOnWire(f, e)
  {
    hide Total, Agrees;
    FirstFields(f, Layout(f.typ), e);
  }

  // ---- writing ----

  lemma EncodedAgrees(f: Fcall, pad: Byte)
    requires Sendable(f)
    ensures |Encode(f, pad)| >= 3 + Total(Layout(f.typ)) && Agrees(f, Layout(f.typ), Encode(f, pad))
  {
    hide Encode, Total, Layout, Put, Get, Held, Width, ValueOf, Body, Fits, MsgLen, Known;
    var e, xs := Encode(f, pad), Layout(f.typ);
    EncodedLength(f, pad);
    MsgLenIsTotal(f.typ);
    var n := 3 + Total(xs);
    var body := Body(f, xs);
    assert e[3..n] == e[..n][3..] == body;
    forall k | 0 <= k < |xs|
      ensures 3 + Total(xs[..k]) + Width(xs[k]) <= |e| && Held(e, xs[k], 3 + Total(xs[..k])) == ValueOf(f, xs[k])
    {
      BodyAt(f, xs, k);
      var at, w := Total(xs[..k]), Width(xs[k]);
      SliceOf(e, 3, n, at, w);
      GetPut(xs[k], ValueOf(f, xs[k]));
      GetIsHeld(e, xs[k], 3 + at);
    }
  }

  /** A message that may be sent is on the wire as it should be. */
  lemma EncodedOnWire(f: Fcall, pad: Byte)
    requires Sendable(f)
    ensures OnWire(f, Encode(f, pad)) && Filled(Encode(f, pad), pad)
  {
    hide Encode, Total, Layout, Held, ValueOf, Body, Fits, MsgLen, Known, FieldsOnWire, Filled;
    var e, xs := Encode(f, pad), Layout(f.typ);
    EncodedAgrees(f, pad);
    EncodedLength(f, pad);
    MsgLenIsTotal(f.typ);
    TagOnWire(f, pad);
    if HasData(f.typ) {
      EncodedTail(f, pad);
    }
    FieldsAgree(f, e);
    EncodedFilled(f, pad);
  }

  lemma TagOnWire(f: Fcall, pad: Byte)
    requires Sendable(f)
    ensures |Encode(f, pad)| >= 3 && ShortAt(Encode(f, pad), 1) == f.tag
  {
    hide Encode, Total, Layout, Body, Fits, MsgLen, Known, Num;
    var e, head := Encode(f, pad), [f.typ] + Little(f.tag, 2) + Body(f, Layout(f.typ));
    EncodedLength(f, pad);
    MsgLenIsTotal(f.typ);
    assert head[1..3] == Little(f.tag, 2);
    assert e[1..3] == e[..3 + Total(Layout(f.typ))][1..3];
    Limits();
    NumLittle(f.tag, 2);
    NumTwo(e[1..3]);
  }

  lemma EncodedTail(f: Fcall, pad: Byte)
    requires Sendable(f) && HasData(f.typ)
    ensures |Encode(f, pad)| >= MsgLen(f.typ) >= 1
    ensures Encode(f, pad)[MsgLen(f.typ)..] == f.data[..f.count] && Encode(f, pad)[MsgLen(f.typ) - 1] == pad
  {
    hide Total, Layout, Body, Fits, MsgLen, Known;
    MsgLenIsTotal(f.typ);
    EncodedLength(f, pad);
    EncodeIs(f, pad);
  }

  lemma EncodedFilled(f: Fcall, pad: Byte)
    requires Sendable(f)
    ensures Filled(Encode(f, pad), pad)
  {
    hide Encode, Total, Body, Fits;
    var e, xs := Encode(f, pad), Layout(f.typ);
    EncodedLength(f, pad);
    if HasData(f.typ) {
      EncodedTail(f, pad);
    }
    if f.typ in {14, 16} {
      MsgLenIsTotal(f.typ);
      TotalOf(xs[..1]);
      BodyAt(f, xs, 1);
      assert e[5..13] == e[..3 + Total(xs)][3..][2..10];
      assert e[9..13] == e[5..13][4..];
    }
  }

  // ---- reading ----

  /** The fields read from a head agree with it, and the rest of the message is left alone. */
  lemma FilledAgrees(g: Fcall, ap: seq<Byte>)
    requires |ap| >= 3 && |ap| >= 3 + Total(Layout(ap[0]))
    ensures var h := Fill(g.(typ := ap[0], tag := Num(ap[1..3])), Layout(ap[0]), ap[3..3 + Total(Layout(ap[0]))]);
            && h.typ == ap[0] && h.tag == ShortAt(ap, 1) && h.data == g.data && Agrees(h, Layout(ap[0]), ap)
  {
    hide Fill, Total, Layout, Get, Held, Width, ValueOf, Num;
    var g', xs := g.(typ := ap[0], tag := Num(ap[1..3])), Layout(ap[0]);
    var s := ap[3..3 + Total(xs)];
    var h := Fill(g', xs, s);
    NumTwo(ap[1..3]);
    FillKeeps(g', xs, s);
    LayoutDistinct(ap[0]);
    forall k | 0 <= k < |xs|
      ensures 3 + Total(xs[..k]) + Width(xs[k]) <= |ap| && Held(ap, xs[k], 3 + Total(xs[..k])) == ValueOf(h, xs[k])
    {
      FillAt(g', xs, s, k);
      var at, w := Total(xs[..k]), Width(xs[k]);
      SliceOf(ap, 3, 3 + Total(xs), at, w);
      GetIsHeld(ap, xs[k], 3 + at);
    }
  }

  /** There is a whole head of a type that has a count. */
  predicate HasCount(e: seq<Byte>) {
    |e| >= 7 && match e[0]
                case 14 => |e| >= 15
                case 15 => |e| >= 8
                case 16 => |e| >= 16
                case 17 => true
                case _ => false
  }

  /** The count in it. */
  function CountAt(e: seq<Byte>): nat
    requires HasCount(e)
  {
    ShortAt(e, if e[0] in {14, 16} then 13 else 5)
  }

  lemma CountIs(f: Fcall, e: seq<Byte>)
    requires Known(f.typ) && |e| >= MsgLen(f.typ) && |e| >= 3 + Total(Layout(f.typ)) && e[0] == f.typ
    requires Agrees(f, Layout(f.typ), e)
    ensures HasCount(e) <==> Count in Layout(f.typ)
    ensures HasCount(e) ==> CountAt(e) == f.count
  {
    hide Total, Agrees;
    FirstFields(f, Layout(f.typ), e);
  }

  lemma CountsLate(e: seq<Byte>)
    requires HasCount(e)
    ensures Known(e[0]) && |e| >= MsgLen(e[0])
  {}

  /** Nothing is taken for a head that is no message: one of no type, or with a count that is too large. */
  lemma Refused(g: Fcall, ap: seq<Byte>)
    ensures Parse(g, ap).Bad? <==>
            |ap| >= 3 && (ap[0] in {2, 26, 27} || ap[0] >= 30 || (HasCount(ap) && CountAt(ap) > MAXFDATA))
  {
    hide Fill, Total, Layout, MsgLen, Agrees, HasCount, CountAt;
    if |ap| >= 3 {
      MsgLenPositive(ap[0]);
      if HasCount(ap) {
        CountsLate(ap);
      }
      if Known(ap[0]) && |ap| >= MsgLen(ap[0]) {
        MsgLenIsTotal(ap[0]);
        FilledAgrees(g, ap);
        var h := Fill(g.(typ := ap[0], tag := Num(ap[1..3])), Layout(ap[0]), ap[3..3 + Total(Layout(ap[0]))]);
        CountIs(h, ap);
      }
    }
  }

  /** What is taken is the message on the wire, with its length, and other fields are left as they were. */
  lemma TakenOnWire(g: Fcall, ap: seq<Byte>)
    ensures var p := Parse(g, ap);
            p.Got? ==> p.len <= |ap| && OnWire(p.f, ap[..p.len]) && (p.f.typ !in {15, 16} ==> p.f.data == g.data)
  {
    hide Fill, Total, Layout, MsgLen, Agrees, FieldsOnWire, ValueOf;
    var p := Parse(g, ap);
    if p.Got? {
      MsgLenPositive(ap[0]);
      MsgLenIsTotal(ap[0]);
      WithCount(ap[0]);
      FilledAgrees(g, ap);
      var h := Fill(g.(typ := ap[0], tag := Num(ap[1..3])), Layout(ap[0]), ap[3..3 + Total(Layout(ap[0]))]);
      var e := ap[..p.len];
      AgreesPart(p.f, h, ap, p.len);
      assert HasData(ap[0]) ==> ap[MsgLen(ap[0])..p.len] == e[MsgLen(ap[0])..];
      FieldsAgree(p.f, e);
    }
  }

  lemma AgreesPart(f: Fcall, h: Fcall, ap: seq<Byte>, n: nat)
    requires f == h.(data := f.data)
    requires 3 + Total(Layout(h.typ)) <= n <= |ap| && Agrees(h, Layout(h.typ), ap)
    ensures Agrees(f, Layout(f.typ), ap[..n])
  {
    hide Total, Layout, Width, ValueOf, Held;
    DataApart(h, f.data);
    var xs := Layout(h.typ);
    forall k | 0 <= k < |xs|
      ensures 3 + Total(xs[..k]) + Width(xs[k]) <= n
      ensures Held(ap[..n], xs[k], 3 + Total(xs[..k])) == ValueOf(f, xs[k])
    {
      PlaceFits(xs, k);
      HeldPart(ap, xs[k], 3 + Total(xs[..k]), n);
    }
  }

  lemma HeldPart(e: seq<Byte>, x: Field, at: nat, n: nat)
    requires at + Width(x) <= n <= |e|
    ensures Held(e[..n], x, at) == Held(e, x, at)
  {
    assert e[..n][at..at + Width(x)] == e[at..at + Width(x)];
  }

  lemma WireLength(f: Fcall, e: seq<Byte>)
    requires OnWire(f, e)
    ensures Known(e[0]) && |e| == MsgLen(e[0]) + if HasData(e[0]) then f.count else 0
    ensures HasCount(e) <==> f.typ in {14, 15, 16, 17}
    ensures HasCount(e) ==> CountAt(e) == f.count
  {}

  lemma CountStays(e: seq<Byte>, rest: seq<Byte>)
    requires HasCount(e)
    ensures HasCount(e + rest) && CountAt(e + rest) == CountAt(e)
  {}

  /** A message on the wire is taken, whoever wrote it, and whatever follows. */
  lemma Taken(g: Fcall, f: Fcall, e: seq<Byte>, rest: seq<Byte>)
    requires OnWire(f, e) && (f.typ in {14, 15, 16, 17} ==> f.count <= MAXFDATA)
    ensures var p := Parse(g, e + rest);
            p.Got? && p.len == |e| && OnWire(p.f, e)
  {
    hide Fill, Total, Layout, MsgLen, Agrees, FieldsOnWire, ValueOf, HasCount, CountAt;
    var ap := e + rest;
    WireLength(f, e);
    MsgLenIsTotal(f.typ);
    WithCount(f.typ);
    CountIsOf(f.typ);
    if HasCount(e) {
      CountStays(e, rest);
    }
    FilledAgrees(g, ap);
    var h := Fill(g.(typ := ap[0], tag := Num(ap[1..3])), Layout(ap[0]), ap[3..3 + Total(Layout(ap[0]))]);
    CountIs(h, ap);
    TakenOnWire(g, ap);
    assert ap[..|e|] == e;
  }

  lemma CountIsOf(t: nat)
    ensures Count in Layout(t) <==> t in {14, 15, 16, 17}
  {}
}
