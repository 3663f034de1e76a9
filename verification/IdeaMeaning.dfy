/**
 What `idea_cipher` of `crypt/idea.c` computes: the eight rounds of the cipher and its output transformation,
 as equations between words.
 */
module IdeaMeaning {
  import opened Bits
  import opened Octets
  import opened Multiples
  import opened Arith
  import opened Fermat
  import opened FermatPrime
  import opened Idea

  /** The product modulo 65537 of the numbers two words stand for, where 0 stands for 65536. */
  function Times(x: Half, y: Half): Half {
    var a, b := if x == 0 then 65536 else x as int, if y == 0 then 65536 else y as int;
    var p := a * b % 65537;
    if p == 65536 then 0 else p
  }

  /** The sum modulo 65536. */
  function Plus(x: Half, y: Half): Half { (x + y) % 65536 }

  function Differ(x: Half, y: Half): (z: Half)
    ensures z == Xor(x, y)
  {
    SixteenTwos();
    XorBelow(x, y, 16);
    Xor(x, y)
  }

  /** One round, with six words z of the key, from x to y. */
  ghost predicate RoundOf(z: seq<Half>, x: Quad, y: Quad)
    requires |z| == 6
  {
    var a, b, c, d := Times(x.x0, z[0]), Plus(x.x1, z[1]), Plus(x.x2, z[2]), Times(x.x3, z[3]);
    var t := Times(Differ(a, c), z[4]);
    var u := Times(Plus(t, Differ(b, d)), z[5]);
    var v := Plus(t, u);
    y.x0 == Xor(a, u) && y.x1 == Xor(c, u) && y.x2 == Xor(b, v) && y.x3 == Xor(d, v)
  }

  /** The output transformation, with four words z of the key; the middle words change places. */
  ghost predicate OutputOf(z: seq<Half>, x: Quad, y: Quad)
    requires |z| == 4
  {
    && y.x0 == Times(x.x0, z[0]) && y.x1 == Plus(x.x2, z[2])
    && y.x2 == Plus(x.x1, z[1]) && y.x3 == Times(x.x3, z[3])
  }

  /** The bytes t are the words x, the high byte of each first. */
  predicate WordsOf(t: seq<Byte>, x: Quad) {
    && |t| == 8
    && x.x0 == 256 * t[0] as int + t[1] && x.x1 == 256 * t[2] as int + t[3]
    && x.x2 == 256 * t[4] as int + t[5] && x.x3 == 256 * t[6] as int + t[7]
  }

  /** The text c is the text t, ciphered with the 52 words k, through the words xs before and after the rounds. */
  ghost predicate CipheredThrough(k: seq<Half>, t: seq<Byte>, c: seq<Byte>, xs: seq<Quad>, y: Quad)
    requires |k| == 52
  {
    && |xs| == 9 && WordsOf(t, xs[0])
    && (forall j :: 0 <= j < 8 ==> RoundOf(k[6 * j..6 * j + 6], xs[j], xs[j + 1]))
    && OutputOf(k[48..], xs[8], y) && WordsOf(c, y)
  }

  ghost predicate Ciphered(k: seq<Half>, t: seq<Byte>, c: seq<Byte>)
    requires |k| == 52
  {
    exists xs: seq<Quad>, y: Quad :: CipheredThrough(k, t, c, xs, y)
  }

  // ---- the operations ----

  /** `mod` is that product. */
  lemma ModIsTimes(x: Half, y: Half)
    ensures Mod(x, y) == Times(x, y) == Times(y, x)
  {
    hide Mod, Congruent;
    var a, b := Value(x), Value(y);
    ModIsProduct(x, y);
    Swapped(a, b);
    CongruentRemainder(Value(Mod(x, y)), a * b);
  }

  lemma Swapped(a: int, b: int)
    ensures a * b == b * a
  {}

  lemma CongruentRemainder(v: int, n: int)
    requires Congruent(v, n, MODM) && 1 <= v <= 65536
    ensures v == n % 65537
  {}

  // ---- the rounds ----

  lemma FirstHalf(k: seq<Half>, j: nat, x: Quad)
    requires |k| == 52 && j <= 8
    ensures Step(k, 2 * j, x) == Quad(Times(x.x0, k[6 * j]), Plus(x.x2, k[6 * j + 2]), Plus(x.x1, k[6 * j + 1]),
                                      Times(x.x3, k[6 * j + 3]))
  {
    hide Mod, Times;
    StepWords(k, 2 * j);
    ModIsTimes(x.x0, k[6 * j]);
    ModIsTimes(x.x3, k[6 * j + 3]);
  }

  lemma SecondHalf(k: seq<Half>, j: nat, x: Quad)
    requires |k| == 52 && j < 8
    ensures var t := Times(Differ(x.x0, x.x1), k[6 * j + 4]);
            var u := Times(Plus(t, Differ(x.x2, x.x3)), k[6 * j + 5]);
            var v := Plus(t, u);
            Step(k, 2 * j + 1, x) == Quad(Differ(x.x0, u), Differ(x.x1, u), Differ(x.x2, v), Differ(x.x3, v))
  {
    hide Mod, Times, Xor;
    StepWords(k, 2 * j + 1);
    var t := Times(Differ(x.x0, x.x1), k[6 * j + 4]);
    ModIsTimes(k[6 * j + 4], Differ(x.x0, x.x1));
    ModIsTimes(Plus(t, Differ(x.x2, x.x3)), k[6 * j + 5]);
  }

  lemma RoundIs(k: seq<Half>, j: nat, x: Quad, y: Quad)
    requires |k| == 52 && j < 8
    ensures RoundOf(k[6 * j..6 * j + 6], x, y) <==> y == Step(k, 2 * j + 1, Step(k, 2 * j, x))
  {
    hide Times, Plus, Xor, Step;
    FirstHalf(k, j, x);
    SecondHalf(k, j, Step(k, 2 * j, x));
  }

  lemma OutputIs(k: seq<Half>, x: Quad, y: Quad)
    requires |k| == 52
    ensures OutputOf(k[48..], x, y) <==> y == Step(k, 16, x)
  {
    hide Times, Plus, Step;
    FirstHalf(k, 8, x);
  }

  lemma WordsAre(t: seq<Byte>, x: Quad)
    requires |t| == 8
    ensures WordsOf(t, x) <==> x == Pack(t)
    ensures WordsOf(t, x) <==> t == Unpack(x)
  {
    PackUnpack(t, x);
  }

  lemma {:induction false} ThroughSteps(k: seq<Half>, xs: seq<Quad>, n: nat)
    requires |k| == 52 && |xs| == 9 && n <= 8
    requires forall j :: 0 <= j < 8 ==> RoundOf(k[6 * j..6 * j + 6], xs[j], xs[j + 1])
    ensures Steps(k, 2 * n, xs[0]) == xs[n]
  {
    hide Step, RoundOf;
    if n > 0 {
      ThroughSteps(k, xs, n - 1);
      RoundIs(k, n - 1, xs[n - 1], xs[n]);
      StepsNext(k, 2 * n - 2, xs[0]);
      StepsNext(k, 2 * n - 1, xs[0]);
    } else {
      StepsNone(k, xs[0]);
    }
  }

  /** The cipher of the code is the one of the equations, and nothing else is. */
  lemma IdeaMeans(k: seq<Half>, t: seq<Byte>, c: seq<Byte>)
    requires |k| == 52 && |t| == 8
    ensures Ciphered(k, t, c) <==> c == Cipher(k, t)
  {
    hide Steps, Step, RoundOf, OutputOf, WordsOf, Pack, Unpack;
    if Ciphered(k, t, c) {
      var xs: seq<Quad>, y: Quad :| CipheredThrough(k, t, c, xs, y);
      ThroughSteps(k, xs, 8);
      StepsNext(k, 16, xs[0]);
      OutputIs(k, xs[8], y);
      WordsAre(t, xs[0]);
      WordsAreOf(c, y);
    }
    if c == Cipher(k, t) {
      var xs := RoundsRun(k, t);
      var y := Step(k, 16, xs[8]);
      ThroughSteps(k, xs, 8);
      StepsNext(k, 16, xs[0]);
      OutputIs(k, xs[8], y);
      WordsAre(t, xs[0]);
      WordsAre(c, y);
      assert CipheredThrough(k, t, c, xs, y);
    }
  }

  lemma WordsAreOf(c: seq<Byte>, y: Quad)
    requires WordsOf(c, y)
    ensures c == Unpack(y)
  {
    WordsAre(c, y);
  }

  /** The words before and after every round. */
  lemma RoundsRun(k: seq<Half>, t: seq<Byte>) returns (xs: seq<Quad>)
    requires |k| == 52 && |t| == 8
    ensures |xs| == 9 && WordsOf(t, xs[0])
    ensures forall j :: 0 <= j < 8 ==> RoundOf(k[6 * j..6 * j + 6], xs[j], xs[j + 1])
  {
    hide Step, RoundOf, WordsOf, Pack;
    var x := Pack(t);
    xs := seq(9, j requires 0 <= j < 9 => Steps(k, 2 * j, x));
    WordsAre(t, x);
    StepsNone(k, x);
    forall j | 0 <= j < 8
      ensures RoundOf(k[6 * j..6 * j + 6], xs[j], xs[j + 1])
    {
      StepsNext(k, 2 * j, x);
      StepsNext(k, 2 * j + 1, x);
      RoundIs(k, j, xs[j], xs[j + 1]);
    }
  }
}
