/** Sequences without repetition. */
module Sequences {

  predicate NoDup<T(==)>(s: seq<T>) {
    forall i, j :: 0 <= i < j < |s| ==> s[i] != s[j]
  }

  lemma InTail<T>(s: seq<T>, q: T)
    requires s != [] && NoDup(s)
    ensures q in s[1..] <==> q in s && q != s[0]
    ensures NoDup(s[1..])
  {
    if q in s && q != s[0] {
      var i :| 0 <= i < |s| && s[i] == q;
      assert s[1..][i - 1] == q;
    }
  }

  /** Without the first occurrence of q. */
  function Except<T(==)>(s: seq<T>, q: T): seq<T> {
    if s == [] then [] else if s[0] == q then s[1..] else [s[0]] + Except(s[1..], q)
  }

  lemma {:induction false} ExceptMeans<T>(s: seq<T>, q: T)
    requires NoDup(s)
    ensures NoDup(Except(s, q)) && forall x :: x in Except(s, q) <==> x in s && x != q
  {
    if s != [] {
      ExceptMeans(s[1..], q);
      assert forall x: T :: x in s <==> x == s[0] || x in s[1..];
      assert s[0] !in s[1..];
    }
  }

  lemma {:induction false} ExceptLength<T>(s: seq<T>, q: T)
    requires q in s
    ensures |Except(s, q)| == |s| - 1
  {
    if s[0] != q {
      ExceptLength(s[1..], q);
    }
  }

  lemma {:induction false} ExceptNone<T>(s: seq<T>, q: T)
    requires q !in s
    ensures Except(s, q) == s
  {
    if s != [] {
      ExceptNone(s[1..], q);
    }
  }

  lemma {:induction false} ExceptAt<T>(s: seq<T>, k: nat)
    requires k < |s| && NoDup(s)
    ensures Except(s, s[k]) == s[..k] + s[k + 1..]
  {
    if k == 0 {
      assert s[..0] + s[1..] == s[1..];
    } else {
      assert s[0] != s[k];
      InTail(s, s[0]);
      ExceptAt(s[1..], k - 1);
      assert s[..k] + s[k + 1..] == [s[0]] + (s[1..][..k - 1] + s[1..][k..]);
    }
  }
}
