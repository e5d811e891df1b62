/** Facts about rearranged sequences that several modules share. */
module Rearrangement {
  lemma SameElements<T>(s: seq<T>, t: seq<T>)
    requires multiset(s) == multiset(t)
    ensures forall x :: x in s <==> x in t
    ensures |s| == |t|
  {
    assert forall x :: x in s <==> x in multiset(s);
    assert forall x :: x in t <==> x in multiset(t);
    assert |s| == |multiset(s)| && |t| == |multiset(t)|;
  }

  lemma TakeOut<T>(t: seq<T>, x: T) returns (before: seq<T>, after: seq<T>)
    requires x in t
    ensures t == before + [x] + after
    ensures multiset(before + after) == multiset(t) - multiset{x}
  {
    var i :| 0 <= i < |t| && t[i] == x;
    before, after := t[..i], t[i + 1..];
    assert t == before + [x] + after;
  }

  lemma ConsElements<T>(x: T, s: seq<T>)
    ensures multiset([x] + s) == multiset{x} + multiset(s)
  {
  }

  lemma PutFirst<T>(s: seq<T>, x: T) returns (rest: seq<T>)
    requires x in s
    ensures multiset([x] + rest) == multiset(s)
    ensures forall y :: y in s && y != x ==> y in rest
  {
    var before, after := TakeOut(s, x);
    rest := before + after;
    ConsElements(x, rest);
    assert x in multiset(s);
  }

  /** Any two different elements can be put first. */
  lemma BringForward<T>(s: seq<T>, a: T, b: T) returns (rest: seq<T>)
    requires a in s && b in s && a != b
    ensures multiset([a, b] + rest) == multiset(s)
  {
    var others := PutFirst(s, a);
    rest := PutFirst(others, b);
    assert [a, b] + rest == [a] + ([b] + rest);
    ConsElements(a, [b] + rest);
    ConsElements(a, others);
  }

  lemma BringThreeForward<T>(s: seq<T>, a: T, b: T, c: T) returns (rest: seq<T>)
    requires a in s && b in s && c in s && a != b && a != c && b != c
    ensures multiset([a, b, c] + rest) == multiset(s)
  {
    var others := PutFirst(s, a);
    rest := BringForward(others, b, c);
    assert [a, b, c] + rest == [a] + ([b, c] + rest);
    ConsElements(a, [b, c] + rest);
    ConsElements(a, others);
  }
}
