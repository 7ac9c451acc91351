/** Counting occurrences in a sequence, and concatenating the results of a
    function applied element by element. */
module Seqs {

  /** How many times `x` occurs in `s`. */
  function Count<T(==)>(s: seq<T>, x: T): (n: nat)
    ensures n <= |s|
    ensures n == 0 <==> x !in s
  {
    if s == [] then 0 else (if s[0] == x then 1 else 0) + Count(s[1..], x)
  }

  /** Counting distributes over concatenation. */
  lemma {:induction false} CountAppend<T>(a: seq<T>, b: seq<T>, x: T)
    ensures Count(a + b, x) == Count(a, x) + Count(b, x)
    decreases |a|
  {
    if a == [] {
      assert a + b == b;
    } else {
      assert (a + b)[0] == a[0];
      assert (a + b)[1..] == a[1..] + b;
      CountAppend(a[1..], b, x);
    }
  }

  /** A one-element sequence holds its element once and nothing else. */
  lemma CountSingleton<T>(y: T, x: T)
    ensures Count([y], x) == (if y == x then 1 else 0)
  {
    assert [y][1..] == [];
  }

  /** Concatenation is associative. */
  lemma AppendAssociative<T>(a: seq<T>, b: seq<T>, c: seq<T>)
    ensures a + b + c == a + (b + c)
  {
  }

  /** `f(x)` for every `x` of `s`, concatenated in the order of `s`. */
  function FlatMap<A, B>(f: A -> seq<B>, s: seq<A>): (r: seq<B>)
    ensures s == [] ==> r == []
    ensures |s| == 1 ==> r == f(s[0])
    decreases |s|
  {
    if s == [] then [] else f(s[0]) + FlatMap(f, s[1..])
  }

  /** Mapping distributes over concatenation. */
  lemma {:induction false} FlatMapAppend<A, B>(f: A -> seq<B>, a: seq<A>, b: seq<A>)
    ensures FlatMap(f, a + b) == FlatMap(f, a) + FlatMap(f, b)
    decreases |a|
  {
    if a == [] {
      assert a + b == b;
    } else {
      assert (a + b)[0] == a[0];
      assert (a + b)[1..] == a[1..] + b;
      FlatMapAppend(f, a[1..], b);
    }
  }

  /** Splitting the input at `j` splits the result between the two parts. */
  lemma FlatMapSplit<A, B>(f: A -> seq<B>, s: seq<A>, j: nat)
    requires j <= |s|
    ensures FlatMap(f, s) == FlatMap(f, s[..j]) + FlatMap(f, s[j..])
  {
    assert s == s[..j] + s[j..];
    FlatMapAppend(f, s[..j], s[j..]);
  }

  /** The part contributed by the element at position `j` sits between the
      parts of the elements before it and those after it. */
  lemma FlatMapAt<A, B>(f: A -> seq<B>, s: seq<A>, j: nat)
    requires j < |s|
    ensures FlatMap(f, s) == FlatMap(f, s[..j]) + f(s[j]) + FlatMap(f, s[j + 1..])
  {
    FlatMapSplit(f, s, j);
    assert s[j..][1..] == s[j + 1..];
  }

  /** The result is empty exactly when every element contributes nothing. */
  lemma {:induction false} FlatMapEmptyIff<A, B>(f: A -> seq<B>, s: seq<A>)
    ensures FlatMap(f, s) == [] <==> forall i :: 0 <= i < |s| ==> f(s[i]) == []
    decreases |s|
  {
    if s != [] {
      FlatMapEmptyIff(f, s[1..]);
      assert forall i :: 1 <= i < |s| ==> s[1..][i - 1] == s[i];
    }
  }

  /** A property every contribution has for all its elements holds for every
      element of the result. */
  lemma {:induction false} FlatMapAll<A, B>(f: A -> seq<B>, s: seq<A>, p: B -> bool)
    requires forall i, y :: 0 <= i < |s| && y in f(s[i]) ==> p(y)
    ensures forall y <- FlatMap(f, s) :: p(y)
    decreases |s|
  {
    if s != [] {
      assert forall i, y :: 0 <= i < |s[1..]| && y in f(s[1..][i]) ==> p(y) by {
        forall i, y | 0 <= i < |s[1..]| && y in f(s[1..][i]) ensures p(y) {
          assert s[1..][i] == s[i + 1];
        }
      }
      FlatMapAll(f, s[1..], p);
    }
  }
}
