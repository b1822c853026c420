/** Generic facts about sequences: duplicates, repeat counts, flattening and pigeonholes. */
module Seqs {

  /** No element of `s` occurs at two different positions. */
  ghost predicate NoDup<T>(s: seq<T>) {
    forall p, q :: 0 <= p < q < |s| ==> s[p] != s[q]
  }

  /** The set of values that occur in `s`. */
  ghost function Distinct<T>(s: seq<T>): set<T> {
    set x | x in s
  }

  /** How many elements of `s` repeat a value that already occurred earlier. */
  ghost function Repeats<T>(s: seq<T>): int {
    |s| - |Distinct(s)|
  }

  /** Concatenation of `f(x)` over the elements `x` of `xs`, in order. */
  function FlatMap<A, B>(f: A -> seq<B>, xs: seq<A>): seq<B>
    decreases |xs|
  {
    if xs == [] then [] else FlatMap(f, xs[..|xs| - 1]) + f(xs[|xs| - 1])
  }

  /** Extending a prefix of `b` by its next element. */
  lemma PrefixStep<T>(a: seq<T>, b: seq<T>, j: nat)
    requires j < |b|
    ensures a + b[..j] + [b[j]] == a + b[..j + 1]
  {
    assert b[..j + 1] == b[..j] + [b[j]];
  }

  /** The position of a value that occurs in a sequence (its first occurrence). */
  function IndexOf<T(==)>(s: seq<T>, x: T): (k: nat)
    requires x in s
    ensures k < |s| && s[k] == x
  {
    if s[0] == x then 0 else 1 + IndexOf(s[1..], x)
  }

  /** Each element appended to a sequence adds one repeat exactly when its value was already there. */
  lemma RepeatsSnoc<T>(s: seq<T>, x: T)
    ensures Repeats(s + [x]) == Repeats(s) + (if x in s then 1 else 0)
  {
    forall y ensures y in Distinct(s + [x]) <==> y in Distinct(s) || y == x {
      assert y in s + [x] <==> y in s || y == x;
    }
    assert Distinct(s + [x]) == Distinct(s) + {x};
    if x in s {
      assert Distinct(s + [x]) == Distinct(s);
    } else {
      assert x !in Distinct(s);
    }
  }

  /** How many elements of `s` repeat a value already in `seen` or earlier in `s`. */
  ghost function Collisions<T>(seen: seq<T>, s: seq<T>): nat
    decreases |s|
  {
    if s == [] then 0
    else Collisions(seen, s[..|s| - 1]) + (if s[|s| - 1] in seen + s[..|s| - 1] then 1 else 0)
  }

  /** Appending `s` adds exactly its collisions with what came before to the repeat count. */
  lemma {:induction false} RepeatsAppend<T>(seen: seq<T>, s: seq<T>)
    ensures Repeats(seen + s) == Repeats(seen) + Collisions(seen, s)
    decreases |s|
  {
    if s == [] {
      assert seen + s == seen;
    } else {
      var init, x := s[..|s| - 1], s[|s| - 1];
      assert seen + s == (seen + init) + [x];
      RepeatsAppend(seen, init);
      RepeatsSnoc(seen + init, x);
    }
  }

  /** A sequence never has fewer elements than distinct values. */
  lemma {:induction false} RepeatsNonNegative<T>(s: seq<T>)
    ensures Repeats(s) >= 0
    decreases |s|
  {
    if s != [] {
      var init := s[..|s| - 1];
      assert s == init + [s[|s| - 1]];
      RepeatsNonNegative(init);
      RepeatsSnoc(init, s[|s| - 1]);
    }
  }

  /** A sequence has no repeats exactly when it has no duplicated element. */
  lemma {:induction false} NoDupIffNoRepeats<T>(s: seq<T>)
    ensures NoDup(s) <==> Repeats(s) == 0
    decreases |s|
  {
    if s == [] {
      assert Distinct(s) == {};
    } else {
      var init, x := s[..|s| - 1], s[|s| - 1];
      assert s == init + [x];
      NoDupIffNoRepeats(init);
      RepeatsSnoc(init, x);
      RepeatsNonNegative(init);
      if NoDup(s) {
        assert NoDup(init);
        assert x !in init by {
          forall p | 0 <= p < |init| ensures init[p] != x {
            assert s[p] == init[p] && s[|s| - 1] == x;
          }
        }
      }
      if Repeats(s) == 0 {
        assert x !in init && NoDup(init);
        forall p, q | 0 <= p < q < |s| ensures s[p] != s[q] {
          if q < |s| - 1 {
            assert s[p] == init[p] && s[q] == init[q];
          } else {
            assert s[p] == init[p] && init[p] in init;
          }
        }
      }
    }
  }

  /** The number of repeats depends only on the multiset of elements. */
  lemma RepeatsPermutation<T>(s: seq<T>, t: seq<T>)
    requires multiset(s) == multiset(t)
    ensures Repeats(s) == Repeats(t)
  {
    assert |s| == |multiset(s)| == |multiset(t)| == |t|;
    forall x ensures x in Distinct(s) <==> x in Distinct(t) {
      assert x in s <==> x in multiset(s);
      assert x in t <==> x in multiset(t);
    }
    assert Distinct(s) == Distinct(t);
  }

  lemma {:induction false} FlatMapAppend<A, B>(f: A -> seq<B>, xs: seq<A>, ys: seq<A>)
    ensures FlatMap(f, xs + ys) == FlatMap(f, xs) + FlatMap(f, ys)
    decreases |ys|
  {
    if ys == [] {
      assert xs + ys == xs;
    } else {
      var init := ys[..|ys| - 1];
      assert (xs + ys)[..|xs + ys| - 1] == xs + init;
      assert (xs + ys)[|xs + ys| - 1] == ys[|ys| - 1];
      FlatMapAppend(f, xs, init);
    }
  }

  /** Reordering the input only reorders the flattened output. */
  lemma {:induction false} FlatMapPermutation<A, B>(f: A -> seq<B>, xs: seq<A>, ys: seq<A>)
    requires multiset(xs) == multiset(ys)
    ensures multiset(FlatMap(f, xs)) == multiset(FlatMap(f, ys))
    decreases |xs|
  {
    if xs == [] {
      assert |ys| == |multiset(ys)| == 0;
    } else {
      var n := |xs| - 1;
      var x := xs[n];
      assert x in multiset(ys);
      var k := IndexOf(ys, x);
      var rest := ys[..k] + ys[k + 1..];
      RemoveAt(ys, k);
      assert multiset(xs) == multiset(xs[..n]) + multiset{x} by {
        assert xs == xs[..n] + [x];
      }
      MultisetCancel(multiset(xs[..n]), multiset(rest), x);
      FlatMapPermutation(f, xs[..n], rest);
      FlatMapRemoveAt(f, ys, k);
      assert FlatMap(f, xs) == FlatMap(f, xs[..n]) + f(x);
    }
  }

  lemma RemoveAt<T>(ys: seq<T>, k: nat)
    requires k < |ys|
    ensures ys == ys[..k] + [ys[k]] + ys[k + 1..]
    ensures multiset(ys) == multiset(ys[..k] + ys[k + 1..]) + multiset{ys[k]}
  {
    assert ys == ys[..k] + [ys[k]] + ys[k + 1..];
  }

  lemma MultisetCancel<T>(a: multiset<T>, b: multiset<T>, x: T)
    requires a + multiset{x} == b + multiset{x}
    ensures a == b
  {
    forall y ensures a[y] == b[y] {
      assert (a + multiset{x})[y] == a[y] + multiset{x}[y];
      assert (b + multiset{x})[y] == b[y] + multiset{x}[y];
    }
  }

  /** The flattening of `ys` holds that of `ys` without position `k`, plus `f(ys[k])`. */
  lemma FlatMapRemoveAt<A, B>(f: A -> seq<B>, ys: seq<A>, k: nat)
    requires k < |ys|
    ensures multiset(FlatMap(f, ys)) == multiset(FlatMap(f, ys[..k] + ys[k + 1..])) + multiset(f(ys[k]))
  {
    var x := ys[k];
    RemoveAt(ys, k);
    assert FlatMap(f, [x]) == f(x) by {
      assert [x][..0] == [];
    }
    FlatMapAppend(f, ys[..k] + [x], ys[k + 1..]);
    FlatMapAppend(f, ys[..k], [x]);
    FlatMapAppend(f, ys[..k], ys[k + 1..]);
  }

  /** The integers 0 .. n-1. */
  ghost function Range(n: nat): set<int> {
    if n == 0 then {} else Range(n - 1) + {n - 1}
  }

  lemma {:induction false} RangeSize(n: nat)
    ensures |Range(n)| == n
    ensures forall i :: i in Range(n) <==> 0 <= i < n
  {
    if n > 0 {
      RangeSize(n - 1);
    }
  }

  lemma SubsetSize<T>(a: set<T>, b: set<T>)
    requires a <= b
    ensures |a| <= |b|
  {
    assert b == a + (b - a);
  }

  /** Pairwise distinct values drawn from 0 .. n-1 number at most n. */
  lemma Pigeonhole(w: seq<int>, n: nat)
    requires NoDup(w)
    requires forall k :: 0 <= k < |w| ==> 0 <= w[k] < n
    ensures |w| <= n
  {
    NoDupIffNoRepeats(w);
    RangeSize(n);
    assert Distinct(w) <= Range(n);
    SubsetSize(Distinct(w), Range(n));
    RangeSize(n);
  }
}
