/** Counting facts about finite sets and sequences used by both stages. */
module Finite {

  /** All ordered pairs of two distinct elements of `a`. */
  function OffDiagonal<T>(a: set<T>): set<(T, T)>
  {
    set x, y | x in a && y in a && x != y :: (x, y)
  }

  /** The elements of a sequence, as a set. */
  function Elements<T>(s: seq<T>): set<T>
  {
    set x | x in s
  }

  /** No element occurs twice. */
  predicate Distinct<T(==)>(s: seq<T>)
  {
    forall i, j | 0 <= i < |s| && 0 <= j < |s| && s[i] == s[j] :: i == j
  }

  /** The set of values `f` takes on `s`. */
  function Image<A, B>(s: set<A>, f: A -> B): set<B>
  {
    set x | x in s :: f(x)
  }

  /** The union of the sets `f(k)` over the keys `k` in `keys`. */
  function UnionOver<K, T>(keys: set<K>, f: K -> set<T>): set<T>
  {
    set k, x | k in keys && x in f(k) :: x
  }

  lemma UnionOverOneMore<K, T>(keys: set<K>, k: K, f: K -> set<T>)
    ensures UnionOver(keys + {k}, f) == UnionOver(keys, f) + f(k)
  {
  }

  /** The union of the sets `f(k)` over the keys of `ks`, gathered in order. */
  function UnionAlong<K, T>(ks: seq<K>, f: K -> set<T>): set<T>
  {
    if ks == [] then {} else UnionAlong(ks[..|ks| - 1], f) + f(ks[|ks| - 1])
  }

  /**
   * When every element of `f(k)` carries its key `k`, an element is in the
   * union exactly when its own key is one of `keys` and it is in that key's set.
   */
  lemma UnionOverKeyed<K, T>(keys: set<K>, f: K -> set<T>, key: T -> K, x: T)
    requires forall k, y | k in keys && y in f(k) :: key(y) == k
    ensures x in UnionOver(keys, f) <==> key(x) in keys && x in f(key(x))
  {
  }

  /** One more key adds its set. */
  lemma UnionAlongStep<K, T>(ks: seq<K>, i: nat, f: K -> set<T>)
    requires i < |ks|
    ensures UnionAlong(ks[..i + 1], f) == UnionAlong(ks[..i], f) + f(ks[i])
  {
    assert ks[..i + 1][..i] == ks[..i];
  }

  /** Gathering key by key gives the union over the keys visited. */
  lemma {:induction false} UnionAlongIsUnionOver<K, T>(ks: seq<K>, f: K -> set<T>)
    ensures UnionAlong(ks, f) == UnionOver(Elements(ks), f)
  {
    if ks != [] {
      var init := ks[..|ks| - 1];
      var last := ks[|ks| - 1];
      UnionAlongIsUnionOver(init, f);
      assert ks == init + [last];
      assert Elements(ks) == Elements(init) + {last};
      UnionOverOneMore(Elements(init), last, f);
    }
  }

  /** A subset is no larger than the set containing it. */
  lemma SubsetSize<T>(a: set<T>, b: set<T>)
    requires a <= b
    ensures |a| <= |b|
  {
    assert b == a + (b - a);
  }

  /** A proper subset is strictly smaller. */
  lemma ProperSubsetSize<T>(a: set<T>, b: set<T>)
    requires a < b
    ensures |a| < |b|
  {
    assert b == a + (b - a);
    assert b - a != {};
  }

  /** An injective function maps a set onto a set of the same size. */
  lemma {:induction false} InjectiveImageSize<A, B>(s: set<A>, f: A -> B)
    requires forall x, y | x in s && y in s && f(x) == f(y) :: x == y
    ensures |Image(s, f)| == |s|
  {
    if s != {} {
      var x :| x in s;
      var rest := s - {x};
      InjectiveImageSize(rest, f);
      assert Image(s, f) == Image(rest, f) + {f(x)};
      assert f(x) !in Image(rest, f);
    }
  }

  /** The pairs (x, y) with y in b. */
  function PairsFrom<T>(x: T, b: set<T>): set<(T, T)>
  {
    set y | y in b :: (x, y)
  }

  /** The pairs (y, x) with y in b. */
  function PairsTo<T>(x: T, b: set<T>): set<(T, T)>
  {
    set y | y in b :: (y, x)
  }

  lemma {:induction false} PairsFromSize<T>(x: T, b: set<T>)
    ensures |PairsFrom(x, b)| == |b|
  {
    if b != {} {
      var y :| y in b;
      PairsFromSize(x, b - {y});
      assert PairsFrom(x, b) == PairsFrom(x, b - {y}) + {(x, y)};
      assert (x, y) !in PairsFrom(x, b - {y});
    }
  }

  lemma {:induction false} PairsToSize<T>(x: T, b: set<T>)
    ensures |PairsTo(x, b)| == |b|
  {
    if b != {} {
      var y :| y in b;
      PairsToSize(x, b - {y});
      assert PairsTo(x, b) == PairsTo(x, b - {y}) + {(y, x)};
      assert (y, x) !in PairsTo(x, b - {y});
    }
  }

  lemma OffDiagonalSplit<T>(a: set<T>, x: T)
    requires x in a
    ensures OffDiagonal(a) == OffDiagonal(a - {x}) + PairsFrom(x, a - {x}) + PairsTo(x, a - {x})
    ensures OffDiagonal(a - {x}) !! PairsFrom(x, a - {x})
    ensures OffDiagonal(a - {x}) !! PairsTo(x, a - {x})
    ensures PairsFrom(x, a - {x}) !! PairsTo(x, a - {x})
  {
  }

  /** A union of three pairwise disjoint sets has the sum of their sizes. */
  lemma ThreeWaySize<T>(all: set<T>, d: set<T>, f: set<T>, t: set<T>)
    requires all == d + f + t && d !! f && d !! t && f !! t
    ensures |all| == |d| + |f| + |t|
  {
    assert |d + f| == |d| + |f|;
  }

  /** The number of ordered pairs of distinct elements of an n-element set. */
  function OrderedPairs(n: nat): nat
  {
    n * (n - 1)
  }

  lemma OnePairMore(k: nat)
    ensures OrderedPairs(k) + k + k == OrderedPairs(k + 1)
  {
  }

  lemma MulStep(k: int, c: int)
    ensures (k + 1) * c == k * c + c
  {
  }

  /** There are |a| * (|a| - 1) ordered pairs of distinct elements of `a`. */
  lemma {:induction false} OffDiagonalSize<T>(a: set<T>)
    ensures |OffDiagonal(a)| == OrderedPairs(|a|)
  {
    if a != {} {
      var x :| x in a;
      var b := a - {x};
      OffDiagonalSize(b);
      OffDiagonalSplit(a, x);
      PairsFromSize(x, b);
      PairsToSize(x, b);
      var k := |b|;
      ThreeWaySize(OffDiagonal(a), OffDiagonal(b), PairsFrom(x, b), PairsTo(x, b));
      assert |a| == k + 1;
      OnePairMore(k);
    }
  }

  /** Appending a new element keeps a sequence free of repetitions. */
  lemma DistinctAppend<T>(s: seq<T>, x: T)
    requires Distinct(s) && x !in s
    ensures Distinct(s + [x]) && Elements(s + [x]) == Elements(s) + {x}
  {
    var t := s + [x];
    forall i, j | 0 <= i < |t| && 0 <= j < |t| && t[i] == t[j] ensures i == j {
      if i < |s| && j < |s| {
        assert s[i] == s[j];
      }
    }
  }

  /** A sequence without repetitions has as many elements as its set. */
  lemma {:induction false} DistinctSize<T>(s: seq<T>)
    requires Distinct(s)
    ensures |Elements(s)| == |s|
  {
    if s != [] {
      var init := s[..|s| - 1];
      assert Distinct(init) by {
        forall i, j | 0 <= i < |init| && 0 <= j < |init| && init[i] == init[j] ensures i == j {
          assert s[i] == s[j];
        }
      }
      DistinctSize(init);
      assert s == init + [s[|s| - 1]];
      assert Elements(s) == Elements(init) + {s[|s| - 1]};
      forall k | 0 <= k < |init| ensures init[k] != s[|s| - 1] {
        assert init[k] == s[k];
      }
    }
  }

  /** The sum of `f` over the elements of `vs`, in order. */
  function SumOf<T>(vs: seq<T>, f: T -> int): int
  {
    if vs == [] then 0 else SumOf(vs[..|vs| - 1], f) + f(vs[|vs| - 1])
  }

  /** The sum of a real-valued `f` over the elements of `vs`, in order. */
  function RealSumOf<T>(vs: seq<T>, f: T -> real): real
  {
    if vs == [] then 0.0 else RealSumOf(vs[..|vs| - 1], f) + f(vs[|vs| - 1])
  }

  /** The largest value of `f` on the elements of a non-empty `vs`. */
  function MaxOf<T>(vs: seq<T>, f: T -> int): (r: int)
    requires vs != []
    ensures forall i | 0 <= i < |vs| :: f(vs[i]) <= r
    ensures exists i | 0 <= i < |vs| :: f(vs[i]) == r
  {
    if |vs| == 1 then f(vs[0])
    else
      var init := vs[..|vs| - 1];
      var m := MaxOf(init, f);
      assert forall i | 0 <= i < |init| :: vs[i] == init[i];
      if f(vs[|vs| - 1]) > m then f(vs[|vs| - 1]) else m
  }

  lemma SumOfAppend<T>(vs: seq<T>, x: T, f: T -> int)
    ensures SumOf(vs + [x], f) == SumOf(vs, f) + f(x)
  {
    assert (vs + [x])[..|vs|] == vs;
  }

  /** Summing bounded values: lo <= f <= hi on `vs` bounds the sum by |vs| * lo and |vs| * hi. */
  lemma {:induction false} SumOfBounds<T>(vs: seq<T>, f: T -> int, lo: int, hi: int)
    requires forall i | 0 <= i < |vs| :: lo <= f(vs[i]) <= hi
    ensures |vs| * lo <= SumOf(vs, f) <= |vs| * hi
  {
    if vs != [] {
      var init := vs[..|vs| - 1];
      assert forall i | 0 <= i < |init| :: init[i] == vs[i];
      SumOfBounds(init, f, lo, hi);
      MulStep(|init|, lo);
      MulStep(|init|, hi);
    }
  }

  /** The real-valued counterpart of `SumOfBounds`. */
  lemma {:induction false} RealSumOfBounds<T>(vs: seq<T>, f: T -> real, lo: real, hi: real)
    requires forall i | 0 <= i < |vs| :: lo <= f(vs[i]) <= hi
    ensures |vs| as real * lo <= RealSumOf(vs, f) <= |vs| as real * hi
  {
    if vs != [] {
      var init := vs[..|vs| - 1];
      assert forall i | 0 <= i < |init| :: init[i] == vs[i];
      RealSumOfBounds(init, f, lo, hi);
    }
  }

  /** Sums are additive: shifting `f` by `d` shifts the sum by the sum of `d`. */
  lemma {:induction false} SumOfShift<T>(vs: seq<T>, f: T -> int, g: T -> int, d: T -> int)
    requires forall i | 0 <= i < |vs| :: g(vs[i]) == f(vs[i]) + d(vs[i])
    ensures SumOf(vs, g) == SumOf(vs, f) + SumOf(vs, d)
  {
    if vs != [] {
      var init := vs[..|vs| - 1];
      assert forall i | 0 <= i < |init| :: init[i] == vs[i];
      SumOfShift(init, f, g, d);
    }
  }

  /** One for each of `u` and `v` (two when they coincide), zero elsewhere. */
  function EndCount<T(==)>(u: T, v: T): T -> int
  {
    w => (if w == u then 1 else 0) + (if w == v then 1 else 0)
  }

  /** Over a repetition-free sequence, `EndCount(u, v)` sums to the number of ends present. */
  lemma {:induction false} SumOfEndCount<T>(vs: seq<T>, u: T, v: T)
    requires Distinct(vs)
    ensures SumOf(vs, EndCount(u, v)) == (if u in vs then 1 else 0) + (if v in vs then 1 else 0)
  {
    if vs != [] {
      var init := vs[..|vs| - 1];
      var last := vs[|vs| - 1];
      assert forall i | 0 <= i < |init| :: init[i] == vs[i];
      assert Distinct(init);
      SumOfEndCount(init, u, v);
      assert vs == init + [last];
      assert last !in init;
    }
  }

  /** Dividing a total of n values in [lo, hi] by n gives a mean in [lo, hi]. */
  lemma MeanBounds(total: real, n: real, lo: real, hi: real)
    requires n > 0.0 && n * lo <= total <= n * hi
    ensures lo <= total / n <= hi
  {
    assert (total / n) * n == total;
  }
}
