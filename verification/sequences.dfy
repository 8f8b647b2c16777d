/** Generic sequence helpers: Python slicing, bounded appends and listings of sets. */
module Sequences {

  function Min(a: int, b: int): int
  {
    if a <= b then a else b
  }

  /** The last `min(n, |s|)` elements of `s`, in order. */
  function Last<T>(s: seq<T>, n: nat): (r: seq<T>)
    ensures |r| == Min(|s|, n)
    ensures r == s[|s| - |r|..]
  {
    if |s| <= n then s else s[|s| - n..]
  }

  /** Keeping the last `n` of a sequence twice is the same as keeping them once at the end. */
  lemma LastConcat<T>(a: seq<T>, b: seq<T>, n: nat)
    ensures Last(Last(a, n) + b, n) == Last(a + b, n)
  {
    if |a| > n {
      assert Last(a, n) + b == (a + b)[|a| - n..];
      LastOfSuffix(a + b, |a| - n, n);
    }
  }

  /** Dropping a prefix that leaves at least `n` elements does not change the last `n`. */
  lemma LastOfSuffix<T>(s: seq<T>, k: nat, n: nat)
    requires k + n <= |s|
    ensures Last(s[k..], n) == Last(s, n)
  {
    assert s[k..][|s| - k - n..] == s[|s| - n..];
  }

  /** Where Python's `s[k:]` starts, for any integer `k`: negative values count from
      the end and out-of-range values are clamped. */
  function SliceStart(len: nat, k: int): (i: nat)
    ensures i <= len
  {
    if k < 0 then (if len + k < 0 then 0 else len + k)
    else if k > len then len
    else k
  }

  /** Python's `s[k:]`. */
  function SliceFrom<T>(s: seq<T>, k: int): seq<T>
  {
    s[SliceStart(|s|, k)..]
  }

  /** For a positive `n`, Python's `s[-n:]` is the last `n` elements. */
  lemma SliceFromNegative<T>(s: seq<T>, n: nat)
    requires n >= 1
    ensures SliceFrom(s, -(n as int)) == Last(s, n)
  {
  }

  /** Python's `s[:n]` for a non-negative `n`. */
  function Take<T>(s: seq<T>, n: nat): (r: seq<T>)
    ensures |r| == Min(|s|, n)
    ensures r <= s
  {
    s[..Min(|s|, n)]
  }

  predicate Distinct<T(==)>(s: seq<T>)
  {
    forall i, j :: 0 <= i < j < |s| ==> s[i] != s[j]
  }

  function Elems<T>(s: seq<T>): set<T>
  {
    set x | x in s
  }

  /** Regrouping a concatenation of five pieces. */
  lemma ConcatRegroup<T>(a: seq<T>, b: seq<T>, c: seq<T>, d: seq<T>, e: seq<T>)
    ensures a + (b + (c + (d + e))) == a + b + c + d + e
  {
  }

  /** A sequence without repetitions has as many distinct elements as it is long. */
  lemma {:induction false} DistinctCard<T>(s: seq<T>)
    requires Distinct(s)
    ensures |Elems(s)| == |s|
  {
    if s != [] {
      var t := s[1..];
      assert Distinct(t) by {
        forall i, j | 0 <= i < j < |t| ensures t[i] != t[j] {
          assert t[i] == s[i + 1] && t[j] == s[j + 1];
        }
      }
      DistinctCard(t);
      assert s[0] !in t by {
        forall i | 0 <= i < |t| ensures t[i] != s[0] {
          assert t[i] == s[i + 1];
        }
      }
      assert Elems(s) == {s[0]} + Elems(t) by {
        assert s == [s[0]] + t;
      }
    }
  }

  /** A sequence has at most as many distinct elements as it is long. */
  lemma {:induction false} ElemsCard<T>(s: seq<T>)
    ensures |Elems(s)| <= |s|
  {
    if s != [] {
      ElemsCard(s[1..]);
      assert Elems(s) == {s[0]} + Elems(s[1..]) by {
        assert s == [s[0]] + s[1..];
      }
    }
  }

  /** Every element of a suffix is an element of the sequence, and suffixes keep distinctness. */
  lemma SuffixOfDistinct<T>(s: seq<T>, k: nat)
    requires Distinct(s)
    requires k <= |s|
    ensures Distinct(s[k..])
    ensures Elems(s[k..]) <= Elems(s)
  {
    var t := s[k..];
    forall i, j | 0 <= i < j < |t| ensures t[i] != t[j] {
      assert t[i] == s[k + i] && t[j] == s[k + j];
    }
  }
}
