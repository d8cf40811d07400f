/** Sequence operations shared by the list comprehensions and append-loops of the scripts. */
module Seqs {

  /** The elements of `s` satisfying `p`, in their original order (a Python comprehension
      `[x for x in s if p(x)]`). Defined from the back so that an append-loop matches it. */
  function Filter<T>(s: seq<T>, p: T -> bool): (r: seq<T>)
    ensures |r| <= |s|
    decreases |s|
  {
    if s == [] then []
    else
      var init, last := s[..|s| - 1], s[|s| - 1];
      Filter(init, p) + (if p(last) then [last] else [])
  }

  /** An element survives filtering exactly when it occurs in `s` and satisfies `p`. */
  lemma {:induction false} FilterMembers<T>(s: seq<T>, p: T -> bool)
    ensures forall x :: x in Filter(s, p) <==> x in s && p(x)
    decreases |s|
  {
    if s != [] {
      var init, last := s[..|s| - 1], s[|s| - 1];
      FilterMembers(init, p);
      assert s == init + [last];
      assert Filter(s, p) == Filter(init, p) + (if p(last) then [last] else []);
    }
  }

  /** The indices of `s` whose elements satisfy `p`, in increasing order. */
  function KeptIndices<T>(s: seq<T>, p: T -> bool): (r: seq<nat>)
    ensures forall k :: 0 <= k < |r| ==> r[k] < |s| && p(s[r[k]])
    ensures forall a, b :: 0 <= a < b < |r| ==> r[a] < r[b]
    decreases |s|
  {
    if s == [] then []
    else KeptIndices(s[..|s| - 1], p) + (if p(s[|s| - 1]) then [|s| - 1] else [])
  }

  /** Every satisfying position is among the kept indices. */
  lemma {:induction false} KeptIndicesComplete<T>(s: seq<T>, p: T -> bool)
    ensures forall i :: 0 <= i < |s| && p(s[i]) ==> i in KeptIndices(s, p)
    decreases |s|
  {
    if s != [] {
      var init := s[..|s| - 1];
      KeptIndicesComplete(init, p);
      forall i | 0 <= i < |init| ensures s[i] == init[i] { }
    }
  }

  /** `a` is `b` with some elements left out and the rest in their order:
      `idx` picks, in increasing order, the positions of `b` that make up `a`. */
  ghost predicate EmbeddedBy<T>(a: seq<T>, b: seq<T>, idx: seq<nat>)
  {
    && |idx| == |a|
    && (forall k :: 0 <= k < |idx| ==> idx[k] < |b| && a[k] == b[idx[k]])
    && (forall k, l :: 0 <= k < l < |idx| ==> idx[k] < idx[l])
  }

  /** Filtering keeps exactly the satisfying positions, in order: the result is the
      subsequence of `s` picked out by KeptIndices. */
  lemma {:induction false} FilterIsOrderedSelection<T>(s: seq<T>, p: T -> bool)
    ensures EmbeddedBy(Filter(s, p), s, KeptIndices(s, p))
    decreases |s|
  {
    if s != [] {
      var init, last := s[..|s| - 1], s[|s| - 1];
      FilterIsOrderedSelection(init, p);
      var f, ki := Filter(init, p), KeptIndices(init, p);
      var tail, tailIdx := if p(last) then [last] else [], if p(last) then [|s| - 1] else [];
      assert Filter(s, p) == f + tail;
      assert KeptIndices(s, p) == ki + tailIdx;
      forall k | 0 <= k < |ki| ensures ki[k] < |s| && f[k] == s[ki[k]] {
        assert f[k] == init[ki[k]];
      }
    }
  }

  /** The elements of `s` whose positions are not listed in `del`, in order (the comprehension
      `[v for i, v in enumerate(s) if i not in del]`). */
  function Unlisted<T>(s: seq<T>, del: seq<nat>): seq<T>
    decreases |s|
  {
    if s == [] then []
    else Unlisted(s[..|s| - 1], del) + (if |s| - 1 in del then [] else [s[|s| - 1]])
  }

  /** Dropping the listed positions is filtering, when exactly the failing positions are listed. */
  lemma {:induction false} UnlistedIsFilter<T>(s: seq<T>, del: seq<nat>, p: T -> bool)
    requires forall i :: 0 <= i < |s| ==> (i in del <==> !p(s[i]))
    ensures Unlisted(s, del) == Filter(s, p)
    decreases |s|
  {
    if s != [] {
      var init := s[..|s| - 1];
      forall i | 0 <= i < |init| ensures i in del <==> !p(init[i]) {
        assert init[i] == s[i];
      }
      UnlistedIsFilter(init, del, p);
    }
  }

  /** Filtering by a stronger predicate is filtering the weaker result again: so the stronger
      filter's result is a subsequence of the weaker one's and never longer. */
  lemma {:induction false} FilterStronger<T>(s: seq<T>, p: T -> bool, q: T -> bool)
    requires forall x :: q(x) ==> p(x)
    ensures Filter(s, q) == Filter(Filter(s, p), q)
    ensures |Filter(s, q)| <= |Filter(s, p)|
    decreases |s|
  {
    if s != [] {
      var init, last := s[..|s| - 1], s[|s| - 1];
      FilterStronger(init, p, q);
      var fp := Filter(init, p);
      var tail := if q(last) then [last] else [];
      assert Filter(s, q) == Filter(init, q) + tail;
      if p(last) {
        assert Filter(s, p) == fp + [last];
        FilterAppend(fp, [last], q);
        assert Filter([last], q) == tail by {
          assert [last][..0] == [];
        }
      } else {
        assert Filter(s, p) == fp;
        assert tail == [];
      }
    }
  }

  /** Filtering distributes over concatenation. */
  lemma {:induction false} FilterAppend<T>(a: seq<T>, b: seq<T>, p: T -> bool)
    ensures Filter(a + b, p) == Filter(a, p) + Filter(b, p)
    decreases |b|
  {
    if b == [] {
      assert a + b == a;
    } else {
      var init, last := b[..|b| - 1], b[|b| - 1];
      assert a + b == (a + init) + [last];
      assert (a + b)[..|a + b| - 1] == a + init;
      FilterAppend(a, init, p);
      var x, y, z := Filter(a, p), Filter(init, p), if p(last) then [last] else [];
      assert (x + y) + z == x + (y + z);
    }
  }

  /** Filtering an all-satisfying sequence changes nothing. */
  lemma {:induction false} FilterAll<T>(s: seq<T>, p: T -> bool)
    requires forall k :: 0 <= k < |s| ==> p(s[k])
    ensures Filter(s, p) == s
    decreases |s|
  {
    if s != [] {
      var init, last := s[..|s| - 1], s[|s| - 1];
      assert forall k :: 0 <= k < |init| ==> p(init[k]) by {
        forall k | 0 <= k < |init| ensures p(init[k]) {
          assert init[k] == s[k];
        }
      }
      FilterAll(init, p);
      assert p(last);
      assert Filter(s, p) == init + [last];
      assert s == init + [last];
    }
  }

  /** The concatenation of `f(x)` over the elements `x` of `s`, in order (an append-loop
      that extends a list by a whole batch per element). */
  function FlatMap<T, U>(s: seq<T>, f: T -> seq<U>): seq<U>
    decreases |s|
  {
    if s == [] then [] else FlatMap(s[..|s| - 1], f) + f(s[|s| - 1])
  }

  /** One more element adds its batch at the end. */
  lemma FlatMapSnoc<T, U>(s: seq<T>, x: T, f: T -> seq<U>)
    ensures FlatMap(s + [x], f) == FlatMap(s, f) + f(x)
  {
    assert (s + [x])[..|s|] == s;
  }

  /** FlatMap distributes over concatenation. */
  lemma {:induction false} FlatMapAppend<T, U>(a: seq<T>, b: seq<T>, f: T -> seq<U>)
    ensures FlatMap(a + b, f) == FlatMap(a, f) + FlatMap(b, f)
    decreases |b|
  {
    if b == [] {
      assert a + b == a;
    } else {
      var init, last := b[..|b| - 1], b[|b| - 1];
      assert b == init + [last];
      assert a + b == (a + init) + [last];
      FlatMapAppend(a, init, f);
      FlatMapSnoc(a + init, last, f);
      FlatMapSnoc(init, last, f);
      var x, y, z := FlatMap(a, f), FlatMap(init, f), f(last);
      assert (x + y) + z == x + (y + z);
    }
  }

  /** Number of occurrences of `x` in `s`. */
  function Count<T(==)>(s: seq<T>, x: T): (n: nat)
    ensures n <= |s|
    ensures n > 0 <==> x in s
    decreases |s|
  {
    if s == [] then 0
    else
      assert s == s[..|s| - 1] + [s[|s| - 1]];
      Count(s[..|s| - 1], x) + (if s[|s| - 1] == x then 1 else 0)
  }

  /** No value occurs twice in `s`. */
  predicate Distinct<T(==)>(s: seq<T>)
  {
    forall i, j :: 0 <= i < j < |s| ==> s[i] != s[j]
  }

  /** The set of the elements of `s` (Python's `set(s)`). */
  function Elements<T>(s: seq<T>): set<T>
  {
    set x | x in s
  }

  /** `len(s) == len(set(s))` holds exactly when `s` has no repeated value. */
  lemma {:induction false} DistinctIffNoShrink<T>(s: seq<T>)
    ensures |Elements(s)| == |s| <==> Distinct(s)
    decreases |s|
  {
    if s != [] {
      var init, last := s[..|s| - 1], s[|s| - 1];
      DistinctIffNoShrink(init);
      assert s == init + [last];
      assert Elements(s) == Elements(init) + {last};
      CardinalityBound(init);
      if last in init {
        assert Elements(s) == Elements(init);
        var k :| 0 <= k < |init| && init[k] == last;
        assert s[k] == s[|s| - 1];
      } else {
        assert |Elements(s)| == |Elements(init)| + 1;
        if Distinct(init) {
          forall i, j | 0 <= i < j < |s| ensures s[i] != s[j] {
            if j == |s| - 1 {
              assert s[i] == init[i];
            } else {
              assert s[i] == init[i] && s[j] == init[j];
            }
          }
        } else {
          var i, j :| 0 <= i < j < |init| && init[i] == init[j];
          assert s[i] == s[j];
        }
      }
    }
  }

  /** A set built from a sequence is never larger than the sequence. */
  lemma {:induction false} CardinalityBound<T>(s: seq<T>)
    ensures |Elements(s)| <= |s|
    decreases |s|
  {
    if s != [] {
      var init, last := s[..|s| - 1], s[|s| - 1];
      CardinalityBound(init);
      assert s == init + [last];
      assert Elements(s) == Elements(init) + {last};
    }
  }

  /** In a sequence without repetitions every element occurs exactly once. */
  lemma {:induction false} DistinctOnce<T>(s: seq<T>, x: T)
    requires Distinct(s) && x in s
    ensures Count(s, x) == 1
    decreases |s|
  {
    var init, last := s[..|s| - 1], s[|s| - 1];
    assert s == init + [last];
    if last == x {
      assert x !in init by {
        forall k | 0 <= k < |init| ensures init[k] != x {
          assert s[k] == init[k];
        }
      }
    } else {
      assert x in init;
      assert Distinct(init) by {
        forall i, j | 0 <= i < j < |init| ensures init[i] != init[j] {
          assert s[i] == init[i] && s[j] == init[j];
        }
      }
      DistinctOnce(init, x);
    }
  }
}
