/** Small value types and sequence helpers shared by every part of the gradebook. */
module Common {

  /** A value that may be absent (JavaScript's `undefined`/`null`). */
  datatype Option<+T> = None | Some(value: T) {
    function GetOr(default: T): T {
      match this
      case Some(v) => v
      case None => default
    }
  }

  /** `Array.prototype.filter`: keeps, in order, the elements satisfying `p`. */
  function Filter<T(!new)>(s: seq<T>, p: T -> bool): (r: seq<T>)
    ensures |r| <= |s|
    ensures forall x :: x in r <==> x in s && p(x)
    ensures forall i :: 0 <= i < |r| ==> p(r[i])
  {
    if s == [] then [] else (if p(s[0]) then [s[0]] else []) + Filter(s[1..], p)
  }

  /** `Array.prototype.map`. */
  function Map<T, U>(s: seq<T>, f: T -> U): (r: seq<U>)
    ensures |r| == |s| && forall i :: 0 <= i < |s| ==> r[i] == f(s[i])
  {
    if s == [] then [] else [f(s[0])] + Map(s[1..], f)
  }

  /** Filtering distributes over concatenation. */
  lemma {:induction false} FilterConcat<T(!new)>(a: seq<T>, b: seq<T>, p: T -> bool)
    ensures Filter(a + b, p) == Filter(a, p) + Filter(b, p)
  {
    if a == [] {
      assert a + b == b;
    } else {
      assert (a + b)[1..] == a[1..] + b;
      FilterConcat(a[1..], b, p);
    }
  }

  /** A second filter whose condition implies the first one can skip the first. */
  lemma {:induction false} FilterFilter<T(!new)>(s: seq<T>, p: T -> bool, q: T -> bool)
    requires forall x :: q(x) ==> p(x)
    ensures Filter(Filter(s, p), q) == Filter(s, q)
  {
    if s != [] {
      FilterFilter(s[1..], p, q);
      if p(s[0]) {
        assert Filter(s, p) == [s[0]] + Filter(s[1..], p);
        FilterCons(s[0], Filter(s[1..], p), q);
      } else {
        assert Filter(s, p) == Filter(s[1..], p);
        assert !q(s[0]);
      }
    }
  }

  /** Filtering a sequence that starts with `x`. */
  lemma FilterCons<T(!new)>(x: T, t: seq<T>, p: T -> bool)
    ensures Filter([x] + t, p) == (if p(x) then [x] else []) + Filter(t, p)
  {
    assert ([x] + t)[1..] == t;
  }

  /** Two sequences with the same head whose tails filter alike up to a suffix filter alike up to it. */
  lemma FilterSameHead<T(!new)>(s: seq<T>, s2: seq<T>, e: seq<T>, p: T -> bool)
    requires s != [] && s2 != [] && s[0] == s2[0]
    requires Filter(s[1..], p) == Filter(s2[1..], p) + e
    ensures Filter(s, p) == Filter(s2, p) + e
  {
    var h := if p(s[0]) then [s[0]] else [];
    calc {
      Filter(s, p);
      h + Filter(s[1..], p);
      h + (Filter(s2[1..], p) + e);
      (h + Filter(s2[1..], p)) + e;
      Filter(s2, p) + e;
    }
  }

  /** A filter that no element passes gives the empty sequence. */
  lemma {:induction false} FilterNone<T(!new)>(s: seq<T>, p: T -> bool)
    requires forall i :: 0 <= i < |s| ==> !p(s[i])
    ensures Filter(s, p) == []
  {
    if s != [] {
      FilterNone(s[1..], p);
    }
  }

  /** A filter that every element passes changes nothing. */
  lemma {:induction false} FilterAll<T(!new)>(s: seq<T>, p: T -> bool)
    requires forall i :: 0 <= i < |s| ==> p(s[i])
    ensures Filter(s, p) == s
  {
    if s != [] {
      FilterAll(s[1..], p);
    }
  }

  /** Filters with the same verdict on every element of `s` agree on `s`. */
  lemma {:induction false} FilterSame<T(!new)>(s: seq<T>, p: T -> bool, q: T -> bool)
    requires forall x :: x in s ==> (p(x) <==> q(x))
    ensures Filter(s, p) == Filter(s, q)
  {
    if s != [] {
      FilterSame(s[1..], p, q);
    }
  }

  /** Position `i` holds the first element of `s` satisfying `p`. */
  predicate FirstIndex<T>(s: seq<T>, p: T -> bool, i: int) {
    && 0 <= i < |s|
    && p(s[i])
    && forall j :: 0 <= j < i ==> !p(s[j])
  }

  /** `Array.prototype.find`: the first element satisfying `p`, if any. */
  function Find<T(!new)>(s: seq<T>, p: T -> bool): (r: Option<T>)
    ensures r.Some? ==> p(r.value) && exists i :: FirstIndex(s, p, i) && s[i] == r.value
    ensures r.None? <==> forall i :: 0 <= i < |s| ==> !p(s[i])
  {
    if s == [] then None
    else if p(s[0]) then
      assert FirstIndex(s, p, 0);
      Some(s[0])
    else
      var r := Find(s[1..], p);
      assert r.Some? ==> exists i :: FirstIndex(s, p, i) && s[i] == r.value by {
        if r.Some? {
          var i :| FirstIndex(s[1..], p, i) && s[1..][i] == r.value;
          forall j | 0 <= j < i + 1 ensures !p(s[j]) {
            if j > 0 {
              assert s[j] == s[1..][j - 1];
            }
          }
          assert FirstIndex(s, p, i + 1);
        }
      }
      r
  }

  /** Filtering by a predicate and by its complement splits a sequence into two parts. */
  lemma {:induction false} FilterPartition<T(!new)>(s: seq<T>, p: T -> bool, q: T -> bool)
    requires forall x :: x in s ==> (q(x) <==> !p(x))
    ensures multiset(Filter(s, p)) + multiset(Filter(s, q)) == multiset(s)
  {
    if s != [] {
      var x, t := s[0], s[1..];
      assert s == [x] + t;
      assert multiset(s) == multiset{x} + multiset(t);
      FilterPartition(t, p, q);
      if p(x) {
        assert !q(x);
        PartitionStep(x, Filter(s, p), Filter(t, p), Filter(s, q), Filter(t, q), multiset(t));
      } else {
        assert q(x);
        PartitionStep(x, Filter(s, q), Filter(t, q), Filter(s, p), Filter(t, p), multiset(t));
      }
    }
  }

  /** One element added to one of the two parts adds it to their union. */
  lemma PartitionStep<T>(x: T, a: seq<T>, a0: seq<T>, b: seq<T>, b0: seq<T>, m: multiset<T>)
    requires a == [x] + a0 && b == b0
    requires multiset(a0) + multiset(b0) == m
    ensures multiset(a) + multiset(b) == multiset{x} + m
  {
  }

  /** No two positions of `s` hold the same element. */
  predicate NoDuplicates<T(==,!new)>(s: seq<T>) {
    forall i, j :: 0 <= i < j < |s| ==> s[i] != s[j]
  }

  /** Filtering keeps a sequence free of duplicates. */
  lemma {:induction false} FilterNoDuplicates<T(!new)>(s: seq<T>, p: T -> bool)
    requires NoDuplicates(s)
    ensures NoDuplicates(Filter(s, p))
  {
    if s != [] {
      FilterNoDuplicates(s[1..], p);
      assert s[0] !in s[1..];
    }
  }

  /** Filtering keeps the images of the elements under `f` free of duplicates. */
  lemma {:induction false} MapFilterNoDuplicates<T(!new), U(!new)>(s: seq<T>, p: T -> bool, f: T -> U)
    requires NoDuplicates(Map(s, f))
    ensures NoDuplicates(Map(Filter(s, p), f))
  {
    if s != [] {
      var m, mt := Map(s, f), Map(s[1..], f);
      assert NoDuplicates(mt) by {
        forall a, b | 0 <= a < b < |mt| ensures mt[a] != mt[b] {
          assert mt[a] == m[a + 1] && mt[b] == m[b + 1];
        }
      }
      MapFilterNoDuplicates(s[1..], p, f);
      var rest := Filter(s[1..], p);
      var mr := Map(rest, f);
      if p(s[0]) {
        assert Filter(s, p) == [s[0]] + rest;
        var r := Map([s[0]] + rest, f);
        forall a, b | 0 <= a < b < |r| ensures r[a] != r[b] {
          assert r[b] == mr[b - 1];
          if a == 0 {
            assert rest[b - 1] in s[1..];
            var k :| 0 <= k < |s[1..]| && s[1..][k] == rest[b - 1];
            assert m[0] != m[k + 1];
          } else {
            assert r[a] == mr[a - 1];
          }
        }
      }
    }
  }

  /** `[...new Set(s)]`: the elements of `s` in order of first appearance. */
  function Distinct<T(==,!new)>(s: seq<T>): (r: seq<T>)
    ensures NoDuplicates(r)
    ensures forall x :: x in r <==> x in s
  {
    DistinctAfter([], s)
  }

  /** The elements of `s`, in order of first appearance, that are not in `seen`. */
  function DistinctAfter<T(==,!new)>(seen: seq<T>, s: seq<T>): (r: seq<T>)
    ensures NoDuplicates(r)
    ensures forall x :: x in r <==> x in s && x !in seen
    decreases |s|
  {
    if s == [] then []
    else if s[0] in seen then DistinctAfter(seen, s[1..])
    else
      var rest := DistinctAfter(seen + [s[0]], s[1..]);
      assert s[0] !in rest;
      [s[0]] + rest
  }

  /** The sum of a sequence of numbers (`reduce((a, b) => a + b, 0)`). */
  function Sum(s: seq<real>): real {
    if s == [] then 0.0 else s[0] + Sum(s[1..])
  }

  /** Every element of `s` lies in [lo, hi]. */
  predicate AllWithin(s: seq<real>, lo: real, hi: real) {
    forall i :: 0 <= i < |s| ==> lo <= s[i] <= hi
  }

  /** The sum of `n` numbers in [0, 100] lies in [0, 100 n]. */
  lemma {:induction false} SumBounds(s: seq<real>)
    requires AllWithin(s, 0.0, 100.0)
    ensures 0.0 <= Sum(s) <= 100.0 * |s| as real
  {
    if s != [] {
      assert AllWithin(s[1..], 0.0, 100.0) by {
        forall i | 0 <= i < |s[1..]| ensures 0.0 <= s[1..][i] <= 100.0 {
          assert s[1..][i] == s[i + 1];
        }
      }
      SumBounds(s[1..]);
    }
  }
}
