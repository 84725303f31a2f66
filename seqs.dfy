/** Facts about sequences used by the duplicate checks (`new Set(xs).size`
    against `xs.length`) and by the `filter` calls of the route handlers. */
module Seqs {

  /** No element occurs twice. */
  predicate Distinct<T(==)>(s: seq<T>) {
    forall i, j :: 0 <= i < j < |s| ==> s[i] != s[j]
  }

  /** The set a JavaScript `new Set(s)` holds. */
  function Elements<T>(s: seq<T>): set<T> {
    set x | x in s
  }

  /** `new Set(s).size` never exceeds `s.length`, and equals it exactly when no
      element is repeated. */
  lemma {:induction false} ElementsCardinality<T>(s: seq<T>)
    ensures |Elements(s)| <= |s|
    ensures |Elements(s)| == |s| <==> Distinct(s)
  {
    if s == [] {
      assert Elements(s) == {};
    } else {
      var t := s[1..];
      ElementsCardinality(t);
      assert s == [s[0]] + t;
      if s[0] in t {
        assert Elements(s) == Elements(t);
        var k :| 0 <= k < |t| && t[k] == s[0];
        assert s[0] == s[k + 1];
        assert !Distinct(s);
      } else {
        assert Elements(s) == Elements(t) + {s[0]};
        assert Distinct(s) <==> Distinct(t) by {
          if Distinct(t) {
            forall i, j | 0 <= i < j < |s| ensures s[i] != s[j] {
              if i == 0 { assert s[j] == t[j - 1]; } else { assert s[i] == t[i - 1] && s[j] == t[j - 1]; }
            }
          }
          if Distinct(s) {
            forall i, j | 0 <= i < j < |t| ensures t[i] != t[j] {
              assert t[i] == s[i + 1] && t[j] == s[j + 1];
            }
          }
        }
      }
    }
  }

  /** `s.filter(p)`: the elements satisfying `p`, in their original order. */
  function Filter<T>(s: seq<T>, p: T -> bool): (r: seq<T>)
    ensures |r| <= |s|
    ensures forall i :: 0 <= i < |r| ==> r[i] in s && p(r[i])
    ensures forall i :: 0 <= i < |s| && p(s[i]) ==> s[i] in r
  {
    if s == [] then [] else (if p(s[0]) then [s[0]] else []) + Filter(s[1..], p)
  }

  /** A filter keeps a sequence all of whose elements pass. */
  lemma {:induction false} FilterAll<T>(s: seq<T>, p: T -> bool)
    requires forall i :: 0 <= i < |s| ==> p(s[i])
    ensures Filter(s, p) == s
  {
    if s != [] {
      FilterAll(s[1..], p);
      assert s == [s[0]] + s[1..];
    }
  }

  /** Filtering a sequence with one more element at its end. */
  lemma {:induction false} FilterAppend<T>(s: seq<T>, x: T, p: T -> bool)
    ensures Filter(s + [x], p) == Filter(s, p) + (if p(x) then [x] else [])
  {
    if s == [] {
      assert [] + [x] == [x];
      assert [x][1..] == [];
    } else {
      var sx := s + [x];
      assert sx[0] == s[0] && sx[1..] == s[1..] + [x];
      var head := if p(s[0]) then [s[0]] else [];
      assert Filter(sx, p) == head + Filter(s[1..] + [x], p);
      FilterAppend(s[1..], x, p);
    }
  }

  /** `s.map(f)`. */
  function Map<T, U>(s: seq<T>, f: T -> U): (r: seq<U>)
    ensures |r| == |s|
    ensures forall i :: 0 <= i < |s| ==> r[i] == f(s[i])
  {
    if s == [] then [] else [f(s[0])] + Map(s[1..], f)
  }

  /** A subset is no larger than its superset, and one of the same size is the
      superset itself. */
  lemma SubsetCardinality<T>(a: set<T>, b: set<T>)
    requires a <= b
    ensures |a| <= |b|
    ensures |a| == |b| ==> a == b
  {
    assert b == a + (b - a);
    assert a * (b - a) == {};
    if |a| == |b| {
      assert |b - a| == 0;
    }
  }

  /** The elements of `s` from last to first. */
  function Reverse<T>(s: seq<T>): (r: seq<T>)
    ensures |r| == |s|
    ensures forall i :: 0 <= i < |s| ==> r[i] == s[|s| - 1 - i]
  {
    if s == [] then [] else Reverse(s[1..]) + [s[0]]
  }

  /** `s.slice(0, n)`: the first `n` elements, or all of a shorter sequence. */
  function Take<T>(s: seq<T>, n: nat): (r: seq<T>)
    ensures |r| == if |s| < n then |s| else n
    ensures r <= s
  {
    if |s| < n then s else s[..n]
  }

  /** The positions, in increasing order, of the elements of `s[..bound]`
      that pass `p`. */
  function Positions<T>(s: seq<T>, p: T -> bool, bound: nat): (r: seq<nat>)
    requires bound <= |s|
    ensures forall i :: 0 <= i < |r| ==> r[i] < bound && p(s[r[i]])
    ensures forall i, j :: 0 <= i < j < |r| ==> r[i] < r[j]
    decreases bound
  {
    if bound == 0 then []
    else Positions(s, p, bound - 1) + (if p(s[bound - 1]) then [bound - 1] else [])
  }

  /** The positions below one of the positions are those listed before it. */
  lemma {:induction false} PositionsPrefix<T>(s: seq<T>, p: T -> bool, bound: nat, j: nat)
    requires bound <= |s|
    requires j < |Positions(s, p, bound)|
    ensures Positions(s, p, Positions(s, p, bound)[j]) == Positions(s, p, bound)[..j]
    decreases bound
  {
    var b := Positions(s, p, bound);
    var prev := Positions(s, p, bound - 1);
    if j < |prev| {
      PositionsPrefix(s, p, bound - 1, j);
      assert b[j] == prev[j] && b[..j] == prev[..j];
    } else {
      assert b[j] == bound - 1 && b[..j] == prev;
    }
  }

  /** The elements at the positions are what `filter` keeps, in order. */
  lemma {:induction false} PositionsFilter<T>(s: seq<T>, p: T -> bool, bound: nat)
    requires bound <= |s|
    ensures |Positions(s, p, bound)| == |Filter(s[..bound], p)|
    ensures forall i :: 0 <= i < |Positions(s, p, bound)| ==> s[Positions(s, p, bound)[i]] == Filter(s[..bound], p)[i]
    decreases bound
  {
    if bound > 0 {
      PositionsFilter(s, p, bound - 1);
      assert s[..bound] == s[..bound - 1] + [s[bound - 1]];
      FilterAppend(s[..bound - 1], s[bound - 1], p);
    }
  }

  /** Taking the last `n` elements newest first splits `s` into what is
      left and what was taken, put back in order; the oldest element taken
      sits right after what is left. */
  lemma ReverseTakeReverse<T>(s: seq<T>, n: nat)
    requires Take(Reverse(s), n) != []
    ensures var page := Take(Reverse(s), n);
      var m := |page|;
      && m <= |s| && page[m - 1] == s[|s| - m]
      && s == s[..|s| - m] + Reverse(page)
  {
    var page := Take(Reverse(s), n);
    var m := |page|;
    forall i | 0 <= i < m ensures Reverse(page)[i] == s[|s| - m + i] {
      assert Reverse(page)[i] == page[m - 1 - i] == Reverse(s)[m - 1 - i];
    }
    assert s == s[..|s| - m] + s[|s| - m..];
  }

  /** Taking the last `n` positions, newest first, leaves exactly the
      positions below the oldest one taken: the positions split into those
      and the taken ones, oldest first. */
  lemma NewestSplit<T>(s: seq<T>, p: T -> bool, bound: nat, n: nat)
    requires bound <= |s|
    requires Take(Reverse(Positions(s, p, bound)), n) != []
    ensures var page := Take(Reverse(Positions(s, p, bound)), n);
      Positions(s, p, bound) == Positions(s, p, page[|page| - 1]) + Reverse(page)
  {
    var b := Positions(s, p, bound);
    ReverseTakeReverse(b, n);
    PositionsPrefix(s, p, bound, |b| - |Take(Reverse(b), n)|);
  }

  /** Positions that point at the elements of `f` still point at them once
      both are taken newest first. */
  lemma NewestAligned<T>(s: seq<T>, ps: seq<nat>, f: seq<T>, n: nat)
    requires |ps| == |f|
    requires forall i :: 0 <= i < |ps| ==> ps[i] < |s| && s[ps[i]] == f[i]
    ensures var page, r := Take(Reverse(ps), n), Take(Reverse(f), n);
      && |page| == |r|
      && forall i :: 0 <= i < |r| ==> page[i] < |s| && s[page[i]] == r[i]
  {
    var page, r := Take(Reverse(ps), n), Take(Reverse(f), n);
    forall i | 0 <= i < |r| ensures page[i] < |s| && s[page[i]] == r[i] {
      assert page[i] == Reverse(ps)[i] == ps[|ps| - 1 - i];
      assert r[i] == Reverse(f)[i] == f[|f| - 1 - i];
    }
  }

  /** The last `n` positions, newest first, point at the last `n` elements
      `filter` keeps, newest first. */
  lemma NewestPositions<T>(s: seq<T>, p: T -> bool, n: nat)
    ensures var page := Take(Reverse(Positions(s, p, |s|)), n);
      var r := Take(Reverse(Filter(s, p)), n);
      && |page| == |r|
      && forall i :: 0 <= i < |r| ==> page[i] < |s| && s[page[i]] == r[i]
  {
    PositionsFilter(s, p, |s|);
    assert s[..|s|] == s;
    NewestAligned(s, Positions(s, p, |s|), Filter(s, p), n);
  }

  /** `s` is ordered by `key`, smallest first. */
  ghost predicate Ascending<T>(s: seq<T>, key: T -> int) {
    forall i, j :: 0 <= i < j < |s| ==> key(s[i]) <= key(s[j])
  }

  /** `s` is ordered by `key`, largest first. */
  ghost predicate Descending<T>(s: seq<T>, key: T -> int) {
    forall i, j :: 0 <= i < j < |s| ==> key(s[i]) >= key(s[j])
  }

  /** A lower bound on every element holds on every element kept by a filter. */
  lemma FilterLowerBound<T>(s: seq<T>, p: T -> bool, key: T -> int, m: int)
    requires forall i :: 0 <= i < |s| ==> m <= key(s[i])
    ensures forall i :: 0 <= i < |Filter(s, p)| ==> m <= key(Filter(s, p)[i])
  {
    var r := Filter(s, p);
    forall i | 0 <= i < |r| ensures m <= key(r[i]) {
      assert r[i] in s;
    }
  }

  /** An element no larger than any of an ascending sequence can lead it. */
  lemma ConsAscending<T>(x: T, s: seq<T>, key: T -> int)
    requires Ascending(s, key)
    requires forall i :: 0 <= i < |s| ==> key(x) <= key(s[i])
    ensures Ascending([x] + s, key)
  {
    var r := [x] + s;
    forall i, j | 0 <= i < j < |r| ensures key(r[i]) <= key(r[j]) {
      assert r[j] == s[j - 1];
      if i > 0 {
        assert r[i] == s[i - 1];
      }
    }
  }

  /** Filtering keeps the relative order of the elements it keeps, so it keeps
      a sequence sorted by any key. */
  lemma {:induction false} FilterKeepsOrder<T>(s: seq<T>, p: T -> bool, key: T -> int)
    requires Ascending(s, key)
    ensures Ascending(Filter(s, p), key)
  {
    if s != [] {
      var tail := s[1..];
      assert Ascending(tail, key) by {
        forall i, j | 0 <= i < j < |tail| ensures key(tail[i]) <= key(tail[j]) {
          assert tail[i] == s[i + 1] && tail[j] == s[j + 1];
        }
      }
      FilterKeepsOrder(tail, p, key);
      var rest := Filter(tail, p);
      if p(s[0]) {
        assert forall i :: 0 <= i < |tail| ==> key(s[0]) <= key(tail[i]) by {
          forall i | 0 <= i < |tail| ensures key(s[0]) <= key(tail[i]) {
            assert tail[i] == s[i + 1];
          }
        }
        FilterLowerBound(tail, p, key, key(s[0]));
        ConsAscending(s[0], rest, key);
        assert Filter(s, p) == [s[0]] + rest;
      } else {
        assert Filter(s, p) == rest;
      }
    }
  }

  /** Reversing turns smallest-first into largest-first. */
  lemma ReverseDescending<T>(s: seq<T>, key: T -> int)
    requires Ascending(s, key)
    ensures Descending(Reverse(s), key)
  {
    var r := Reverse(s);
    forall i, j | 0 <= i < j < |r| ensures key(r[i]) >= key(r[j]) {
      assert r[i] == s[|s| - 1 - i] && r[j] == s[|s| - 1 - j];
    }
  }

  /** A prefix of a largest-first sequence is largest-first. */
  lemma TakeDescending<T>(s: seq<T>, n: nat, key: T -> int)
    requires Descending(s, key)
    ensures Descending(Take(s, n), key)
  {
    var r := Take(s, n);
    forall i, j | 0 <= i < j < |r| ensures key(r[i]) >= key(r[j]) {
      assert r[i] == s[i] && r[j] == s[j];
    }
  }
}
