/**
  Python's ordering of `str` values and `sorted(...)` applied to a set of
  strings. Python compares strings code point by code point; a proper
  prefix is smaller than the longer string.
 */
module StringOrder {

  /** `a < b` on Python strings. */
  predicate Less(a: string, b: string)
    decreases |a|
  {
    if a == [] then b != []
    else if b == [] then false
    else if a[0] != b[0] then a[0] < b[0]
    else Less(a[1..], b[1..])
  }

  lemma {:induction false} LessIrreflexive(a: string)
    ensures !Less(a, a)
    decreases |a|
  {
    if a != [] { LessIrreflexive(a[1..]); }
  }

  lemma {:induction false} LessAsymmetric(a: string, b: string)
    ensures !(Less(a, b) && Less(b, a))
    decreases |a|
  {
    if a != [] && b != [] && a[0] == b[0] { LessAsymmetric(a[1..], b[1..]); }
  }

  lemma {:induction false} LessTransitive(a: string, b: string, c: string)
    requires Less(a, b) && Less(b, c)
    ensures Less(a, c)
    decreases |a|
  {
    if a != [] && a[0] == b[0] && b[0] == c[0] {
      LessTransitive(a[1..], b[1..], c[1..]);
    }
  }

  lemma {:induction false} LessTotal(a: string, b: string)
    ensures a == b || Less(a, b) || Less(b, a)
    decreases |a|
  {
    if a != [] && b != [] && a[0] == b[0] {
      LessTotal(a[1..], b[1..]);
      if a[1..] == b[1..] {
        assert a == [a[0]] + a[1..] && b == [b[0]] + b[1..];
      }
    }
  }

  /** The list is in strictly increasing order, hence free of duplicates. */
  predicate StrictlyAscending(xs: seq<string>)
  {
    forall i, j :: 0 <= i < j < |xs| ==> Less(xs[i], xs[j])
  }

  lemma AscendingDistinct(xs: seq<string>, i: nat, j: nat)
    requires StrictlyAscending(xs)
    requires i < |xs| && j < |xs| && i != j
    ensures xs[i] != xs[j]
  {
    if i < j { LessIrreflexive(xs[i]); } else { LessIrreflexive(xs[j]); }
  }

  /** `m` is the smallest element of `s`. */
  predicate IsLeast(m: string, s: set<string>)
  {
    m in s && forall y :: y in s ==> y == m || Less(m, y)
  }

  lemma {:induction false} LeastExists(s: set<string>)
    requires s != {}
    ensures exists m :: IsLeast(m, s)
    decreases |s|
  {
    var x :| x in s;
    if s - {x} == {} {
      forall y | y in s ensures y == x {
        assert y !in s - {x};
      }
      assert IsLeast(x, s);
    } else {
      LeastExists(s - {x});
      var m :| IsLeast(m, s - {x});
      LessTotal(m, x);
      if Less(m, x) {
        assert IsLeast(m, s);
      } else {
        forall y | y in s && y != x ensures Less(x, y) {
          if y != m { LessTransitive(x, m, y); }
        }
        assert IsLeast(x, s);
      }
    }
  }

  lemma LeastUnique(s: set<string>)
    ensures forall m, m' :: IsLeast(m, s) && IsLeast(m', s) ==> m == m'
  {
    forall m, m' | IsLeast(m, s) && IsLeast(m', s) ensures m == m' {
      LessAsymmetric(m, m');
    }
  }

  /** `sorted(s)` for a set `s` of strings: its elements, each once, ascending. */
  function SortSet(s: set<string>): (r: seq<string>)
    ensures StrictlyAscending(r)
    ensures forall x :: x in r <==> x in s
    ensures |r| == |s|
    decreases |s|
  {
    if s == {} then []
    else
      LeastExists(s);
      LeastUnique(s);
      var m :| IsLeast(m, s);
      var rest := SortSet(s - {m});
      assert forall j :: 0 <= j < |rest| ==> Less(m, rest[j]) by {
        forall j | 0 <= j < |rest| ensures Less(m, rest[j]) {
          assert rest[j] in s - {m};
        }
      }
      [m] + rest
  }

  lemma {:induction false} AscendingUnique(xs: seq<string>, ys: seq<string>)
    requires StrictlyAscending(xs) && StrictlyAscending(ys)
    requires forall x :: x in xs <==> x in ys
    ensures xs == ys
    decreases |xs|
  {
    assert xs != [] ==> xs[0] in ys;
    assert ys != [] ==> ys[0] in xs;
    if xs != [] && ys != [] {
      if xs[0] != ys[0] {
        var i :| 0 <= i < |ys| && ys[i] == xs[0];
        var j :| 0 <= j < |xs| && xs[j] == ys[0];
        assert Less(ys[0], xs[0]) && Less(xs[0], ys[0]);
        LessAsymmetric(xs[0], ys[0]);
      }
      forall x ensures x in xs[1..] <==> x in ys[1..] {
        if x in xs[1..] {
          var k :| 1 <= k < |xs| && xs[k] == x;
          AscendingDistinct(xs, 0, k);
          assert x in ys;
          var k' :| 0 <= k' < |ys| && ys[k'] == x;
          assert k' != 0;
        }
        if x in ys[1..] {
          var k :| 1 <= k < |ys| && ys[k] == x;
          AscendingDistinct(ys, 0, k);
          assert x in xs;
          var k' :| 0 <= k' < |xs| && xs[k'] == x;
          assert k' != 0;
        }
      }
      AscendingUnique(xs[1..], ys[1..]);
      assert xs == [xs[0]] + xs[1..] && ys == [ys[0]] + ys[1..];
    }
  }

  /** Sorting the elements of an already sorted list gives that list back. */
  lemma SortSetOfAscending(xs: seq<string>)
    requires StrictlyAscending(xs)
    ensures SortSet(set x | x in xs) == xs
  {
    AscendingUnique(SortSet(set x | x in xs), xs);
  }

  /** Only the element set of a list decides its sorted form. */
  lemma SortSetDeterminedByElements(s: set<string>, xs: seq<string>)
    requires StrictlyAscending(xs)
    requires forall x :: x in xs <==> x in s
    ensures SortSet(s) == xs
  {
    AscendingUnique(SortSet(s), xs);
  }

  /** A prefix `xs[..n]` of a sorted list is sorted, and each of its
      elements is below every element of the rest `xs[n..]`. */
  lemma AscendingPrefix(xs: seq<string>, n: nat)
    requires StrictlyAscending(xs) && n <= |xs|
    ensures StrictlyAscending(xs[..n])
    ensures forall x, y :: x in xs[..n] && y in xs[n..] ==> Less(x, y)
  {
    forall x, y | x in xs[..n] && y in xs[n..] ensures Less(x, y) {
      var i :| 0 <= i < n && xs[i] == x;
      var j :| n <= j < |xs| && xs[j] == y;
    }
  }

  /** The elements of a strictly ascending list, as a set, are as many as
      the list is long. */
  lemma {:induction false} AscendingCard(xs: seq<string>)
    requires StrictlyAscending(xs)
    ensures |set x | x in xs| == |xs|
    decreases |xs|
  {
    if xs != [] {
      var rest := xs[1..];
      AscendingCard(rest);
      assert (set x | x in xs) == {xs[0]} + (set x | x in rest);
      forall k | 0 <= k < |rest| ensures rest[k] != xs[0] {
        AscendingDistinct(xs, 0, k + 1);
      }
      assert xs[0] !in (set x | x in rest);
    }
  }
}
