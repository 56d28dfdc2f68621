/**
  Python's `sorted()` on a list of `str`: code-point lexicographic order, a
  proper prefix first. Modelled as an insertion sort on sequences, proved
  to return a sorted permutation of its input.
*/
module StringOrder {

  /** `a <= b` on Python strings. */
  predicate StrLe(a: string, b: string)
    decreases |a|
  {
    |a| == 0 || (|b| > 0 && (a[0] < b[0] || (a[0] == b[0] && StrLe(a[1..], b[1..]))))
  }

  lemma {:induction false} StrLeReflexive(a: string)
    ensures StrLe(a, a)
    decreases |a|
  {
    if |a| > 0 {
      StrLeReflexive(a[1..]);
    }
  }

  lemma {:induction false} StrLeTotal(a: string, b: string)
    ensures StrLe(a, b) || StrLe(b, a)
    decreases |a|
  {
    if |a| > 0 && |b| > 0 && a[0] == b[0] {
      StrLeTotal(a[1..], b[1..]);
    }
  }

  lemma {:induction false} StrLeAntisymmetric(a: string, b: string)
    requires StrLe(a, b) && StrLe(b, a)
    ensures a == b
    decreases |a|
  {
    if |a| > 0 {
      StrLeAntisymmetric(a[1..], b[1..]);
      assert a == [a[0]] + a[1..];
      assert b == [b[0]] + b[1..];
    }
  }

  lemma {:induction false} StrLeTransitive(a: string, b: string, c: string)
    requires StrLe(a, b) && StrLe(b, c)
    ensures StrLe(a, c)
    decreases |a|
  {
    if |a| > 0 && a[0] == b[0] && b[0] == c[0] {
      StrLeTransitive(a[1..], b[1..], c[1..]);
    }
  }

  /** A shared leading path does not change the order: `p + a <= p + b` exactly when `a <= b`. */
  lemma {:induction false} StrLeCommonPrefix(p: string, a: string, b: string)
    ensures StrLe(p + a, p + b) <==> StrLe(a, b)
    decreases |p|
  {
    if |p| > 0 {
      assert (p + a)[1..] == p[1..] + a;
      assert (p + b)[1..] == p[1..] + b;
      assert (p + a)[0] == (p + b)[0];
      assert StrLe(p + a, p + b) == StrLe(p[1..] + a, p[1..] + b);
      StrLeCommonPrefix(p[1..], a, b);
    } else {
      assert p + a == a && p + b == b;
    }
  }

  predicate Sorted(s: seq<string>) {
    forall i, j :: 0 <= i < j < |s| ==> StrLe(s[i], s[j])
  }

  /** Insert `x` before the first element it does not exceed. */
  function Insert(x: string, s: seq<string>): (r: seq<string>)
    ensures |r| == |s| + 1
    decreases |s|
  {
    if |s| == 0 then [x]
    else if StrLe(x, s[0]) then [x] + s
    else [s[0]] + Insert(x, s[1..])
  }

  /** `sorted(s)`. */
  function Sort(s: seq<string>): (r: seq<string>)
    ensures |r| == |s|
    decreases |s|
  {
    if |s| == 0 then [] else Insert(s[0], Sort(s[1..]))
  }

  /** A head no greater than any element of a sorted tail keeps the list sorted. */
  lemma SortedCons(h: string, t: seq<string>)
    requires Sorted(t)
    requires forall k :: 0 <= k < |t| ==> StrLe(h, t[k])
    ensures Sorted([h] + t)
  {
    var r := [h] + t;
    forall i, j | 0 <= i < j < |r| ensures StrLe(r[i], r[j]) {
      if i == 0 {
        assert r[j] == t[j - 1];
      } else {
        assert r[i] == t[i - 1] && r[j] == t[j - 1];
      }
    }
  }

  lemma {:induction false} InsertSorted(x: string, s: seq<string>)
    requires Sorted(s)
    ensures Sorted(Insert(x, s))
    ensures multiset(Insert(x, s)) == multiset(s) + multiset{x}
    decreases |s|
  {
    if |s| == 0 {
    } else if StrLe(x, s[0]) {
      forall k | 0 <= k < |s| ensures StrLe(x, s[k]) {
        if k > 0 {
          StrLeTransitive(x, s[0], s[k]);
        }
      }
      SortedCons(x, s);
    } else {
      StrLeTotal(x, s[0]);
      var tail := s[1..];
      SortedTail(s);
      InsertSorted(x, tail);
      var rest := Insert(x, tail);
      assert s == [s[0]] + tail;
      forall k | 0 <= k < |rest| ensures StrLe(s[0], rest[k]) {
        var e := rest[k];
        assert e in multiset(rest);
        if e != x {
          assert e in multiset(tail);
          var m :| 0 <= m < |tail| && tail[m] == e;
          assert s[m + 1] == e;
        }
      }
      SortedCons(s[0], rest);
    }
  }

  /** `sorted` returns the same strings, in ascending order. */
  lemma {:induction false} SortSpec(s: seq<string>)
    ensures Sorted(Sort(s))
    ensures multiset(Sort(s)) == multiset(s)
    decreases |s|
  {
    if |s| > 0 {
      var t := s[1..];
      SortSpec(t);
      InsertSorted(s[0], Sort(t));
      MultisetCons(s);
    }
  }

  lemma MultisetCons(s: seq<string>)
    requires |s| > 0
    ensures multiset(s) == multiset(s[1..]) + multiset{s[0]}
  {
    assert s == [s[0]] + s[1..];
  }

  /** There is only one sorted arrangement of a multiset of strings, so `Sort` is determined by its specification. */
  lemma {:induction false} SortedUnique(a: seq<string>, b: seq<string>)
    requires Sorted(a) && Sorted(b) && multiset(a) == multiset(b)
    ensures a == b
    decreases |a|
  {
    if |a| > 0 {
      assert |b| == |multiset(b)| == |multiset(a)| == |a|;
      SortedHeadsEqual(a, b);
      MultisetTail(a, b);
      SortedTail(a);
      SortedTail(b);
      SortedUnique(a[1..], b[1..]);
      assert a == [a[0]] + a[1..];
      assert b == [b[0]] + b[1..];
    }
  }

  /** Sorted permutations of each other start with the same string. */
  lemma SortedHeadsEqual(a: seq<string>, b: seq<string>)
    requires Sorted(a) && Sorted(b) && multiset(a) == multiset(b)
    requires |a| > 0 && |b| > 0
    ensures a[0] == b[0]
  {
    assert a[0] in multiset(b);
    assert b[0] in multiset(a);
    var i :| 0 <= i < |b| && b[i] == a[0];
    var j :| 0 <= j < |a| && a[j] == b[0];
    StrLeReflexive(a[0]);
    if i > 0 { assert StrLe(b[0], b[i]); }
    if j > 0 { assert StrLe(a[0], a[j]); }
    StrLeAntisymmetric(a[0], b[0]);
  }

  lemma MultisetTail(a: seq<string>, b: seq<string>)
    requires |a| > 0 && |b| > 0 && a[0] == b[0] && multiset(a) == multiset(b)
    ensures multiset(a[1..]) == multiset(b[1..])
  {
    assert a == [a[0]] + a[1..];
    assert b == [b[0]] + b[1..];
    assert multiset(a[1..]) == multiset(a) - multiset{a[0]};
    assert multiset(b[1..]) == multiset(b) - multiset{b[0]};
  }

  lemma SortedTail(s: seq<string>)
    requires Sorted(s) && |s| > 0
    ensures Sorted(s[1..])
  {
    var t := s[1..];
    forall i, j | 0 <= i < j < |t| ensures StrLe(t[i], t[j]) {
      assert t[i] == s[i + 1] && t[j] == s[j + 1];
    }
  }
}
