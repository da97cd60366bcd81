/** Lexicographic order on strings and on pairs of strings, and sorting by it, as Python's `sorted` does. */
module TextOrder {

  type pair = (string, string)

  /** `a <= b`, compared code point by code point. */
  predicate Leq(a: string, b: string) {
    if a == "" then true
    else if b == "" then false
    else if a[0] != b[0] then a[0] < b[0]
    else Leq(a[1..], b[1..])
  }

  predicate PairLeq(p: pair, q: pair) {
    if p.0 != q.0 then Leq(p.0, q.0) else Leq(p.1, q.1)
  }

  predicate IsSorted(s: seq<pair>) {
    forall i, j :: 0 <= i < j < |s| ==> PairLeq(s[i], s[j])
  }

  function Insert(p: pair, s: seq<pair>): seq<pair> {
    if s == [] || PairLeq(p, s[0]) then [p] + s else [s[0]] + Insert(p, s[1..])
  }

  function Sorted(s: seq<pair>): seq<pair> {
    if s == [] then [] else Insert(s[0], Sorted(s[1..]))
  }

  // ---- the direction ---------------------------------------------------------------

  /** `a` comes before `b`: it is a proper beginning of it, or smaller at the first difference. */
  predicate Before(a: string, b: string) {
    exists n | 0 <= n <= |a| && n <= |b| && a[..n] == b[..n] ::
      && n < |b|
      && (n == |a| || (n < |a| && a[n] < b[n]))
  }

  lemma {:induction false} LeqIsBefore(a: string, b: string)
    ensures Leq(a, b) <==> a == b || Before(a, b)
    decreases |a|
  {
    if a == "" {
      if b != "" {
        assert a[..0] == b[..0];
      }
    } else if b == "" {
    } else if a[0] != b[0] {
      if a[0] < b[0] {
        assert a[..0] == b[..0];
      }
      assert forall n | 0 < n <= |a| && n <= |b| :: a[..n][0] == a[0] && b[..n][0] == b[0];
    } else {
      LeqIsBefore(a[1..], b[1..]);
      SameFirst(a, b);
    }
  }

  lemma SameFirst(a: string, b: string)
    requires a != "" && b != "" && a[0] == b[0]
    ensures Before(a, b) <==> Before(a[1..], b[1..])
    ensures a == b <==> a[1..] == b[1..]
  {
    assert a == [a[0]] + a[1..] && b == [b[0]] + b[1..];
    if Before(a, b) {
      var n :| 0 <= n <= |a| && n <= |b| && a[..n] == b[..n] && n < |b| && (n == |a| || (n < |a| && a[n] < b[n]));
      assert n > 0;
      assert a[1..][..n - 1] == a[..n][1..] && b[1..][..n - 1] == b[..n][1..];
    }
    if Before(a[1..], b[1..]) {
      var s, t := a[1..], b[1..];
      var n :| 0 <= n <= |s| && n <= |t| && s[..n] == t[..n] && n < |t| && (n == |s| || (n < |s| && s[n] < t[n]));
      assert a[..n + 1] == [a[0]] + s[..n] && b[..n + 1] == [b[0]] + t[..n];
    }
  }

  // ---- the order ------------------------------------------------------------------

  lemma {:induction false} LeqTotal(a: string, b: string)
    ensures Leq(a, b) || Leq(b, a)
    decreases |a|
  {
    if a != "" && b != "" && a[0] == b[0] {
      LeqTotal(a[1..], b[1..]);
    }
  }

  lemma {:induction false} LeqAntisymmetric(a: string, b: string)
    requires Leq(a, b) && Leq(b, a)
    ensures a == b
    decreases |a|
  {
    if a != "" && b != "" && a[0] == b[0] {
      LeqAntisymmetric(a[1..], b[1..]);
      assert a == [a[0]] + a[1..] && b == [b[0]] + b[1..];
    }
  }

  lemma {:induction false} LeqTransitive(a: string, b: string, c: string)
    requires Leq(a, b) && Leq(b, c)
    ensures Leq(a, c)
    decreases |a|
  {
    if a != "" && b != "" && c != "" && a[0] == b[0] == c[0] {
      LeqTransitive(a[1..], b[1..], c[1..]);
    }
  }

  lemma PairTotal(p: pair, q: pair)
    ensures PairLeq(p, q) || PairLeq(q, p)
  {
    LeqTotal(p.0, q.0);
    LeqTotal(p.1, q.1);
  }

  lemma PairAntisymmetric(p: pair, q: pair)
    requires PairLeq(p, q) && PairLeq(q, p)
    ensures p == q
  {
    if p.0 != q.0 {
      LeqAntisymmetric(p.0, q.0);
    } else {
      LeqAntisymmetric(p.1, q.1);
    }
  }

  lemma PairTransitive(p: pair, q: pair, r: pair)
    requires PairLeq(p, q) && PairLeq(q, r)
    ensures PairLeq(p, r)
  {
    if p.0 == q.0 == r.0 {
      LeqTransitive(p.1, q.1, r.1);
    } else if p.0 != q.0 && q.0 != r.0 {
      LeqTransitive(p.0, q.0, r.0);
      if p.0 == r.0 {
        LeqAntisymmetric(p.0, q.0);
      }
    }
  }

  // ---- sorting --------------------------------------------------------------------

  lemma {:induction false} InsertSorted(p: pair, s: seq<pair>)
    requires IsSorted(s)
    ensures IsSorted(Insert(p, s)) && multiset(Insert(p, s)) == multiset(s) + multiset{p}
    decreases |s|
  {
    hide PairLeq;
    if s == [] {
    } else if PairLeq(p, s[0]) {
      forall j | 0 <= j < |s| ensures PairLeq(p, s[j]) {
        if j > 0 {
          PairTransitive(p, s[0], s[j]);
        }
      }
    } else {
      PairTotal(p, s[0]);
      InsertSorted(p, s[1..]);
      var t := Insert(p, s[1..]);
      assert s == [s[0]] + s[1..];
      forall j | 0 <= j < |t| ensures PairLeq(s[0], t[j]) {
        assert t[j] in multiset(t);
        FromTail(s, p, t[j]);
      }
    }
  }

  lemma FromTail(s: seq<pair>, p: pair, q: pair)
    requires s != [] && IsSorted(s) && PairLeq(s[0], p)
    requires q in multiset(s[1..]) + multiset{p}
    ensures PairLeq(s[0], q)
  {
    if q != p {
      assert q in s[1..];
    }
  }

  lemma {:induction false} SortedIsSorted(s: seq<pair>)
    ensures IsSorted(Sorted(s)) && multiset(Sorted(s)) == multiset(s)
    decreases |s|
  {
    if s != [] {
      SortedIsSorted(s[1..]);
      InsertSorted(s[0], Sorted(s[1..]));
      assert s == [s[0]] + s[1..];
    }
  }

  lemma FirstsAgree(s: seq<pair>, t: seq<pair>)
    requires s != [] && t != [] && IsSorted(s) && IsSorted(t) && multiset(s) == multiset(t)
    ensures s[0] == t[0]
  {
    hide PairLeq, IsSorted;
    assert s[0] in multiset(t) && t[0] in multiset(s);
    FirstIsLeast(s, t[0]);
    FirstIsLeast(t, s[0]);
    PairAntisymmetric(s[0], t[0]);
  }

  lemma RestOf(s: seq<pair>)
    requires s != []
    ensures s == [s[0]] + s[1..] && multiset(s[1..]) == multiset(s) - multiset{s[0]}
    ensures IsSorted(s) ==> IsSorted(s[1..])
  {
    hide PairLeq;
    assert s == [s[0]] + s[1..];
  }

  /** Two sorted sequences of the same elements are equal. */
  lemma {:induction false} SortedUnique(s: seq<pair>, t: seq<pair>)
    requires IsSorted(s) && IsSorted(t) && multiset(s) == multiset(t)
    ensures s == t
    decreases |s|
  {
    hide PairLeq, IsSorted;
    assert |multiset(s)| == |s| && |multiset(t)| == |t|;
    if s != [] {
      FirstsAgree(s, t);
      RestOf(s);
      RestOf(t);
      SortedUnique(s[1..], t[1..]);
    }
  }

  lemma PairReflexive(p: pair)
    ensures PairLeq(p, p)
  {
    PairTotal(p, p);
  }

  lemma FirstIsLeast(s: seq<pair>, q: pair)
    requires s != [] && IsSorted(s) && q in s
    ensures PairLeq(s[0], q)
  {
    PairReflexive(s[0]);
  }

  /** Sorting forgets the order of its input and nothing else. */
  lemma SortedForgetsOrder(s: seq<pair>, t: seq<pair>)
    ensures Sorted(s) == Sorted(t) <==> multiset(s) == multiset(t)
  {
    SortedIsSorted(s);
    SortedIsSorted(t);
    if multiset(s) == multiset(t) {
      SortedUnique(Sorted(s), Sorted(t));
    }
  }
}
