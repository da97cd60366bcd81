/**
  The tag counter's report: the tally sorted by `compare_entries`. It is the only ordered
  tally of the calls, so neither the bucket layout nor the order of the calls shows in it.
 */
module TagReport {
  import opened TextOrder
  import opened TagCounter

  /** `strcmp`, up to the size of a nonzero result. */
  function StrCmp(a: string, b: string): int {
    if a == b then 0 else if Leq(a, b) then -1 else 1
  }

  function Sign(b: bool): int {
    if b then 1 else 0
  }

  /** `compare_entries`. */
  function Compare(fa: Entry, fb: Entry): int {
    if fb.count != fa.count then Sign(fb.count > fa.count) - Sign(fb.count < fa.count)
    else StrCmp(fa.name, fb.name)
  }

  ghost predicate Ordered(s: seq<Entry>) {
    forall j, k :: 0 <= j < k < |s| ==> Compare(s[j], s[k]) <= 0
  }

  // ---- the order ----------------------------------------------------------------------

  /** What `qsort` asks of its comparison: swapping the arguments changes the sign. */
  lemma CompareSwaps(a: Entry, b: Entry)
    ensures Compare(a, b) < 0 <==> Compare(b, a) > 0
    ensures Compare(a, b) == 0 <==> a == b
  {
    LeqTotal(a.name, b.name);
    if Leq(a.name, b.name) && Leq(b.name, a.name) {
      LeqAntisymmetric(a.name, b.name);
    }
  }

  lemma CompareTransitive(a: Entry, b: Entry, c: Entry)
    requires Compare(a, b) <= 0 && Compare(b, c) <= 0
    ensures Compare(a, c) <= 0
  {
    LeqTotal(a.name, a.name);
    LeqTotal(b.name, b.name);
    if a.count == b.count == c.count {
      assert Leq(a.name, b.name) && Leq(b.name, c.name);
      LeqTransitive(a.name, b.name, c.name);
    }
  }

  // ---- sorting ------------------------------------------------------------------------

  method Insert(e: Entry, s: seq<Entry>) returns (r: seq<Entry>)
    requires Ordered(s)
    ensures Ordered(r) && multiset(r) == multiset(s) + multiset{e}
  {
    hide Compare;
    var k := 0;
    while k < |s| && Compare(s[k], e) <= 0
      invariant 0 <= k <= |s|
      invariant forall j :: 0 <= j < k ==> Compare(s[j], e) <= 0
    {
      k := k + 1;
    }
    BeforeRest(e, s, k);
    r := s[..k] + [e] + s[k..];
    assert s == s[..k] + s[k..];
  }

  lemma BeforeRest(e: Entry, s: seq<Entry>, k: nat)
    requires Ordered(s) && k <= |s| && (k < |s| ==> Compare(s[k], e) > 0)
    ensures forall j :: k <= j < |s| ==> Compare(e, s[j]) <= 0
  {
    hide Compare;
    forall j | k <= j < |s| ensures Compare(e, s[j]) <= 0 {
      CompareSwaps(e, s[k]);
      if k < j {
        CompareTransitive(e, s[k], s[j]);
      }
    }
  }

  /** `qsort` by its contract: an ordered permutation. Which algorithm it uses cannot show. */
  method Sort(s: seq<Entry>) returns (r: seq<Entry>)
    ensures Ordered(r) && multiset(r) == multiset(s)
  {
    hide Ordered;
    r := Nothing();
    for k := 0 to |s|
      invariant Ordered(r) && multiset(r) == multiset(s[..k])
    {
      assert s[..k + 1] == s[..k] + [s[k]];
      r := Insert(s[k], r);
    }
    assert s[..|s|] == s;
  }

  method Nothing() returns (r: seq<Entry>)
    ensures Ordered(r) && r == []
  {
    r := [];
  }

  /** The end of `main`: flatten, sort, and list. */
  method Report(table: TagTable) returns (report: seq<Entry>)
    requires table.Valid()
    ensures Ordered(report) && IsTally(report, multiset(table.calls))
    ensures |report| == table.nDistinct
    ensures forall j, k :: 0 <= j < k < |report| ==>
      || report[j].count > report[k].count
      || (report[j].count == report[k].count && Before(report[j].name, report[k].name))
  {
    hide TagTable.Valid, IsTally, Ordered, Before;
    var flat := table.Flatten();
    report := Sort(flat[..]);
    assert |multiset(report)| == |report|;
    assert |multiset(flat[..])| == |flat[..]|;
    TallyIsUnordered(flat[..], report, multiset(table.calls));
    OrderedShows(report, multiset(table.calls));
  }

  /** What the order means for counts and names, without repetitions. */
  lemma OrderedShows(report: seq<Entry>, names: multiset<string>)
    requires Ordered(report) && IsTally(report, names)
    ensures forall j, k :: 0 <= j < k < |report| ==>
      || report[j].count > report[k].count
      || (report[j].count == report[k].count && Before(report[j].name, report[k].name))
  {
    hide Before;
    forall j, k | 0 <= j < k < |report|
      ensures report[j].count > report[k].count
           || (report[j].count == report[k].count && Before(report[j].name, report[k].name))
    {
      CompareShows(report[j], report[k]);
    }
  }

  lemma CompareShows(a: Entry, b: Entry)
    requires Compare(a, b) <= 0 && a.name != b.name
    ensures a.count > b.count || (a.count == b.count && Before(a.name, b.name))
  {
    hide Before, Leq;
    LeqIsBefore(a.name, b.name);
  }

  // ---- the report is determined by the tally ----------------------------------------------

  lemma DistinctOnce(s: seq<Entry>)
    requires forall j, k :: 0 <= j < k < |s| ==> s[j].name != s[k].name
    ensures forall e :: e in s ==> multiset(s)[e] == 1
    ensures forall e, f :: e in s && f in s && e.name == f.name ==> e == f
  {
    forall e | e in s ensures multiset(s)[e] == 1 {
      OccursOnce(s, e);
    }
  }

  lemma {:induction false} OccursOnce(s: seq<Entry>, e: Entry)
    requires forall j, k :: 0 <= j < k < |s| ==> s[j].name != s[k].name
    ensures multiset(s)[e] == if e in s then 1 else 0
    decreases |s|
  {
    if s != [] {
      var rest := s[..|s| - 1];
      assert s == rest + [s[|s| - 1]];
      OccursOnce(rest, e);
    }
  }

  lemma TallyIsUnordered(s: seq<Entry>, t: seq<Entry>, names: multiset<string>)
    requires IsTally(s, names) && multiset(s) == multiset(t)
    ensures IsTally(t, names)
  {
    DistinctOnce(s);
    forall e ensures e in s <==> e in t {
      assert e in multiset(s) <==> e in multiset(t);
    }
    forall j, k | 0 <= j < k < |t| ensures t[j].name != t[k].name {
      if t[j] == t[k] {
        TwoPlaces(t, j, k);
      }
    }
  }

  lemma TwoPlaces(t: seq<Entry>, j: nat, k: nat)
    requires j < k < |t| && t[j] == t[k]
    ensures multiset(t)[t[j]] >= 2
  {
    var front, back := t[..k], t[k..];
    assert t == front + back && front[j] == t[j] && back[0] == t[k];
    assert t[j] in multiset(front) && t[j] in multiset(back);
    assert multiset(t) == multiset(front) + multiset(back);
  }

  /** Two ordered sequences without repetitions and with the same entries are the same. */
  lemma {:induction false} OrderedUnique(s: seq<Entry>, t: seq<Entry>)
    requires Ordered(s) && Ordered(t)
    requires forall j, k :: 0 <= j < k < |s| ==> s[j] != s[k]
    requires forall j, k :: 0 <= j < k < |t| ==> t[j] != t[k]
    requires forall e :: e in s <==> e in t
    ensures s == t
    decreases |s|
  {
    hide Compare;
    HeadIsIn(s);
    HeadIsIn(t);
    if s != [] {
      CompareSwaps(s[0], t[0]);
      assert s[0] == t[0];
      RestAgrees(s, t);
      OrderedUnique(s[1..], t[1..]);
    }
  }

  lemma HeadIsIn(s: seq<Entry>)
    ensures s == [] || s[0] in s
  {}

  lemma RestAgrees(s: seq<Entry>, t: seq<Entry>)
    requires s != [] && t != [] && s[0] == t[0]
    requires forall j, k :: 0 <= j < k < |s| ==> s[j] != s[k]
    requires forall j, k :: 0 <= j < k < |t| ==> t[j] != t[k]
    requires forall e :: e in s <==> e in t
    ensures forall e :: e in s[1..] <==> e in t[1..]
    ensures s == [s[0]] + s[1..] && t == [t[0]] + t[1..]
  {
    assert s == [s[0]] + s[1..] && t == [t[0]] + t[1..];
    assert s[0] !in s[1..] && t[0] !in t[1..];
    forall e ensures e in s[1..] <==> e in t[1..] {
      assert e in s <==> e in s[1..] || e == s[0];
      assert e in t <==> e in t[1..] || e == t[0];
    }
  }

  /** Two tallies of two rounds of calls, once ordered, are equal exactly when the calls are the same up to order. */
  lemma ReportShowsTallyOnly(r: seq<Entry>, rs: seq<string>, t: seq<Entry>, ts: seq<string>)
    requires Ordered(r) && IsTally(r, multiset(rs))
    requires Ordered(t) && IsTally(t, multiset(ts))
    ensures r == t <==> multiset(rs) == multiset(ts)
  {
    hide Ordered;
    if multiset(rs) == multiset(ts) {
      SameEntries(r, t, multiset(rs));
      OrderedUnique(r, t);
    }
    if r == t {
      forall name: string ensures multiset(rs)[name] == multiset(ts)[name] {
        TallyTells(r, multiset(rs), multiset(ts), name);
      }
    }
  }

  lemma SameEntries(r: seq<Entry>, t: seq<Entry>, names: multiset<string>)
    requires IsTally(r, names) && IsTally(t, names)
    ensures forall e :: e in r <==> e in t
  {
    forall e ensures e in r <==> e in t {
      assert e in r <==> e.name in names && e.count == names[e.name];
      assert e in t <==> e.name in names && e.count == names[e.name];
    }
  }

  lemma TallyTells(r: seq<Entry>, m: multiset<string>, n: multiset<string>, name: string)
    requires IsTally(r, m) && IsTally(r, n)
    ensures m[name] == n[name]
  {
    if name in m {
      assert Entry(name, m[name]) in r;
    }
    if name in n {
      assert Entry(name, n[name]) in r;
    }
  }

  // ---- the counts add up -----------------------------------------------------------------

  function Total(list: seq<Entry>): nat {
    if list == [] then 0 else Total(list[..|list| - 1]) + list[|list| - 1].count
  }

  /** The counts add up to the number of calls. */
  lemma {:induction false} CountsAddUp(list: seq<Entry>, names: multiset<string>)
    requires IsTally(list, names)
    ensures Total(list) == |names|
    decreases |list|
  {
    if list == [] {
      assert names == multiset{};
    } else {
      var last := list[|list| - 1];
      assert last in list;
      WithoutLast(list, names);
      CountsAddUp(list[..|list| - 1], names[last.name := 0]);
    }
  }

  lemma WithoutLast(list: seq<Entry>, names: multiset<string>)
    requires list != [] && IsTally(list, names)
    ensures IsTally(list[..|list| - 1], names[list[|list| - 1].name := 0])
  {
    var last, rest := list[|list| - 1], list[..|list| - 1];
    assert list == rest + [last];
    forall e | e in rest ensures e.name != last.name && e in list {}
  }
}
