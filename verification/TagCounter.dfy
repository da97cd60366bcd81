/**
  The tag counter's chained hash table: linked nodes behind 257 bucket heads, proved
  to hold the tally of the calls, and its report, proved to depend on the tally alone.
  A C string is a string of byte characters without the terminating NUL.
 */
module TagCounter {
  import opened Core
  import opened TextOrder

  const HASH_BUCKETS: int := 257
  const WORD: int := 0x1_0000_0000_0000_0000

  /** `hash_str` in 64-bit unsigned arithmetic. */
  function Hash(s: string): (h: nat)
    ensures h < WORD
  {
    if s == "" then 5381 else (Hash(s[..|s| - 1]) * 33 + s[|s| - 1] as int) % WORD
  }

  function Bucket(name: string): (b: nat)
    ensures b < HASH_BUCKETS
  {
    Hash(name) % HASH_BUCKETS
  }

  /** djb2: the hash is the number with these digits to base 33, led by 5381, modulo 2^64; the bucket is
      its remainder by 257. */
  lemma {:induction false} HashIsDjb2(s: string)
    ensures Hash(s) == (5381 * Pow33(|s|) + Digits(s)) % WORD
    ensures Bucket(s) == (5381 * Pow33(|s|) + Digits(s)) % 0x1_0000_0000_0000_0000 % 257
    decreases |s|
  {
    if s != "" {
      var init, last := s[..|s| - 1], s[|s| - 1] as int;
      HashIsDjb2(init);
      var n := 5381 * Pow33(|init|) + Digits(init);
      ModTimes(n, last);
      DigitsSnoc(init, s[|s| - 1]);
      assert s == init + [s[|s| - 1]];
      assert n * 33 + last == 5381 * Pow33(|s|) + Digits(s);
    }
  }

  lemma ModTimes(n: nat, c: nat)
    ensures (n % WORD * 33 + c) % WORD == (n * 33 + c) % WORD
  {
    var q := n / WORD;
    assert n * 33 + c == (n % WORD * 33 + c) + (q * 33) * WORD;
    ModAdds(n % WORD * 33 + c, q * 33);
  }

  lemma ModAdds(x: nat, k: nat)
    ensures (x + k * WORD) % WORD == x % WORD
  {}

  function Pow33(n: nat): nat {
    if n == 0 then 1 else 33 * Pow33(n - 1)
  }

  /** The characters as digits to base 33, the last the lowest. */
  function Digits(s: string): nat {
    if s == "" then 0 else s[0] as int * Pow33(|s| - 1) + Digits(s[1..])
  }

  lemma {:induction false} DigitsSnoc(s: string, c: char)
    ensures Digits(s + [c]) == 33 * Digits(s) + c as int
    decreases |s|
  {
    if s == "" {
      assert s + [c] == [c] && [c][1..] == "";
      assert Pow33(0) == 1;
    } else {
      assert (s + [c])[1..] == s[1..] + [c];
      DigitsSnoc(s[1..], c);
      DigitStep(s[0] as int, |s|, Digits(s[1..]), c as int);
    }
  }

  lemma DigitStep(d: int, n: nat, low: int, c: int)
    requires n > 0
    ensures d * Pow33(n) + (33 * low + c) == 33 * (d * Pow33(n - 1) + low) + c
  {}

  method HashStr(s: string) returns (h: nat)
    ensures h == Hash(s)
  {
    h := 5381;
    for i := 0 to |s|
      invariant h == Hash(s[..i])
    {
      assert s[..i + 1][..i] == s[..i];
      h := (h * 33 + s[i] as int) % WORD;
    }
    assert s[..|s|] == s;
  }

  /** `TagNode`: only its count changes after it has been linked in. */
  class TagNode {
    const name: string
    const next: TagNode?
    var count: nat
    /** The nodes that follow in the bucket. */
    ghost const below: seq<TagNode>

    constructor (name: string, next: TagNode?)
      ensures this.name == name && this.next == next && count == 1 && below == Nodes(next)
    {
      this.name, this.next, count := name, next, 1;
      below := Nodes(next);
    }
  }

  /** The nodes reachable from a bucket head, in order. */
  ghost function Nodes(n: TagNode?): seq<TagNode> {
    if n == null then [] else [n] + n.below
  }

  /** The recorded tails agree with the links. */
  ghost predicate Linked(n: TagNode?)
    decreases |Nodes(n)|
  {
    n != null ==> n.below == Nodes(n.next) && Linked(n.next)
  }

  /** `FlatEntry`. */
  datatype Entry = Entry(name: string, count: nat)

  class TagTable {
    const buckets: array<TagNode?>
    var nDistinct: nat
    ghost var nodes: set<TagNode>
    /** The names counted so far, one per call. */
    ghost var calls: seq<string>

    /** The chains are well formed and cover exactly the nodes, each in the bucket of its name. */
    ghost predicate Chained()
      reads this`nodes, buckets
    {
      && buckets.Length == HASH_BUCKETS
      && (forall b :: 0 <= b < HASH_BUCKETS ==> Linked(buckets[b]))
      && (forall b, n :: 0 <= b < HASH_BUCKETS && n in Nodes(buckets[b]) ==> n in nodes && Bucket(n.name) == b)
      && (forall n :: n in nodes ==> n in Nodes(buckets[Bucket(n.name)]))
    }

    /** One node per name that was counted. */
    ghost predicate NamesMatch()
      reads this`nodes, this`calls, this`nDistinct
    {
      && (forall n, m :: n in nodes && m in nodes && n.name == m.name ==> n == m)
      && (forall n :: n in nodes ==> n.name in calls)
      && (forall name :: name in calls ==> exists n :: n in nodes && n.name == name)
      && nDistinct == |nodes|
    }

    /** Every node counts the calls with its name. */
    ghost predicate CountsMatch()
      reads this`nodes, this`calls, nodes
    {
      forall n :: n in nodes ==> n.count == multiset(calls)[n.name]
    }

    ghost predicate Valid()
      reads this, buckets, nodes
    {
      Chained() && NamesMatch() && CountsMatch()
    }

    constructor ()
      ensures Valid() && calls == [] && nodes == {} && fresh(buckets)
    {
      buckets := new TagNode?[HASH_BUCKETS](_ => null);
      nDistinct, nodes, calls := 0, {}, [];
    }

    /** The search along one chain. */
    method Find(name: string, idx: nat) returns (node: TagNode?)
      requires Valid() && idx == Bucket(name)
      ensures node != null ==> node in nodes && node.name == name
      ensures node == null ==> forall n :: n in nodes ==> n.name != name
    {
      hide Bucket, Linked, NamesMatch, CountsMatch;
      node := buckets[idx];
      while node != null
        invariant Linked(node)
        invariant forall n :: n in Nodes(node) ==> n in nodes
        invariant forall n :: n in nodes && n.name == name ==> n in Nodes(node)
        decreases |Nodes(node)|
      {
        if node.name == name {
          return;
        }
        Onward(node);
        node := node.next;
      }
    }

    lemma Onward(node: TagNode)
      requires Linked(node)
      ensures Linked(node.next) && Nodes(node) == [node] + Nodes(node.next)
    {}

    /** `tag_increment`. */
    method Increment(name: string)
      requires Valid()
      modifies this, buckets, nodes
      ensures Valid() && calls == old(calls) + [name] && fresh(nodes - old(nodes))
    {
      var h := HashStr(name);
      var idx := h % HASH_BUCKETS;
      var node := Find(name, idx);
      if node != null {
        CountExisting(node);
      } else {
        AddNew(name, idx);
      }
    }

    method CountExisting(node: TagNode)
      requires Valid() && node in nodes
      modifies node, this`calls
      ensures Valid() && calls == old(calls) + [node.name]
    {
      hide Chained;
      node.count := node.count + 1;
      calls := calls + [node.name];
      assert NamesMatch() by {
        forall name | name in calls ensures exists n :: n in nodes && n.name == name {
          assert name == node.name || name in old(calls);
        }
      }
      CountedOnce(old(calls), node.name);
      hide NamesMatch;
    }

    /** A new node goes to the front of its bucket. */
    method AddNew(name: string, idx: nat)
      requires Valid() && idx == Bucket(name) && forall n :: n in nodes ==> n.name != name
      modifies this, buckets
      ensures Valid() && calls == old(calls) + [name] && fresh(nodes - old(nodes))
    {
      hide Bucket, Chained;
      var node := LinkIn(name, idx);
      CountIn(node);
    }

    method LinkIn(name: string, idx: nat) returns (node: TagNode)
      requires Chained() && idx == Bucket(name)
      modifies this`nodes, buckets
      ensures Chained() && fresh(node) && nodes == old(nodes) + {node}
      ensures node.name == name && node.count == 1
    {
      hide Bucket, Linked;
      node := new TagNode(name, buckets[idx]);
      LinkedFront(node);
      Link(node, idx);
    }

    method Link(node: TagNode, idx: nat)
      requires Chained() && Linked(node) && idx == Bucket(node.name) && node !in nodes
      requires node.next == buckets[idx] && node.below == Nodes(node.next)
      modifies this`nodes, buckets
      ensures Chained() && nodes == old(nodes) + {node}
    {
      hide Bucket, Linked;
      buckets[idx] := node;
      nodes := nodes + {node};
    }

    lemma LinkedFront(node: TagNode)
      requires node.below == Nodes(node.next) && Linked(node.next)
      ensures Linked(node)
    {}

    method CountIn(node: TagNode)
      requires node in nodes && node.count == 1
      requires forall n :: n in nodes && n != node ==> n.name != node.name
      requires forall n, m :: n in nodes && m in nodes && n.name == m.name ==> n == m
      requires forall n :: n in nodes && n != node ==> n.name in calls && n.count == multiset(calls)[n.name]
      requires forall name :: name in calls ==> exists n :: n in nodes && n != node && n.name == name
      requires nDistinct == |nodes| - 1
      modifies this`nDistinct, this`calls
      ensures NamesMatch() && CountsMatch() && calls == old(calls) + [node.name]
    {
      nDistinct := nDistinct + 1;
      assert node.name !in calls;
      CountedOnce(calls, node.name);
      calls := calls + [node.name];
    }

    /**
      The nested loops of `main` that fill the array of `n_distinct` entries: every write is
      in bounds, the array is filled, and it tallies the calls.
     */
    method Flatten() returns (flat: array<Entry>)
      requires Valid()
      ensures fresh(flat) && flat.Length == nDistinct
      ensures IsTally(flat[..], multiset(calls))
    {
      hide Chained, NamesMatch, CountsMatch, Visited, IsTally;
      NothingVisited();
      flat := new Entry[nDistinct];
      var idx := 0;
      ghost var order: seq<TagNode> := [];
      for i := 0 to HASH_BUCKETS
        invariant Valid() && fresh(flat) && flat.Length == nDistinct == |nodes|
        invariant idx == |order| <= nDistinct && Lists(flat[..idx], order)
        invariant Visited(order, i - 1, null)
      {
        idx, order := FlattenChain(flat, idx, order, i);
      }
      AllVisited(order);
      assert flat[..idx] == flat[..];
      FilledIsTally(flat[..], order);
    }

    /** The inner loop, over one bucket. */
    method FlattenChain(flat: array<Entry>, start: nat, ghost visited: seq<TagNode>, b: nat)
      returns (idx: nat, ghost order: seq<TagNode>)
      requires Chained() && b < HASH_BUCKETS && flat.Length == |nodes|
      requires start == |visited| <= flat.Length && Lists(flat[..start], visited)
      requires Visited(visited, b - 1, null)
      modifies flat
      ensures idx == |order| <= flat.Length && Lists(flat[..idx], order)
      ensures Visited(order, b, null)
    {
      hide Chained, Visited, Lists, Linked, Bucket;
      EnterBucket(visited, b);
      idx, order := start, visited;
      var node := buckets[b];
      while node != null
        invariant Linked(node) && InBucket(node, b)
        invariant idx == |order| <= flat.Length && Lists(flat[..idx], order)
        invariant Visited(order, b, node)
        decreases |Nodes(node)|
      {
        RoomLeft(order, node, b);
        Write(flat, idx, node, order);
        order := order + [node];
        idx := idx + 1;
        node := node.next;
      }
    }

    method Write(flat: array<Entry>, idx: nat, node: TagNode, ghost order: seq<TagNode>)
      requires idx == |order| < flat.Length && Lists(flat[..idx], order)
      modifies flat
      ensures Lists(flat[..idx + 1], order + [node])
    {
      flat[idx] := Entry(node.name, node.count);
    }

    /** The nodes still ahead belong to the bucket. */
    ghost predicate InBucket(node: TagNode?, b: int)
      reads this`nodes
    {
      forall n :: n in Nodes(node) ==> n in nodes && Bucket(n.name) == b
    }

    lemma EnterBucket(order: seq<TagNode>, b: nat)
      requires Chained() && b < HASH_BUCKETS && Visited(order, b - 1, null)
      ensures buckets.Length == HASH_BUCKETS && Visited(order, b, buckets[b])
      ensures Linked(buckets[b]) && InBucket(buckets[b], b)
    {
      hide Bucket, Linked;
    }

    /** The node the loop stands at has no entry yet, so the array has room for it. */
    lemma RoomLeft(order: seq<TagNode>, node: TagNode, b: int)
      requires Visited(order, b, node) && InBucket(node, b) && Linked(node)
      ensures |order| < |nodes|
      ensures Linked(node.next) && InBucket(node.next, b) && |Nodes(node.next)| < |Nodes(node)|
      ensures Visited(order + [node], b, node.next)
    {
      hide Bucket;
      NotBelowItself(node);
      assert node !in order;
      DistinctFit(order, nodes - {node});
    }

    lemma FilledIsTally(entries: seq<Entry>, order: seq<TagNode>)
      requires NamesMatch() && CountsMatch()
      requires Lists(entries, order) && Visited(order, HASH_BUCKETS - 1, null)
      ensures IsTally(entries, multiset(calls))
    {
      AllVisited(order);
      hide Visited;
      forall name | name in multiset(calls) ensures Entry(name, multiset(calls)[name]) in entries {
        assert name in calls;
        var n :| n in nodes && n.name == name;
        var k :| 0 <= k < |order| && order[k] == n;
        assert entries[k] == Entry(name, multiset(calls)[name]);
      }
    }

    lemma AllVisited(order: seq<TagNode>)
      requires Visited(order, HASH_BUCKETS - 1, null)
      ensures |order| == |nodes| && forall n :: n in order <==> n in nodes
      ensures forall j, k :: 0 <= j < k < |order| ==> order[j] != order[k]
    {
      hide Bucket;
      DistinctFit(order, nodes);
      SetFits(order, nodes);
    }

    lemma NothingVisited()
      requires NamesMatch()
      ensures Visited([], -1, null) && nDistinct == |nodes|
    {}

    /** What the loops have visited when they stand at `node` in bucket `b`. */
    ghost predicate Visited(order: seq<TagNode>, b: int, node: TagNode?)
      reads this`nodes
    {
      && (forall j, k :: 0 <= j < k < |order| ==> order[j] != order[k])
      && (forall n :: n in order ==> n in nodes && Reached(n, b, node))
      && (forall n :: n in nodes && Reached(n, b, node) ==> n in order)
    }
  }

  ghost predicate Reached(n: TagNode, b: int, node: TagNode?) {
    Bucket(n.name) < b || (Bucket(n.name) == b && n !in Nodes(node))
  }

  /** The entries are the nodes' names and counts. */
  ghost predicate Lists(entries: seq<Entry>, order: seq<TagNode>)
    reads order
  {
    && |entries| == |order|
    && forall k :: 0 <= k < |order| ==> entries[k] == Entry(order[k].name, order[k].count)
  }

  /** A chain never comes back to its first node. */
  lemma NotBelowItself(node: TagNode)
    requires Linked(node)
    ensures node !in node.below
  {
    if node in node.below {
      ShorterBelow(node.next, node);
    }
  }

  lemma {:induction false} ShorterBelow(first: TagNode?, n: TagNode)
    requires Linked(first) && n in Nodes(first)
    ensures |n.below| < |Nodes(first)|
    decreases |Nodes(first)|
  {
    if n != first {
      ShorterBelow(first.next, n);
    }
  }

  lemma {:induction false} DistinctFit<T>(s: seq<T>, all: set<T>)
    requires forall j, k :: 0 <= j < k < |s| ==> s[j] != s[k]
    requires forall x :: x in s ==> x in all
    ensures |s| <= |all|
    decreases |s|
  {
    if s != [] {
      var rest := s[..|s| - 1];
      assert forall x :: x in s <==> x in rest || x == s[|s| - 1];
      DistinctFit(rest, all - {s[|s| - 1]});
    }
  }

  // ---- the tally --------------------------------------------------------------------

  lemma {:induction false} SetFits<T>(s: seq<T>, all: set<T>)
    requires forall x :: x in all ==> x in s
    ensures |all| <= |s|
    decreases |s|
  {
    if s != [] {
      var rest := s[..|s| - 1];
      assert forall x :: x in s <==> x in rest || x == s[|s| - 1];
      SetFits(rest, all - {s[|s| - 1]});
    } else {
      assert all == {};
    }
  }

  /** One entry per name that was counted, with the number of its calls. */
  ghost predicate IsTally(list: seq<Entry>, names: multiset<string>) {
    && (forall j, k :: 0 <= j < k < |list| ==> list[j].name != list[k].name)
    && (forall e :: e in list ==> e.count == names[e.name] > 0)
    && (forall name :: name in names ==> Entry(name, names[name]) in list)
  }

  lemma CountedOnce(calls: seq<string>, name: string)
    ensures multiset(calls + [name])[name] == multiset(calls)[name] + 1
    ensures forall other :: other != name ==> multiset(calls + [name])[other] == multiset(calls)[other]
    ensures name !in calls ==> multiset(calls)[name] == 0
  {}
}
