/**
  The byte stream behind the semantic digest: a tagged, length-prefixed record per
  event, adjacent text merged. It depends on the merged trace alone, and it can be
  read back.
 */
module EventDigest {
  import opened Core

  type bytes = seq<byte>

  /** A parser callback. */
  datatype Event =
    | Start(name: bytes, attributes: seq<(bytes, bytes)>)
    | End(name: bytes)
    | Text(text: bytes)

  const TAG_START: byte := 'S' as int
  const TAG_END: byte := 'E' as int
  const TAG_TEXT: byte := 'T' as int

  const LIMIT: int := 0x1_0000_0000

  // ---- serialization ----------------------------------------------------------

  /** `digest_u32`: the low 32 bits, least significant byte first. */
  function U32(n: nat): (r: bytes)
    ensures |r| == 4
  {
    var n1 := n / 0x100;
    var n2 := n1 / 0x100;
    var n3 := n2 / 0x100;
    [n % 0x100, n1 % 0x100, n2 % 0x100, n3 % 0x100]
  }

  /** `digest_string`. */
  function Str(s: bytes): bytes {
    U32(|s|) + s
  }

  function Attributes(atts: seq<(bytes, bytes)>): bytes {
    if atts == [] then [] else Str(atts[0].0) + Str(atts[0].1) + Attributes(atts[1..])
  }

  function Record(e: Event): bytes {
    match e
    case Start(name, atts) => [TAG_START] + Str(name) + U32(|atts|) + Attributes(atts)
    case End(name) => [TAG_END] + Str(name)
    case Text(text) => [TAG_TEXT] + Str(text)
  }

  function Stream(events: seq<Event>): bytes {
    if events == [] then [] else Stream(events[..|events| - 1]) + Record(events[|events| - 1])
  }

  // ---- merging -----------------------------------------------------------------

  function Flushed(done: seq<Event>, pending: bytes): seq<Event> {
    if pending == [] then done else done + [Text(pending)]
  }

  /** The events finished so far and the text still collected. */
  function Scan(trace: seq<Event>): (seq<Event>, bytes) {
    if trace == [] then ([], [])
    else
      var (done, pending) := Scan(trace[..|trace| - 1]);
      match trace[|trace| - 1]
      case Text(text) => (done, pending + text)
      case e => (Flushed(done, pending) + [e], [])
  }

  /** The trace with adjacent text merged and empty text dropped. */
  function Merge(trace: seq<Event>): seq<Event> {
    Flushed(Scan(trace).0, Scan(trace).1)
  }

  /** No empty text, and no two texts side by side. */
  predicate IsMerged(events: seq<Event>) {
    && (forall i :: 0 <= i < |events| && events[i].Text? ==> events[i].text != [])
    && (forall i :: 0 < i < |events| && events[i].Text? ==> !events[i - 1].Text?)
  }

  lemma ScanSnoc(trace: seq<Event>, e: Event)
    ensures var (done, pending) := Scan(trace);
      Scan(trace + [e]) ==
        match e
        case Text(text) => (done, pending + text)
        case _ => (Flushed(done, pending) + [e], [])
  {
    assert (trace + [e])[..|trace|] == trace;
  }

  /** `done` never ends in text, so flushing keeps texts apart. */
  lemma {:induction false} ScanShape(trace: seq<Event>)
    ensures var done := Scan(trace).0;
      IsMerged(done) && (done != [] ==> !done[|done| - 1].Text?)
    decreases |trace|
  {
    if trace != [] {
      ScanShape(trace[..|trace| - 1]);
    }
  }

  lemma MergeIsMerged(trace: seq<Event>)
    ensures IsMerged(Merge(trace))
  {
    hide Scan;
    ScanShape(trace);
  }

  /** Scanning a merged trace only sets its last text aside. */
  lemma {:induction false} ScanMerged(events: seq<Event>)
    requires IsMerged(events)
    ensures Merge(events) == events
    ensures var (done, pending) := Scan(events);
      events != [] && !events[|events| - 1].Text? ==> pending == [] && done == events
    decreases |events|
  {
    if events != [] {
      var init, last := events[..|events| - 1], events[|events| - 1];
      ScanMerged(init);
      ScanSnoc(init, last);
      assert events == init + [last];
      if last.Text? {
        assert init != [] ==> !init[|init| - 1].Text?;
        assert [] + last.text == last.text;
      }
    }
  }

  /** Merging leaves a merged trace alone; in particular merging twice is merging once. */
  lemma MergeIdempotent(trace: seq<Event>)
    ensures Merge(Merge(trace)) == Merge(trace)
  {
    hide Scan, IsMerged, Merge;
    MergeIsMerged(trace);
    ScanMerged(Merge(trace));
  }

  /** The scan of a trace continues from the scan of its beginning alone. */
  lemma {:induction false} ScanDependsOnScan(a: seq<Event>, b: seq<Event>, rest: seq<Event>)
    requires Scan(a) == Scan(b)
    ensures Scan(a + rest) == Scan(b + rest)
    decreases |rest|
  {
    hide Scan, Flushed;
    if rest == [] {
      assert a + rest == a && b + rest == b;
    } else {
      var init, last := rest[..|rest| - 1], rest[|rest| - 1];
      ScanDependsOnScan(a, b, init);
      ScanSnoc(a + init, last);
      ScanSnoc(b + init, last);
      assert a + rest == (a + init) + [last] && b + rest == (b + init) + [last];
    }
  }

  /** Cutting a text in two, anywhere in a trace, changes nothing. */
  lemma SplitInvariant(before: seq<Event>, x: bytes, y: bytes, after: seq<Event>)
    ensures Merge(before + [Text(x + y)] + after) == Merge(before + [Text(x), Text(y)] + after)
  {
    hide Scan, Merge;
    ScanSplit(before, x, y);
    ScanDependsOnScan(before + [Text(x + y)], before + [Text(x), Text(y)], after);
    MergeFromScan(before + [Text(x + y)] + after, before + [Text(x), Text(y)] + after);
  }

  lemma ScanSplit(before: seq<Event>, x: bytes, y: bytes)
    ensures Scan(before + [Text(x + y)]) == Scan(before + [Text(x), Text(y)])
  {
    hide Scan;
    ScanSnoc(before, Text(x + y));
    ScanSnoc(before, Text(x));
    ScanSnoc(before + [Text(x)], Text(y));
    assert before + [Text(x), Text(y)] == before + [Text(x)] + [Text(y)];
    assert (Scan(before).1 + x) + y == Scan(before).1 + (x + y);
  }

  lemma MergeFromScan(a: seq<Event>, b: seq<Event>)
    requires Scan(a) == Scan(b)
    ensures Merge(a) == Merge(b)
  {
    hide Scan;
  }

  /** Empty text, anywhere in a trace, changes nothing. */
  lemma EmptyTextInvariant(before: seq<Event>, after: seq<Event>)
    ensures Merge(before + [Text([])] + after) == Merge(before + after)
  {
    ScanSnoc(before, Text([]));
    assert Scan(before).1 + [] == Scan(before).1;
    hide Scan;
    ScanDependsOnScan(before + [Text([])], before, after);
  }

  // ---- a stream written out -------------------------------------------------------

  /** A string of one byte. */
  lemma SampleString(b: byte)
    ensures U32(1) == [1, 0, 0, 0] && Str([b]) == [1, 0, 0, 0, b]
  {}

  lemma SampleAttributes(k: byte, v: byte)
    ensures Attributes([([k], [v])]) == Str([k]) + Str([v])
  {
    hide Str;
    assert [([k], [v])][1..] == [];
    assert Attributes([]) == [];
  }

  /** The records of `<a k="v">`, `b` and `</a>`, byte by byte. */
  lemma SampleRecords()
    ensures Record(Start([0x61], [([0x6b], [0x76])]))
         == [0x53] + [1, 0, 0, 0, 0x61] + [1, 0, 0, 0] + ([1, 0, 0, 0, 0x6b] + [1, 0, 0, 0, 0x76])
    ensures Record(Text([0x62])) == [0x54] + [1, 0, 0, 0, 0x62]
    ensures Record(End([0x61])) == [0x45] + [1, 0, 0, 0, 0x61]
  {
    hide Str, Attributes, U32;
    SampleString(0x61);
    SampleString(0x62);
    SampleString(0x6b);
    SampleString(0x76);
    SampleAttributes(0x6b, 0x76);
  }

  /** The stream of several events is their records one behind the other. */
  lemma StreamOfThree(d: Event, e: Event, f: Event)
    ensures Stream([d, e, f]) == Record(d) + Record(e) + Record(f)
  {
    hide Record, Stream;
    StreamOne(d);
    StreamSnoc([d], e);
    StreamSnoc([d, e], f);
    assert [d] + [e] == [d, e] && [d, e] + [f] == [d, e, f];
  }

  // ---- reading the stream back --------------------------------------------------

  /** Are all lengths and attribute counts below `bound`? */
  predicate Below(e: Event, bound: nat) {
    match e
    case Start(name, atts) =>
      |name| < bound && |atts| < bound && forall a :: a in atts ==> |a.0| < bound && |a.1| < bound
    case End(name) => |name| < bound
    case Text(text) => |text| < bound
  }

  /** Lengths and attribute counts that fit their 32-bit fields. */
  predicate Small(e: Event) {
    Below(e, LIMIT)
  }

  predicate AllBelow(events: seq<Event>, bound: nat) {
    forall e :: e in events ==> Below(e, bound)
  }

  function Number(a: int, b: int, c: int, d: int): int {
    a + 0x100 * b + 0x1_0000 * c + 0x100_0000 * d
  }

  function ReadU32(s: bytes): Option<(nat, bytes)> {
    if |s| < 4 then None
    else Some((Number(s[0], s[1], s[2], s[3]), s[4..]))
  }

  function ReadStr(s: bytes): (r: Option<(bytes, bytes)>)
    ensures r.Some? ==> |r.value.1| < |s|
  {
    match ReadU32(s)
    case None => None
    case Some((n, rest)) => if |rest| < n then None else Some((rest[..n], rest[n..]))
  }

  function ReadAttributes(count: nat, s: bytes): (r: Option<(seq<(bytes, bytes)>, bytes)>)
    ensures r.Some? ==> |r.value.1| <= |s|
    decreases count
  {
    if count == 0 then Some(([], s))
    else
      match ReadStr(s)
      case None => None
      case Some((key, s1)) =>
        match ReadStr(s1)
        case None => None
        case Some((value, s2)) =>
          match ReadAttributes(count - 1, s2)
          case None => None
          case Some((atts, rest)) => Some(([(key, value)] + atts, rest))
  }

  /** The attribute count and the attributes of a start tag. */
  function ReadPairs(name: bytes, s: bytes): (r: Option<(Event, bytes)>)
    ensures r.Some? ==> |r.value.1| <= |s|
  {
    match ReadU32(s)
    case None => None
    case Some((count, s1)) =>
      match ReadAttributes(count, s1)
      case None => None
      case Some((atts, rest)) => Some((Start(name, atts), rest))
  }

  function ReadStart(s: bytes): (r: Option<(Event, bytes)>)
    ensures r.Some? ==> |r.value.1| <= |s|
  {
    match ReadStr(s)
    case None => None
    case Some((name, s1)) => ReadPairs(name, s1)
  }

  function ReadEvent(s: bytes): (r: Option<(Event, bytes)>)
    ensures r.Some? ==> |r.value.1| < |s|
  {
    if s == [] then None
    else if s[0] == TAG_START then ReadStart(s[1..])
    else
      match ReadStr(s[1..])
      case None => None
      case Some((text, rest)) =>
        if s[0] == TAG_END then Some((End(text), rest))
        else if s[0] == TAG_TEXT then Some((Text(text), rest))
        else None
  }

  function ReadAll(s: bytes): Option<seq<Event>>
    decreases |s|
  {
    if s == [] then Some([])
    else
      match ReadEvent(s)
      case None => None
      case Some((e, rest)) =>
        match ReadAll(rest)
        case None => None
        case Some(events) => Some([e] + events)
  }

  // ---- unique decodability ----------------------------------------------------------

  lemma ReadU32Back(n: nat, rest: bytes)
    requires n < LIMIT
    ensures ReadU32(U32(n) + rest) == Some((n, rest))
  {
    var n1 := n / 0x100;
    var n2 := n1 / 0x100;
    var n3 := n2 / 0x100;
    assert n == Number(n % 0x100, n1 % 0x100, n2 % 0x100, n3 % 0x100);
    var s := U32(n) + rest;
    assert s[4..] == rest;
    assert s[..4] == U32(n);
    hide Number;
  }

  lemma ReadStrBack(t: bytes, rest: bytes)
    requires |t| < LIMIT
    ensures ReadStr(Str(t) + rest) == Some((t, rest))
  {
    hide U32, ReadU32;
    assert Str(t) + rest == U32(|t|) + (t + rest);
    ReadU32Back(|t|, t + rest);
  }

  lemma ReadAttributesCons(count: nat, key: bytes, value: bytes, more: bytes)
    requires |key| < LIMIT && |value| < LIMIT
    ensures ReadAttributes(count + 1, Str(key) + (Str(value) + more)) ==
      match ReadAttributes(count, more)
      case None => None
      case Some((atts, rest)) => Some(([(key, value)] + atts, rest))
  {
    hide Str, ReadStr;
    ReadStrBack(key, Str(value) + more);
    ReadStrBack(value, more);
  }

  lemma {:induction false} ReadAttributesBack(atts: seq<(bytes, bytes)>, rest: bytes)
    requires forall a :: a in atts ==> |a.0| < LIMIT && |a.1| < LIMIT
    ensures ReadAttributes(|atts|, Attributes(atts) + rest) == Some((atts, rest))
    decreases |atts|
  {
    hide Str, Attributes, ReadAttributes;
    if atts == [] {
      ReadNoAttributes(rest);
    } else {
      assert atts[0] in atts;
      AttributesFront(atts, rest);
      ReadAttributesCons(|atts| - 1, atts[0].0, atts[0].1, Attributes(atts[1..]) + rest);
      ReadAttributesBack(atts[1..], rest);
      assert [(atts[0].0, atts[0].1)] + atts[1..] == atts;
    }
  }

  lemma ReadNoAttributes(rest: bytes)
    ensures ReadAttributes(0, Attributes([]) + rest) == Some(([], rest))
  {
    assert Attributes([]) + rest == rest;
  }

  lemma AttributesFront(atts: seq<(bytes, bytes)>, rest: bytes)
    requires atts != []
    ensures Attributes(atts) + rest == Str(atts[0].0) + (Str(atts[0].1) + (Attributes(atts[1..]) + rest))
  {
    hide Str;
    Regroup(Str(atts[0].0), Str(atts[0].1), Attributes(atts[1..]), rest);
  }

  lemma Regroup(a: bytes, b: bytes, c: bytes, d: bytes)
    ensures a + b + c + d == a + (b + (c + d))
  {}

  lemma ReadStartBack(name: bytes, atts: seq<(bytes, bytes)>, rest: bytes)
    requires Small(Start(name, atts))
    ensures ReadStart(Str(name) + U32(|atts|) + Attributes(atts) + rest) == Some((Start(name, atts), rest))
  {
    hide Str, ReadStr, U32, Attributes, ReadPairs;
    var s1 := U32(|atts|) + (Attributes(atts) + rest);
    Regroup(Str(name), U32(|atts|), Attributes(atts), rest);
    ReadStrBack(name, s1);
    ReadPairsBack(name, atts, rest);
  }

  lemma ReadPairsBack(name: bytes, atts: seq<(bytes, bytes)>, rest: bytes)
    requires Small(Start(name, atts))
    ensures ReadPairs(name, U32(|atts|) + (Attributes(atts) + rest)) == Some((Start(name, atts), rest))
  {
    hide U32, ReadU32, Attributes, ReadAttributes;
    ReadU32Back(|atts|, Attributes(atts) + rest);
    ReadAttributesBack(atts, rest);
  }

  lemma AfterTag(tag: byte, a: bytes, rest: bytes)
    ensures var s := [tag] + a + rest; s[0] == tag && s[1..] == a + rest
  {}

  lemma AfterStartTag(name: bytes, count: bytes, atts: bytes, rest: bytes)
    ensures [TAG_START] + name + count + atts == [TAG_START] + (name + count + atts)
  {}

  lemma ReadStartEventBack(name: bytes, atts: seq<(bytes, bytes)>, rest: bytes)
    requires Small(Start(name, atts))
    ensures ReadEvent(Record(Start(name, atts)) + rest) == Some((Start(name, atts), rest))
  {
    hide Str, ReadStr, ReadStart, U32, Attributes, Small;
    AfterStartTag(Str(name), U32(|atts|), Attributes(atts), rest);
    AfterTag(TAG_START, Str(name) + U32(|atts|) + Attributes(atts), rest);
    ReadStartBack(name, atts, rest);
  }

  lemma ReadTaggedBack(tag: byte, text: bytes, rest: bytes)
    requires |text| < LIMIT && tag != TAG_START
    ensures ReadEvent([tag] + Str(text) + rest) ==
      if tag == TAG_END then Some((End(text), rest))
      else if tag == TAG_TEXT then Some((Text(text), rest))
      else None
  {
    hide Str, ReadStr, ReadStart;
    AfterTag(tag, Str(text), rest);
    ReadStrBack(text, rest);
  }

  lemma ReadEventBack(e: Event, rest: bytes)
    requires Small(e)
    ensures ReadEvent(Record(e) + rest) == Some((e, rest))
  {
    hide Str, ReadEvent, U32, Attributes, Small;
    SmallStr(e);
    match e
    case Start(name, atts) => ReadStartEventBack(name, atts, rest);
    case End(name) => ReadTaggedBack(TAG_END, name, rest);
    case Text(text) => ReadTaggedBack(TAG_TEXT, text, rest);
  }

  lemma SmallStr(e: Event)
    requires Small(e)
    ensures e.End? ==> |e.name| < LIMIT
    ensures e.Text? ==> |e.text| < LIMIT
  {}

  lemma StreamSnoc(events: seq<Event>, e: Event)
    ensures Stream(events + [e]) == Stream(events) + Record(e)
  {
    hide Record;
    assert (events + [e])[..|events|] == events;
  }

  lemma StreamOne(e: Event)
    ensures Stream([e]) == Record(e) && Stream([]) == []
  {
    hide Record;
    assert [e][..0] == [];
  }

  lemma {:induction false} StreamFront(events: seq<Event>)
    requires events != []
    ensures Stream(events) == Record(events[0]) + Stream(events[1..])
    decreases |events|
  {
    hide Record, Stream;
    var init, last := events[..|events| - 1], events[|events| - 1];
    if |events| == 1 {
      assert events == [last] && events[1..] == [];
      StreamOne(last);
    } else {
      StreamFront(init);
      StreamSnoc(init, last);
      StreamSnoc(init[1..], last);
      assert events == init + [last] && events[1..] == init[1..] + [last];
    }
  }

  /** The stream of any events whose sizes fit their fields can be read back. */
  lemma {:induction false} ReadBack(events: seq<Event>)
    requires forall e :: e in events ==> Small(e)
    ensures ReadAll(Stream(events)) == Some(events)
    decreases |events|
  {
    hide Record, Small, ReadEvent;
    if events != [] {
      assert events[0] in events;
      StreamFront(events);
      ReadEventBack(events[0], Stream(events[1..]));
      RecordNonEmpty(events[0]);
      ReadBack(events[1..]);
      assert [events[0]] + events[1..] == events;
    }
  }

  lemma RecordNonEmpty(e: Event)
    ensures Record(e) != []
  {}

  /**
    The stream determines the merged trace: equal streams come from traces that are
    equal once adjacent text is merged, and from no others.
   */
  lemma StreamDeterminesMergedTrace(t: seq<Event>, u: seq<Event>)
    requires forall e :: e in Merge(t) || e in Merge(u) ==> Small(e)
    ensures Stream(Merge(t)) == Stream(Merge(u)) <==> Merge(t) == Merge(u)
  {
    hide Merge, Stream, ReadAll, Small;
    if Stream(Merge(t)) == Stream(Merge(u)) {
      ReadBack(Merge(t));
      ReadBack(Merge(u));
    }
  }

  lemma ByteShift(n: nat, k: nat)
    ensures (n + 0x100 * k) / 0x100 == n / 0x100 + k && (n + 0x100 * k) % 0x100 == n % 0x100
  {}

  /** A length one field size larger is written the same. */
  lemma LengthFieldWraps(n: nat)
    ensures U32(n + LIMIT) == U32(n)
  {
    var n1 := n / 0x100;
    var n2 := n1 / 0x100;
    ByteShift(n, 0x100_0000);
    ByteShift(n1, 0x1_0000);
    ByteShift(n2, 0x100);
    ByteShift(n2 / 0x100, 1);
  }

  /**
    One end tag whose name is 2^32 bytes long, against two whose names are short enough:
    the length of the first wraps to nothing, and its name reads as the second of the two.
   */
  lemma LongNameIsAmbiguous(name: bytes)
    requires |name| == LIMIT - 5
    ensures var one, two := [End([TAG_END] + Str(name))], [End([]), End(name)];
      && Merge(one) == one && Merge(two) == two && one != two
      && Stream(one) == Stream(two)
      && AllBelow(one, LIMIT + 1) && AllBelow(two, LIMIT) && !Small(one[0])
  {
    var long := [TAG_END] + Str(name);
    var one, two := [End(long)], [End([]), End(name)];
    NoTextMerges(one);
    NoTextMerges(two);
    hide Merge, Str;
    StreamOfEnds(long, [], name);
    EndRecordWraps(long, name);
  }

  lemma EndRecordWraps(long: bytes, name: bytes)
    requires |name| == LIMIT - 5 && long == [TAG_END] + Str(name)
    ensures |long| == LIMIT && Record(End(long)) == Record(End([])) + Record(End(name))
  {
    LengthFieldWraps(0);
    hide U32;
    assert |long| == LIMIT;
    assert U32(LIMIT) == U32(0);
    assert Str([]) == U32(0);
    assert [TAG_END] + (U32(0) + long) == ([TAG_END] + U32(0)) + long;
  }

  lemma StreamOfEnds(long: bytes, a: bytes, b: bytes)
    ensures Stream([End(long)]) == Record(End(long))
    ensures Stream([End(a), End(b)]) == Record(End(a)) + Record(End(b))
  {
    hide Record;
    assert [End(long)][..0] == [];
    assert [End(a), End(b)][..1] == [End(a)];
    assert [End(a)][..0] == [];
  }

  lemma NoTextMerges(events: seq<Event>)
    requires forall i :: 0 <= i < |events| ==> !events[i].Text?
    ensures Merge(events) == events
  {
    ScanMerged(events);
  }

  /** Without a NUL, as C strings are. */
  predicate IsCString(s: bytes) {
    forall i :: 0 <= i < |s| ==> s[i] != 0
  }

  /** Names and attributes are C strings; text comes with its length and may hold anything. */
  predicate Deliverable(e: Event) {
    match e
    case Start(name, atts) => IsCString(name) && forall a :: a in atts ==> IsCString(a.0) && IsCString(a.1)
    case End(name) => IsCString(name)
    case Text(_) => true
  }

  predicate AllDeliverable(events: seq<Event>) {
    forall e :: e in events ==> Deliverable(e)
  }

  /** Equal streams come from equal merged traces alone, among callbacks with sizes below `bound`. */
  ghost predicate Determines(bound: nat) {
    forall t, u |
      && AllBelow(Merge(t), bound) && AllBelow(Merge(u), bound)
      && AllDeliverable(t) && AllDeliverable(u) ::
      Stream(Merge(t)) == Stream(Merge(u)) ==> Merge(t) == Merge(u)
  }

  /** The stream determines the merged trace for sizes below a bound, if and only if the bound is at most 2^32. */
  lemma FieldWidthIsExact(bound: nat)
    ensures Determines(bound) <==> bound <= LIMIT
  {
    hide Merge, Stream, Below, Str, AllDeliverable;
    if bound <= LIMIT {
      forall t, u |
        && AllBelow(Merge(t), bound) && AllBelow(Merge(u), bound)
        && AllDeliverable(t) && AllDeliverable(u)
        ensures Stream(Merge(t)) == Stream(Merge(u)) ==> Merge(t) == Merge(u)
      {
        BelowSmall(Merge(t), bound);
        BelowSmall(Merge(u), bound);
        StreamDeterminesMergedTrace(t, u);
      }
    } else {
      var name: bytes := seq(LIMIT - 5, _ => 'a' as int);
      LongNameIsAmbiguous(name);
      LongNameIsDeliverable(name);
      var one, two := [End([TAG_END] + Str(name))], [End([]), End(name)];
      BelowMore(one, LIMIT + 1, bound);
      BelowMore(two, LIMIT, bound);
    }
  }

  /** None of the four bytes of the length 2^32 - 5 is a NUL. */
  lemma LongNameIsDeliverable(name: bytes)
    requires |name| == LIMIT - 5 && IsCString(name)
    ensures AllDeliverable([End([TAG_END] + Str(name))]) && AllDeliverable([End([]), End(name)])
  {
    assert U32(LIMIT - 5) == [0xfb, 0xff, 0xff, 0xff];
    hide U32;
    var long := [TAG_END] + Str(name);
    assert long == [TAG_END, 0xfb, 0xff, 0xff, 0xff] + name;
    assert IsCString(long);
  }

  lemma BelowSmall(events: seq<Event>, bound: nat)
    requires AllBelow(events, bound) && bound <= LIMIT
    ensures forall e :: e in events ==> Small(e)
  {}

  lemma BelowMore(events: seq<Event>, bound: nat, more: nat)
    requires AllBelow(events, bound) && bound <= more
    ensures AllBelow(events, more)
  {}
}
