/**
  The callbacks of the chunked-CRC harness, as the C code has them: a digest object
  updated piece by piece, with character data collected in a growing buffer. They
  are proved to fold the CRC over the stream of EventDigest.dfy.
 */
module ChunkedCrc {
  import opened Core
  import opened Crc32
  import opened EventDigest

  const SIZE_MAX: int := 0xffff_ffff_ffff_ffff

  /** A capacity the doubling loop can reach. */
  predicate IsGrown(n: nat) {
    n == 0 || exists k :: 8 <= k <= 63 && n == Pow2(k)
  }

  lemma {:induction false} Pow2Grows(j: nat, k: nat)
    requires j <= k
    ensures Pow2(j) <= Pow2(k)
    decreases k
  {
    if j < k {
      Pow2Grows(j, k - 1);
    }
  }

  lemma Pow2Sizes()
    ensures Pow2(8) == 256 && 2 * Pow2(63) == SIZE_MAX + 1
  {
    assert Pow2(8) == 256;
    assert Pow2(16) == 256 * Pow2(8);
    assert Pow2(24) == 256 * Pow2(16);
    assert Pow2(32) == 256 * Pow2(24);
    assert Pow2(40) == 256 * Pow2(32);
    assert Pow2(48) == 256 * Pow2(40);
    assert Pow2(56) == 256 * Pow2(48);
    assert Pow2(63) == 128 * Pow2(56);
  }

  /** A capacity above half of `size_t` is the largest one. */
  lemma GrownInRange(n: nat)
    requires IsGrown(n)
    ensures IsGrown(256) && n <= Pow2(63) && 2 * Pow2(63) == SIZE_MAX + 1 && (n > SIZE_MAX / 2 ==> n == Pow2(63))
  {
    Pow2Sizes();
    if n > 0 {
      var k :| 8 <= k <= 63 && n == Pow2(k);
      Pow2Grows(k, 63);
    }
  }

  lemma Doubled(n: nat)
    requires IsGrown(n) && 0 < n <= SIZE_MAX / 2
    ensures IsGrown(2 * n)
  {
    Pow2Sizes();
    var k :| 8 <= k <= 63 && n == Pow2(k);
    if k < 63 {
      assert 2 * n == Pow2(k + 1);
    }
  }

  /** `struct text_buffer`. */
  class TextBuffer {
    var data: array<byte>
    var count: nat

    /** The array is empty or has grown from 256 bytes by doubling, within `size_t`. */
    ghost predicate Valid()
      reads this
    {
      count <= data.Length && IsGrown(data.Length)
    }

    ghost function Contents(): (s: seq<byte>)
      requires Valid()
      reads this, data
    {
      data[..count]
    }

    constructor ()
      ensures Valid() && Contents() == [] && fresh(data)
    {
      data := new byte[0];
      count := 0;
    }

    /** `text_buffer_append`; `reallocOk` answers the reallocation, if one is needed. */
    method Append(text: seq<byte>, reallocOk: bool) returns (ok: bool)
      requires Valid()
      modifies this, data
      ensures Valid() && (data == old(data) || fresh(data))
      ensures Contents() == if ok then old(Contents()) + text else old(Contents())
      ensures ok <==>
        || |text| == 0 || old(count) + |text| <= old(data).Length
        || (reallocOk && old(count) + |text| <= Pow2(63))
      ensures |text| < 0x8000_0000 ==> old(count) + |text| <= SIZE_MAX
    {
      hide IsGrown, Pow2;
      GrownInRange(data.Length);
      if |text| == 0 {
        assert Contents() + text == Contents();
        return true;
      }
      if count + |text| > data.Length {
        var inRange, newCapacity := NewCapacity(data.Length, count + |text|);
        if !inRange {
          return false;
        }
        if !reallocOk {
          return false;
        }
        Enlarge(newCapacity);
      }
      Copy(text);
      ok := true;
    }

    /** The doubling loop, in `size_t`; out of range only beyond half of it. */
    static method NewCapacity(capacity: nat, needed: nat) returns (inRange: bool, newCapacity: nat)
      requires IsGrown(capacity) && capacity < needed
      ensures inRange <==> needed <= Pow2(63)
      ensures inRange ==> needed <= newCapacity <= SIZE_MAX && IsGrown(newCapacity)
    {
      hide IsGrown, Pow2;
      inRange := true;
      GrownInRange(capacity);
      newCapacity := if capacity == 0 then 256 else capacity;
      while newCapacity < needed
        invariant 0 < newCapacity && IsGrown(newCapacity)
      {
        GrownInRange(newCapacity);
        if newCapacity > SIZE_MAX / 2 {
          return false, newCapacity;
        }
        Doubled(newCapacity);
        assert newCapacity * 2 <= SIZE_MAX;
        newCapacity := newCapacity * 2;
      }
      GrownInRange(newCapacity);
    }

    /** `realloc` to a larger size. */
    method Enlarge(capacity: nat)
      requires Valid() && data.Length <= capacity && IsGrown(capacity)
      modifies this`data
      ensures Valid() && fresh(data) && data.Length == capacity && Contents() == old(Contents())
    {
      var resized := new byte[capacity];
      forall i | 0 <= i < data.Length {
        resized[i] := data[i];
      }
      data := resized;
    }

    method Copy(text: seq<byte>)
      requires Valid() && count + |text| <= data.Length
      modifies this`count, data
      ensures Valid() && Contents() == old(Contents()) + text
    {
      forall i | 0 <= i < |text| {
        data[count + i] := text[i];
      }
      count := count + |text|;
    }
  }

  // ---- what the two digests are digests of -----------------------------------------

  /** The callbacks that leave a record in the trace digest. */
  function Recorded(trace: seq<Event>): seq<Event> {
    if trace == [] then []
    else
      var init := Recorded(trace[..|trace| - 1]);
      if trace[|trace| - 1] == Text([]) then init else init + [trace[|trace| - 1]]
  }

  function TextLength(trace: seq<Event>): nat {
    if trace == [] then 0
    else
      TextLength(trace[..|trace| - 1]) + match trace[|trace| - 1] case Text(text) => |text| case _ => 0
  }

  /** The trace digest takes every callback but empty texts. */
  lemma {:induction false} RecordedKeepsAll(trace: seq<Event>)
    requires forall e :: e in trace ==> e != Text([])
    ensures Recorded(trace) == trace
    decreases |trace|
  {
    if trace != [] {
      var init := trace[..|trace| - 1];
      assert trace[|trace| - 1] in trace && forall e :: e in init ==> e in trace;
      RecordedKeepsAll(init);
      assert trace == init + [trace[|trace| - 1]];
    }
  }

  lemma {:induction false} RecordedSkipsEmpty(before: seq<Event>, after: seq<Event>)
    ensures Recorded(before + [Text([])] + after) == Recorded(before + after)
    ensures TextLength(before + [Text([])] + after) == TextLength(before + after)
    decreases |after|
  {
    hide Recorded, TextLength;
    if after == [] {
      RecordedSnoc(before, Text([]));
      assert before + [Text([])] + after == before + [Text([])] && before + after == before;
    } else {
      var init, last := after[..|after| - 1], after[|after| - 1];
      RecordedSkipsEmpty(before, init);
      RecordedOn(before + [Text([])] + init, before + init, last);
      assert before + [Text([])] + after == (before + [Text([])] + init) + [last];
      assert before + after == (before + init) + [last];
    }
  }

  lemma RecordedOn(a: seq<Event>, b: seq<Event>, e: Event)
    requires Recorded(a) == Recorded(b) && TextLength(a) == TextLength(b)
    ensures Recorded(a + [e]) == Recorded(b + [e]) && TextLength(a + [e]) == TextLength(b + [e])
  {
    hide Recorded, TextLength;
    RecordedSnoc(a, e);
    RecordedSnoc(b, e);
  }

  lemma OneText(x: seq<byte>)
    ensures TextLength([Text(x)]) == |x|
  {
    assert [Text(x)][..0] == [];
  }

  lemma FlushedLength(done: seq<Event>, pending: seq<byte>)
    ensures TextLength(Flushed(done, pending)) == TextLength(done) + |pending|
  {
    hide Recorded, TextLength;
    RecordedSnoc(done, Text(pending));
  }

  /** The text counter counts what the merged trace holds. */
  lemma {:induction false} TextIsCounted(trace: seq<Event>)
    ensures TextLength(trace) == TextLength(Scan(trace).0) + |Scan(trace).1|
    ensures TextLength(trace) == TextLength(Merge(trace))
    decreases |trace|
  {
    hide Recorded, TextLength, Scan, Flushed;
    if trace == [] {
      NothingScanned();
    } else {
      var init, last := trace[..|trace| - 1], trace[|trace| - 1];
      TextIsCounted(init);
      assert trace == init + [last];
      ScanSnoc(init, last);
      RecordedSnoc(init, last);
      FlushedLength(Scan(init).0, Scan(init).1);
      RecordedSnoc(Flushed(Scan(init).0, Scan(init).1), last);
    }
    FlushedLength(Scan(trace).0, Scan(trace).1);
  }

  lemma NothingScanned()
    ensures Scan([]) == ([], []) && TextLength([]) == 0
  {}

  lemma RecordedSnoc(trace: seq<Event>, e: Event)
    ensures Recorded(trace + [e]) == if e == Text([]) then Recorded(trace) else Recorded(trace) + [e]
    ensures TextLength(trace + [e]) == TextLength(trace) + (if e.Text? then |e.text| else 0)
  {
    assert (trace + [e])[..|trace|] == trace;
  }

  /** The register after the records of `events`. */
  function Folded(events: seq<Event>): Word {
    Serial(INITIAL, Stream(events))
  }

  lemma FoldSnoc(events: seq<Event>, e: Event)
    ensures Folded(events + [e]) == Serial(Folded(events), Record(e))
  {
    hide Record, Serial;
    StreamSnoc(events, e);
    SerialConcat(INITIAL, Stream(events), Record(e));
  }

  /** `crc32_finish`. */
  function Finish(w: Word): Word {
    Xor(w, INITIAL)
  }

  /** The check value of the one-byte text `a`: polynomial, initial register and final inversion are those of CRC-32. */
  lemma CheckValue()
    ensures Finish(Serial(INITIAL, ['a' as int])) == Word(0xe8b7_be43)
  {
    var start := Word(0xffff_ff9e);
    assert Xor(INITIAL, OfByte('a' as int)) == start;
    assert Step(Word(0xffff_ff9e)) == Word(0x7fff_ffcf);
    assert Step(Word(0x7fff_ffcf)) == Word(0xd247_7cc7);
    assert Step(Word(0xd247_7cc7)) == Word(0x849b_3d43);
    assert Step(Word(0x849b_3d43)) == Word(0xaff5_1d81);
    assert Step(Word(0xaff5_1d81)) == Word(0xba42_0de0);
    assert Step(Word(0xba42_0de0)) == Word(0x5d21_06f0);
    assert Step(Word(0x5d21_06f0)) == Word(0x2e90_8378);
    assert Step(Word(0x2e90_8378)) == Word(0x1748_41bc);
    EightSteps(start);
    assert ['a' as int][..0] == [];
    assert Serial(INITIAL, ['a' as int]) == SerialByte(INITIAL, 'a' as int);
  }

  lemma EightSteps(v: Word)
    ensures Steps(v, 8) == Step(Step(Step(Step(Step(Step(Step(Step(v))))))))
  {
    hide Step;
    assert Steps(v, 0) == v && Steps(v, 1) == Step(v);
    assert Steps(v, 2) == Step(Steps(v, 1));
    assert Steps(v, 4) == Step(Step(Steps(v, 2)));
    assert Steps(v, 6) == Step(Step(Steps(v, 4)));
    assert Steps(v, 8) == Step(Step(Steps(v, 6)));
  }

  // ---- the harness -----------------------------------------------------------------

  /** `struct parse_digest` with the global CRC table. */
  class ParseDigest {
    const table: Table
    const text: TextBuffer
    var semantic: Word
    var trace: Word
    var events: nat
    var textBytes: nat
    var failed: bool
    /** The callbacks taken in so far. */
    ghost var seen: seq<Event>

    ghost predicate Valid()
      reads this, table, table.entries, text, text.data
    {
      && table.Valid() && table.ready && text.Valid()
      && semantic == Folded(Scan(seen).0)
      && text.Contents() == Scan(seen).1
      && trace == Folded(Recorded(seen))
      && events == |Recorded(seen)|
      && textBytes == TextLength(seen)
    }

    /** `parse_digest_init`. */
    constructor (table: Table)
      requires table.Valid() && table.ready
      ensures Valid() && seen == [] && !failed && this.table == table && fresh(text) && fresh(text.data)
    {
      this.table := table;
      text := new TextBuffer();
      semantic, trace := INITIAL, INITIAL;
      events, textBytes, failed := 0, 0, false;
      seen := [];
    }

    /** `digest_u32`. */
    method DigestU32(w: Word, value: nat) returns (r: Word)
      requires table.Valid() && table.ready
      ensures r == Serial(w, U32(value))
    {
      r := table.Update(w, U32(value));
    }

    /** `digest_string`. */
    method DigestString(w: Word, value: seq<byte>) returns (r: Word)
      requires table.Valid() && table.ready
      ensures r == Serial(w, Str(value))
    {
      hide Serial, U32;
      var count := |value|;
      r := DigestU32(w, count);
      SerialConcat(w, U32(count), value);
      if count > 0 {
        r := table.Update(r, value);
      } else {
        assert U32(count) + value == U32(count);
      }
    }

    /** A tag byte, then a string. */
    method DigestTagged(w: Word, tag: byte, value: seq<byte>) returns (r: Word)
      requires table.Valid() && table.ready
      ensures r == Serial(w, [tag] + Str(value))
    {
      hide Serial, Str;
      r := table.Update(w, [tag]);
      r := DigestString(r, value);
      SerialConcat(w, [tag], Str(value));
    }

    /** `flush_semantic_text`. */
    method FlushSemanticText()
      requires Valid()
      modifies this`semantic, text`count
      ensures table.Valid() && text.Valid() && text.Contents() == []
      ensures semantic == Folded(Merge(seen))
    {
      hide Serial, Str, Scan, Folded, Stream, Recorded, TextLength;
      var collected := text.data[..text.count];
      if text.count != 0 {
        FoldSnoc(Scan(seen).0, Text(collected));
        semantic := DigestTagged(semantic, TAG_TEXT, collected);
      }
      text.count := 0;
    }

    /** `end_element`. */
    method EndElement(name: seq<byte>)
      requires Valid()
      modifies this, text`count
      ensures Valid() && failed == old(failed)
      ensures seen == if old(failed) then old(seen) else old(seen) + [End(name)]
    {
      hide Serial, Scan, Folded, Recorded, TextLength, Merge, Record, Stream, Entry;
      if failed {
        return;
      }
      FlushSemanticText();
      FoldSnoc(Merge(seen), End(name));
      FoldSnoc(Recorded(seen), End(name));
      var s := DigestEnd(semantic, name);
      var t := DigestEnd(trace, name);
      Advance(s, t, End(name));
    }

    /** One register over the record of an end tag. */
    method DigestEnd(w: Word, name: seq<byte>) returns (r: Word)
      requires table.Valid() && table.ready
      ensures r == Serial(w, Record(End(name)))
    {
      hide Serial, Str;
      r := DigestTagged(w, TAG_END, name);
    }

    /** Both registers have taken in the record of a tag, behind flushed text. */
    method Advance(newSemantic: Word, newTrace: Word, ghost e: Event)
      requires table.Valid() && table.ready && text.Valid() && text.Contents() == [] && !e.Text?
      requires newSemantic == Folded(Merge(seen) + [e]) && newTrace == Folded(Recorded(seen) + [e])
      requires events == |Recorded(seen)| && textBytes == TextLength(seen)
      modifies this`semantic, this`trace, this`events, this`seen
      ensures Valid() && seen == old(seen) + [e]
    {
      hide Scan, Folded, Recorded, TextLength, Merge;
      ScanSnoc(seen, e);
      RecordedSnoc(seen, e);
      MergeIsFlushedScan(seen);
      semantic, trace := newSemantic, newTrace;
      events := events + 1;
      seen := seen + [e];
    }

    /** One register over the record of a start tag. */
    method DigestStart(w: Word, name: seq<byte>, atts: seq<(seq<byte>, seq<byte>)>) returns (r: Word)
      requires table.Valid() && table.ready
      ensures r == Serial(w, Record(Start(name, atts)))
    {
      hide Serial, Str, U32, Attributes;
      ghost var head := [TAG_START] + Str(name) + U32(|atts|);
      r := DigestTagged(w, TAG_START, name);
      r := DigestU32(r, |atts|);
      SerialConcat(w, [TAG_START] + Str(name), U32(|atts|));
      assert head + Attributes([]) == head by { AttributesNone(); }
      for index := 0 to |atts|
        invariant r == Serial(w, head + Attributes(atts[..index]))
      {
        r := DigestString(r, atts[index].0);
        r := DigestString(r, atts[index].1);
        DigestedPair(w, head, atts, index);
      }
      assert atts[..|atts|] == atts;
    }

    lemma DigestedPair(w: Word, head: seq<byte>, atts: seq<(seq<byte>, seq<byte>)>, index: nat)
      requires index < |atts|
      ensures Serial(Serial(Serial(w, head + Attributes(atts[..index])), Str(atts[index].0)), Str(atts[index].1))
        == Serial(w, head + Attributes(atts[..index + 1]))
    {
      hide Serial, Str, Attributes;
      var before := head + Attributes(atts[..index]);
      SerialConcat(w, before, Str(atts[index].0));
      SerialConcat(w, before + Str(atts[index].0), Str(atts[index].1));
      AttributesSnoc(atts[..index], atts[index]);
      assert atts[..index + 1] == atts[..index] + [atts[index]];
      assert before + Str(atts[index].0) + Str(atts[index].1)
          == head + (Attributes(atts[..index]) + (Str(atts[index].0) + Str(atts[index].1)));
    }

    /** `start_element`. */
    method StartElement(name: seq<byte>, atts: seq<(seq<byte>, seq<byte>)>)
      requires Valid()
      modifies this, text`count
      ensures Valid() && failed == old(failed)
      ensures seen == if old(failed) then old(seen) else old(seen) + [Start(name, atts)]
    {
      hide Serial, Scan, Folded, Recorded, TextLength, Merge, Record, Stream, Entry;
      if failed {
        return;
      }
      var e := Start(name, atts);
      FlushSemanticText();
      FoldSnoc(Merge(seen), e);
      FoldSnoc(Recorded(seen), e);
      var s := DigestStart(semantic, name, atts);
      var t := DigestStart(trace, name, atts);
      Advance(s, t, e);
    }

    /** `character_data`; a length of zero or less delivers no text. */
    method CharacterData(s: seq<byte>, reallocOk: bool)
      requires Valid()
      modifies this, text, text.data
      ensures Valid()
      ensures old(failed) ==> failed && seen == old(seen)
      ensures !old(failed) && !failed ==> seen == old(seen) + [Text(s)]
      ensures !old(failed) && failed ==> seen == old(seen) && (!reallocOk || old(text.count) + |s| > Pow2(63))
    {
      hide Serial, Str, Scan, Folded, Stream, Recorded, TextLength, Merge;
      if failed {
        return;
      }
      if |s| == 0 {
        SkipEmpty();
        return;
      }
      var ok := text.Append(s, reallocOk);
      if !ok {
        failed := true;
        return;
      }
      FoldSnoc(Recorded(seen), Text(s));
      var t := DigestTagged(trace, TAG_TEXT, s);
      AdvanceText(t, s);
    }

    /** An empty text leaves no mark. */
    ghost method SkipEmpty()
      requires Valid()
      modifies this`seen
      ensures Valid() && seen == old(seen) + [Text([])]
    {
      hide Scan, Folded, Recorded, TextLength, Merge;
      ScanSnoc(seen, Text([]));
      RecordedSnoc(seen, Text([]));
      assert Scan(seen).1 + [] == Scan(seen).1;
      seen := seen + [Text([])];
    }

    /** The trace register has taken in the record of a text that has been collected. */
    method AdvanceText(newTrace: Word, s: seq<byte>)
      requires table.Valid() && table.ready && text.Valid() && s != []
      requires semantic == Folded(Scan(seen).0) && text.Contents() == Scan(seen).1 + s
      requires newTrace == Folded(Recorded(seen) + [Text(s)])
      requires events == |Recorded(seen)| && textBytes == TextLength(seen)
      modifies this`trace, this`events, this`textBytes, this`seen
      ensures Valid() && seen == old(seen) + [Text(s)]
    {
      hide Scan, Folded, Recorded, TextLength, Merge;
      ScanSnoc(seen, Text(s));
      RecordedSnoc(seen, Text(s));
      trace := newTrace;
      events := events + 1;
      textBytes := textBytes + |s|;
      seen := seen + [Text(s)];
    }

    /** The end of `parse_document`: the last text is flushed and both registers finished. */
    method Conclude() returns (semanticCrc: Word, traceCrc: Word)
      requires Valid()
      modifies this`semantic, text`count
      ensures semanticCrc == Finish(Folded(Merge(seen)))
      ensures traceCrc == Finish(Folded(Recorded(seen)))
    {
      hide Folded, Merge, Scan, Recorded, Xor;
      FlushSemanticText();
      semanticCrc, traceCrc := Finish(semantic), Finish(trace);
    }
  }

  lemma MergeIsFlushedScan(trace: seq<Event>)
    ensures Merge(trace) == Flushed(Scan(trace).0, Scan(trace).1)
  {}

  lemma AttributesNone()
    ensures Attributes([]) == []
  {}

  lemma {:induction false} AttributesSnoc(atts: seq<(seq<byte>, seq<byte>)>, a: (seq<byte>, seq<byte>))
    ensures Attributes(atts + [a]) == Attributes(atts) + (Str(a.0) + Str(a.1))
    decreases |atts|
  {
    hide Str;
    if atts == [] {
      assert atts + [a] == [a] && [a][1..] == [];
    } else {
      AttributesSnoc(atts[1..], a);
      assert (atts + [a])[1..] == atts[1..] + [a];
    }
  }

  // ---- main results -------------------------------------------------------------------

  /** The semantic digest of a trace, as `Conclude` computes it. */
  function SemanticCrc(trace: seq<Event>): Word {
    Finish(Folded(Merge(trace)))
  }

  /** However a parser divides character data between callbacks, the semantic digest is the same. */
  lemma DigestIgnoresSplits(before: seq<Event>, x: seq<byte>, y: seq<byte>, after: seq<Event>)
    ensures SemanticCrc(before + [Text(x + y)] + after) == SemanticCrc(before + [Text(x), Text(y)] + after)
    ensures SemanticCrc(before + [Text([])] + after) == SemanticCrc(before + after)
  {
    hide Merge, Folded, Finish;
    SplitInvariant(before, x, y, after);
    EmptyTextInvariant(before, after);
  }
}
