/** The engines' event recorder: text pieces are collected in place and joined when the list is read. */
module EventRecorder {
  import opened CanonicalXml

  /** An entry of the recorder's list: the pieces of one run of text, or any other event. */
  datatype Item = Run(pieces: seq<string>) | Plain(event: Event)

  function Joined(items: seq<Item>): seq<Event> {
    if items == [] then []
    else
      Joined(items[..|items| - 1]) +
      match items[|items| - 1]
      case Run(pieces) => [Chars(Join(pieces))]
      case Plain(e) => [e]
  }

  /** No two texts side by side. */
  predicate TextsApart(events: seq<Event>) {
    forall i :: 0 < i < |events| && events[i].Chars? ==> !events[i - 1].Chars?
  }

  lemma JoinedSnoc(items: seq<Item>, item: Item)
    ensures Joined(items + [item]) ==
      Joined(items) + (match item case Run(pieces) => [Chars(Join(pieces))] case Plain(e) => [e])
  {
    assert (items + [item])[..|items|] == items;
  }

  // ---- merging -----------------------------------------------------------------------

  function AddMerged(events: seq<Event>, e: Event): seq<Event> {
    if e.Chars? && events != [] && events[|events| - 1].Chars?
    then events[..|events| - 1] + [Chars(events[|events| - 1].text + e.text)]
    else events + [e]
  }

  /** The events with every run of adjacent texts joined into one, and nothing else changed. */
  function MergeTexts(events: seq<Event>): seq<Event> {
    if events == [] then [] else AddMerged(MergeTexts(events[..|events| - 1]), events[|events| - 1])
  }

  lemma MergeSnoc(events: seq<Event>, e: Event)
    ensures MergeTexts(events + [e]) == AddMerged(MergeTexts(events), e)
  {
    assert (events + [e])[..|events|] == events;
  }

  /** No two texts are left side by side. */
  lemma {:induction false} MergedIsApart(events: seq<Event>)
    ensures TextsApart(MergeTexts(events))
    decreases |events|
  {
    if events != [] {
      MergedIsApart(events[..|events| - 1]);
    }
  }

  /** A list without adjacent texts is left alone; so merging twice is merging once. */
  lemma {:induction false} ApartIsMerged(events: seq<Event>)
    requires TextsApart(events)
    ensures MergeTexts(events) == events
    decreases |events|
  {
    if events != [] {
      ApartIsMerged(events[..|events| - 1]);
      assert events == events[..|events| - 1] + [events[|events| - 1]];
    }
  }

  lemma {:induction false} MergeDependsOnMerge(a: seq<Event>, b: seq<Event>, after: seq<Event>)
    requires MergeTexts(a) == MergeTexts(b)
    ensures MergeTexts(a + after) == MergeTexts(b + after)
    decreases |after|
  {
    hide MergeTexts, AddMerged;
    if after == [] {
      assert a + after == a && b + after == b;
    } else {
      var init, last := after[..|after| - 1], after[|after| - 1];
      MergeDependsOnMerge(a, b, init);
      assert a + after == (a + init) + [last] && b + after == (b + init) + [last];
      MergeSnoc(a + init, last);
      MergeSnoc(b + init, last);
    }
  }

  lemma AddMergedTwice(events: seq<Event>, x: string, y: string)
    ensures AddMerged(AddMerged(events, Chars(x)), Chars(y)) == AddMerged(events, Chars(x + y))
  {
    if events != [] && events[|events| - 1].Chars? {
      var text := events[|events| - 1].text;
      assert (text + x) + y == text + (x + y);
    }
  }

  /** Cutting a text in two, anywhere among any events, gives the same list. */
  lemma RecordedSplitIsForgotten(before: seq<Event>, x: string, y: string, after: seq<Event>)
    ensures MergeTexts(before + [Chars(x + y)] + after) == MergeTexts(before + [Chars(x), Chars(y)] + after)
  {
    hide MergeTexts;
    MergeSnoc(before, Chars(x + y));
    MergeSnoc(before, Chars(x));
    MergeSnoc(before + [Chars(x)], Chars(y));
    AddMergedTwice(MergeTexts(before), x, y);
    assert before + [Chars(x), Chars(y)] == before + [Chars(x)] + [Chars(y)];
    MergeDependsOnMerge(before + [Chars(x + y)], before + [Chars(x), Chars(y)], after);
  }

  /** Merging keeps the normal form, hence without notations the canonical text. */
  lemma {:induction false} MergeKeepsNormal(events: seq<Event>)
    ensures Normal(MergeTexts(events)) == Normal(events)
    decreases |events|
  {
    if events != [] {
      var init, last := events[..|events| - 1], events[|events| - 1];
      MergeKeepsNormal(init);
      AddMergedNormal(MergeTexts(init), last);
    }
  }

  lemma AddMergedNormal(events: seq<Event>, e: Event)
    ensures Normal(AddMerged(events, e)) == AddEvent(Normal(events), e)
  {
    hide Normal, AddText;
    NormalSnoc(events, e);
    if e.Chars? && events != [] && events[|events| - 1].Chars? {
      var init, text := events[..|events| - 1], events[|events| - 1].text;
      assert events == init + [Chars(text)];
      NormalSnoc(init, Chars(text));
      NormalSnoc(init, Chars(text + e.text));
      AddTextTwice(Normal(init), text, e.text);
    }
  }

  // ---- the recorder ------------------------------------------------------------------

  class Recorder {
    var items: seq<Item>
    /** Every event handed to `add`. */
    ghost var calls: seq<Event>

    ghost predicate Valid()
      reads this
    {
      && (forall i :: 0 <= i < |items| && items[i].Plain? ==> !items[i].event.Chars?)
      && Joined(items) == MergeTexts(calls)
    }

    constructor ()
      ensures Valid() && calls == []
    {
      items, calls := [], [];
    }

    /** `add`. */
    method Add(e: Event)
      requires Valid()
      modifies this
      ensures Valid() && calls == old(calls) + [e]
    {
      hide MergeTexts, Join, Joined;
      MergeSnoc(calls, e);
      LastItem(items);
      if e.Chars? && items != [] && items[|items| - 1].Run? {
        var init, last := items[..|items| - 1], items[|items| - 1];
        GrowRun(init, last.pieces, e.text);
        items := init + [Run(last.pieces + [e.text])];
      } else if e.Chars? {
        JoinedSnoc(items, Run([e.text]));
        JoinOne(e.text);
        items := items + [Run([e.text])];
      } else {
        JoinedSnoc(items, Plain(e));
        items := items + [Plain(e)];
      }
      calls := calls + [e];
    }

    /** The `events` property: exactly the events as they were added, adjacent texts merged. */
    method Events() returns (events: seq<Event>)
      requires Valid()
      ensures events == MergeTexts(calls)
    {
      events := Joined(items);
    }
  }

  lemma JoinOne(text: string)
    ensures Join([text]) == text
  {
    assert [text][1..] == [];
  }

  /** The last item and the last event belong together. */
  lemma LastItem(items: seq<Item>)
    ensures items == [] <==> Joined(items) == []
    ensures items != [] ==>
      var last := items[|items| - 1];
      && items == items[..|items| - 1] + [last]
      && Joined(items)[|Joined(items)| - 1] ==
           match last case Run(pieces) => Chars(Join(pieces)) case Plain(e) => e
  {}

  /** Lengthening a run by a piece lengthens the last text. */
  lemma GrowRun(init: seq<Item>, pieces: seq<string>, text: string)
    ensures Joined(init + [Run(pieces + [text])]) == AddMerged(Joined(init + [Run(pieces)]), Chars(text))
  {
    hide Join, Joined;
    JoinedSnoc(init, Run(pieces));
    JoinedSnoc(init, Run(pieces + [text]));
    JoinSnoc(pieces, text);
  }
}
