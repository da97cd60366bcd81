/**
  What the printer's parts hold: which attributes an element is printed with, what the
  normal form keeps of each event, and where and with what the DOCTYPE stands.
 */
module CanonicalMeaning {
  import opened Core
  import opened TextOrder
  import opened CanonicalXml

  // ---- attributes ------------------------------------------------------------------

  /** Names at even places with the values behind them, by index. */
  function IndexPairs(flat: seq<string>): (r: seq<pair>)
    ensures |r| == |flat| / 2
    ensures forall i :: 0 <= i < |r| ==> r[i] == (flat[2 * i], flat[2 * i + 1])
  {
    seq(|flat| / 2, i requires 0 <= i < |flat| / 2 => (flat[2 * i], flat[2 * i + 1]))
  }

  /** No attribute is lost, added or moved before sorting; an odd last name is dropped. */
  lemma {:induction false} PairsByIndex(flat: seq<string>)
    ensures Pairs(flat) == IndexPairs(flat)
    decreases |flat|
  {
    if |flat| >= 2 {
      PairsByIndex(flat[2..]);
      var rest := IndexPairs(flat[2..]);
      forall i | 0 <= i < |flat| / 2 ensures Pairs(flat)[i] == IndexPairs(flat)[i] {
        if i > 0 {
          assert Pairs(flat)[i] == rest[i - 1];
        }
      }
    }
  }

  lemma OneStart(name: string, attributes: seq<string>)
    ensures Normal([Start(name, attributes)]) == [Open(name, Sorted(IndexPairs(attributes)))]
  {
    hide Sorted, Pairs, AddText;
    PairsByIndex(attributes);
    NormalSnoc([], Start(name, attributes));
    assert [] + [Start(name, attributes)] == [Start(name, attributes)];
  }

  /** Two start tags of the same name print alike, if and only if they have the same attributes in some order. */
  lemma StartsPrintAlikeExactly(name: string, a: seq<string>, b: seq<string>)
    requires NameOk(name)
    requires forall p :: p in IndexPairs(a) ==> NameOk(p.0)
    requires forall p :: p in IndexPairs(b) ==> NameOk(p.0)
    ensures Canonical([Start(name, a)]) == Canonical([Start(name, b)]) <==>
      multiset(IndexPairs(a)) == multiset(IndexPairs(b))
  {
    hide Canonical, Normal, Sorted, NameOk, Pairs, IndexPairs;
    PairsByIndex(a);
    PairsByIndex(b);
    OneStart(name, a);
    OneStart(name, b);
    assert EventsOk([Start(name, a)]) && EventsOk([Start(name, b)]);
    CanonicalIsFaithful([Start(name, a)], [Start(name, b)]);
    SortedForgetsOrder(IndexPairs(a), IndexPairs(b));
  }

  // ---- the normal form --------------------------------------------------------------

  /** A list with nothing to drop or merge. */
  predicate Tidy(events: seq<Event>) {
    && (forall i :: 0 <= i < |events| ==> Visible(events[i]))
    && (forall i :: 0 < i < |events| && events[i].Chars? ==> !events[i - 1].Chars?)
  }

  predicate Visible(e: Event) {
    e.Start? || e.End? || e.Pi? || (e.Chars? && e.text != "")
  }

  function NodeOf(e: Event): Node
    requires Visible(e)
  {
    match e
    case Start(name, attributes) => Open(name, Sorted(IndexPairs(attributes)))
    case End(name) => Close(name)
    case Chars(text) => Text(text)
    case Pi(target, data) => Instruction(target, data)
  }

  /** The normal form of such a list keeps every event, in its place, whole. */
  lemma {:induction false} NormalOfTidy(events: seq<Event>)
    requires Tidy(events)
    ensures |Normal(events)| == |events|
    ensures forall i :: 0 <= i < |events| ==> Normal(events)[i] == NodeOf(events[i])
    decreases |events|
  {
    hide Sorted, Pairs, IndexPairs;
    if events != [] {
      var init, last := events[..|events| - 1], events[|events| - 1];
      NormalOfTidy(init);
      if last.Start? {
        PairsByIndex(last.attributes);
      }
    }
  }

  /** Events of other kinds, and empty texts, are all that is dropped. */
  lemma DroppedIsForgotten(before: seq<Event>, e: Event, after: seq<Event>)
    requires !e.Start? && !e.End? && !e.Pi? && (e.Chars? ==> e.text == "")
    ensures Normal(before + [e] + after) == Normal(before + after)
  {
    hide Normal;
    NormalSnoc(before, e);
    NormalDependsOnNormal(before + [e], before, after);
  }

  // ---- the DOCTYPE ---------------------------------------------------------------------

  lemma PrintedSnoc(events: seq<Event>, e: Event)
    ensures Printed(events + [e]) == Advance(Printed(events), e)
  {
    hide Advance;
    assert (events + [e])[..|events|] == events;
  }

  /** What one event adds to the output does not depend on what came before. */
  lemma {:induction false} OutAppends(a: seq<Event>, b: seq<Event>)
    ensures Printed(a + b).out == Printed(a).out + Printed(b).out
    decreases |b|
  {
    hide Printed, StartText, EndText, PiText, Esc, NotationText;
    if b == [] {
      assert a + b == a;
      PrintedNone();
    } else {
      var init, last := b[..|b| - 1], b[|b| - 1];
      OutAppends(a, init);
      PrintedSnoc(a + init, last);
      PrintedSnoc(init, last);
      assert a + b == (a + init) + [last] && b == init + [last];
      AdvanceAdds(Printed(a + init), Printed(init), Printed(a).out, last);
    }
  }

  lemma PrintedNone()
    ensures Printed([]).out == [] && Printed([]).notations == [] && Printed([]).root.None?
  {}

  lemma AdvanceAdds(p: Printer, q: Printer, out: seq<string>, e: Event)
    requires p.out == out + q.out
    ensures Advance(p, e).out == out + Advance(q, e).out
  {
    hide StartText, EndText, PiText, Esc, NotationText, SetItem;
  }

  lemma {:induction false} DoctypeStays(a: seq<Event>, b: seq<Event>)
    requires forall e :: e in b ==> !e.EndDoctype?
    ensures Printed(a + b).doctypeAt == Printed(a).doctypeAt
    decreases |b|
  {
    hide Printed, StartText, EndText, PiText, Esc, NotationText, SetItem;
    if b == [] {
      assert a + b == a;
    } else {
      var init, last := b[..|b| - 1], b[|b| - 1];
      DoctypeStays(a, init);
      PrintedSnoc(a + init, last);
      assert a + b == (a + init) + [last];
    }
  }

  /** Whatever the events, notations among them, the output is the text of the normal form. */
  lemma {:induction false} OutPrintsNormal(events: seq<Event>)
    ensures Join(Printed(events).out) == NodesText(Normal(events))
    decreases |events|
  {
    if events != [] {
      var init, e := events[..|events| - 1], events[|events| - 1];
      assert events == init + [e];
      OutPrintsNormal(init);
      PrintedSnoc(init, e);
      NormalSnoc(init, e);
      hide Printed, Normal;
      OutOfOne(Printed(init), Normal(init), e);
    }
  }

  lemma OutOfOne(p: Printer, nodes: seq<Node>, e: Event)
    requires Join(p.out) == NodesText(nodes)
    ensures Join(Advance(p, e).out) == NodesText(AddEvent(nodes, e))
  {
    hide StartText, EndText, PiText, Esc, Sorted, Pairs, AddText, NodesText, Join, NotationText, SetItem;
    match e
    case Start(name, attributes) =>
      JoinSnoc(p.out, StartText(name, Sorted(Pairs(attributes))));
      NodesSnoc(nodes, Open(name, Sorted(Pairs(attributes))));
    case End(name) =>
      JoinSnoc(p.out, EndText(name));
      NodesSnoc(nodes, Close(name));
    case Chars(text) =>
      JoinSnoc(p.out, Esc(text));
      AddTextPrints(nodes, text);
    case Pi(target, data) =>
      JoinSnoc(p.out, PiText(target, data));
      NodesSnoc(nodes, Instruction(target, data));
    case _ =>
  }

  lemma {:induction false} JoinConcat(a: seq<string>, b: seq<string>)
    ensures Join(a + b) == Join(a) + Join(b)
    decreases |b|
  {
    hide Join;
    if b == [] {
      assert a + b == a;
      JoinNone();
    } else {
      var init, last := b[..|b| - 1], b[|b| - 1];
      JoinConcat(a, init);
      JoinSnoc(a + init, last);
      JoinSnoc(init, last);
      assert a + b == (a + init) + [last] && b == init + [last];
    }
  }

  lemma JoinNone()
    ensures Join([]) == ""
  {}

  lemma JoinOne(s: string)
    ensures Join([s]) == s
  {
    assert [s][1..] == [];
  }

  /**
    With notations declared, the DOCTYPE stands exactly behind what was printed before the end
    of the document type declaration, and the rest of the text is that without it.
   */
  lemma DoctypeStandsAtItsEnd(before: seq<Event>, after: seq<Event>)
    requires forall e :: e in after ==> !e.EndDoctype?
    requires Printed(before + [EndDoctype] + after).notations != []
    ensures Canonical(before + [EndDoctype] + after)
         == NodesText(Normal(before)) + DoctypeText(Printed(before + [EndDoctype] + after)) + NodesText(Normal(after))
  {
    hide Printed, DoctypeText, NodesText, Normal, Join, Advance;
    var events, closed := before + [EndDoctype] + after, before + [EndDoctype];
    OutAppends(closed, after);
    ClosedAt(before);
    DoctypeStays(closed, after);
    var out, d, p := Printed(before).out, DoctypeText(Printed(events)), Printed(events);
    assert p.out[..p.doctypeAt] == out && p.out[p.doctypeAt..] == Printed(after).out;
    JoinConcat(out + [d], Printed(after).out);
    JoinSnoc(out, d);
    OutPrintsNormal(before);
    OutPrintsNormal(after);
  }

  /** Without the end of such a declaration it stands in front. */
  lemma DoctypeStandsInFront(events: seq<Event>)
    requires forall e :: e in events ==> !e.EndDoctype?
    requires Printed(events).notations != []
    ensures Canonical(events) == DoctypeText(Printed(events)) + NodesText(Normal(events))
  {
    hide DoctypeText, NodesText, Normal, Join, Advance;
    var d, p := DoctypeText(Printed(events)), Printed(events);
    assert [] + events == events && Printed([]).doctypeAt == 0;
    DoctypeStays([], events);
    hide Printed;
    assert p.out[..0] + [d] + p.out[0..] == [d] + p.out;
    JoinConcat([d], p.out);
    JoinOne(d);
    OutPrintsNormal(events);
  }

  lemma ClosedAt(before: seq<Event>)
    ensures var p := Printed(before + [EndDoctype]);
      p.out == Printed(before).out && p.doctypeAt == |p.out|
  {
    PrintedSnoc(before, EndDoctype);
  }

  // ---- what the DOCTYPE says -----------------------------------------------------------

  /** The name of the first document type declaration or element. */
  function FirstRoot(events: seq<Event>): Option<string> {
    if events == [] then None
    else if events[0].Start? || events[0].StartDoctype? then Some(events[0].name)
    else FirstRoot(events[1..])
  }

  lemma {:induction false} FirstRootSnoc(events: seq<Event>, e: Event)
    ensures FirstRoot(events + [e]) ==
      if FirstRoot(events).Some? then FirstRoot(events)
      else if e.Start? || e.StartDoctype? then Some(e.name) else None
    decreases |events|
  {
    if events == [] {
      assert events + [e] == [e] && [e][1..] == [];
    } else {
      assert (events + [e])[1..] == events[1..] + [e];
      FirstRootSnoc(events[1..], e);
    }
  }

  lemma {:induction false} RootIsFirst(events: seq<Event>)
    ensures Printed(events).root == FirstRoot(events)
    decreases |events|
  {
    hide StartText, EndText, PiText, Esc, Sorted, Pairs, NotationText, SetItem;
    if events != [] {
      var init, last := events[..|events| - 1], events[|events| - 1];
      RootIsFirst(init);
      FirstRootSnoc(init, last);
      assert events == init + [last];
    }
  }

  /** The text of the last declaration of a notation. */
  function LastDeclared(events: seq<Event>, name: string): Option<string> {
    if events == [] then None
    else
      var e := events[|events| - 1];
      if e.NotationDecl? && e.name == name then Some(NotationText(name, e.system, e.public_))
      else LastDeclared(events[..|events| - 1], name)
  }

  function Lookup(d: seq<pair>, key: string): Option<string> {
    if d == [] then None else if d[0].0 == key then Some(d[0].1) else Lookup(d[1..], key)
  }

  predicate DistinctKeys(d: seq<pair>) {
    forall i, j :: 0 <= i < j < |d| ==> d[i].0 != d[j].0
  }

  lemma {:induction false} SetItemLookup(d: seq<pair>, key: string, value: string, other: string)
    ensures Lookup(SetItem(d, key, value), other) == if other == key then Some(value) else Lookup(d, other)
    decreases |d|
  {
    if d == [] {
      assert [(key, value)][1..] == [];
    } else if d[0].0 == key {
      assert ([(key, value)] + d[1..])[1..] == d[1..];
    } else {
      SetItemLookup(d[1..], key, value, other);
      assert ([d[0]] + SetItem(d[1..], key, value))[1..] == SetItem(d[1..], key, value);
    }
  }

  predicate HasKey(d: seq<pair>, key: string) {
    exists i :: 0 <= i < |d| && d[i].0 == key
  }

  lemma {:induction false} SetItemKeys(d: seq<pair>, key: string, value: string)
    requires DistinctKeys(d)
    ensures DistinctKeys(SetItem(d, key, value))
    ensures forall other :: other != key && !HasKey(d, other) ==> !HasKey(SetItem(d, key, value), other)
    decreases |d|
  {
    if d == [] {
    } else if d[0].0 == key {
      assert d == [d[0]] + d[1..];
      FirstApart(d[0], d[1..]);
      KeysAhead((key, value), d[1..]);
      forall other | other != key && !HasKey(d, other) ensures !HasKey([(key, value)] + d[1..], other) {
        KeyBehind(d[0], d[1..], other);
        KeyBehind((key, value), d[1..], other);
      }
    } else {
      var r := SetItem(d[1..], key, value);
      assert d == [d[0]] + d[1..];
      FirstApart(d[0], d[1..]);
      SetItemKeys(d[1..], key, value);
      KeysAhead(d[0], r);
      forall other | other != key && !HasKey(d, other) ensures !HasKey([d[0]] + r, other) {
        KeyBehind(d[0], d[1..], other);
        KeyBehind(d[0], r, other);
      }
    }
  }

  lemma FirstApart(first: pair, rest: seq<pair>)
    requires DistinctKeys([first] + rest)
    ensures DistinctKeys(rest) && !HasKey(rest, first.0)
  {
    var d := [first] + rest;
    forall i | 0 <= i < |rest| ensures rest[i].0 != first.0 {
      assert d[i + 1] == rest[i] && d[0] == first;
    }
    forall i, j | 0 <= i < j < |rest| ensures rest[i].0 != rest[j].0 {
      assert d[i + 1] == rest[i] && d[j + 1] == rest[j];
    }
  }

  lemma KeysAhead(first: pair, rest: seq<pair>)
    requires DistinctKeys(rest) && !HasKey(rest, first.0)
    ensures DistinctKeys([first] + rest)
  {}

  lemma KeyBehind(first: pair, rest: seq<pair>, key: string)
    ensures HasKey([first] + rest, key) <==> first.0 == key || HasKey(rest, key)
  {
    var d := [first] + rest;
    if HasKey(rest, key) {
      var i :| 0 <= i < |rest| && rest[i].0 == key;
      assert d[i + 1].0 == key;
    }
    if first.0 == key {
      assert d[0].0 == key;
    }
  }

  /** The notations in force are the last declaration of each name, one entry a name. */
  lemma {:induction false} NotationsAreLast(events: seq<Event>, name: string)
    ensures Lookup(Printed(events).notations, name) == LastDeclared(events, name)
    ensures DistinctKeys(Printed(events).notations)
    decreases |events|
  {
    hide StartText, EndText, PiText, Esc, Sorted, Pairs, NotationText, SetItem, DistinctKeys;
    if events == [] {
      NoKeys();
    } else {
      var init, last := events[..|events| - 1], events[|events| - 1];
      NotationsAreLast(init, name);
      if last.NotationDecl? {
        var text := NotationText(last.name, last.system, last.public_);
        SetItemLookup(Printed(init).notations, last.name, text, name);
        SetItemKeys(Printed(init).notations, last.name, text);
      }
    }
  }

  lemma NoKeys()
    ensures DistinctKeys([])
  {}

  /** The three forms of a notation, and of the names that stand in for missing ones. */
  lemma SampleNotations()
    ensures NotationText("n", Some("s"), Some("p")) == "<!NOTATION n PUBLIC 'p' 's'>"
    ensures NotationText("n", None, Some("p")) == "<!NOTATION n PUBLIC 'p'>"
    ensures NotationText("n", Some("s"), None) == "<!NOTATION n SYSTEM 's'>"
    ensures NotationText("n", Some(""), Some("p")) == "<!NOTATION n PUBLIC 'p'>"
    ensures NotationText("n", None, Some("")) == "<!NOTATION n SYSTEM 'None'>"
  {}

  // ---- samples -------------------------------------------------------------------------

  lemma SampleEscapes()
    ensures Esc("&<>") == "&amp;&lt;&gt;" && Esc("\"\t") == "&quot;&#9;" && Esc("\n\rx") == "&#10;&#13;x"
  {
    assert Esc("x") == "x";
    assert Esc("\rx") == "&#13;" + "x";
    assert Esc("\t") == "&#9;";
    assert Esc(">") == "&gt;";
    assert Esc("<>") == "&lt;" + "&gt;";
  }

  /** The notations are listed by name, whatever the order of their declarations. */
  lemma SampleDoctype()
    ensures DoctypeText(Printer([], [("n", "N"), ("m", "M")], Some("r"), 0)) == "<!DOCTYPE r [\nM\nN\n]>\n"
  {
    var m: pair, n: pair := ("m", "M"), ("n", "N");
    assert [m, n][1..] == [n] && [n, m][1..] == [m] && [n][1..] == [] && [m][1..] == [];
    assert Sorted([]) == [];
    assert Sorted([m]) == [m];
    assert !PairLeq(n, m);
    assert Insert(n, []) == [n];
    assert Insert(n, [m]) == [m] + [n] == [m, n];
    assert Sorted([n, m]) == [m, n];
    assert Lines([]) == "";
    assert Lines([n]) == "N" + "\n" + "";
    assert Lines([m, n]) == "M" + "\n" + Lines([n]);
  }

  /** Two sets of notations in force print alike whatever their order. */
  lemma DoctypeForgetsOrder(p: Printer, q: Printer)
    requires p.root == q.root && multiset(p.notations) == multiset(q.notations)
    ensures DoctypeText(p) == DoctypeText(q)
  {
    SortedForgetsOrder(p.notations, q.notations);
  }

  lemma SampleAttributeText()
    ensures AttributeText(("a", "1")) == " a=\"1\"" && AttributeText(("b", "<")) == " b=\"&lt;\""
  {
    assert Esc("1") == "1" && Esc("<") == "&lt;";
  }

  lemma TwoAttributes(a: pair, b: pair)
    ensures AttributesText([a, b]) == AttributeText(a) + AttributeText(b)
  {
    hide AttributeText;
    assert [a, b][1..] == [b] && [b][1..] == [];
    assert AttributesText([]) == "";
    assert AttributesText([b]) == AttributeText(b) + "";
  }

  /** The text of one node of each kind. */
  lemma SampleNodes()
    ensures NodeText(Open("e", [("a", "1"), ("b", "<")])) == "<" + "e" + (" a=\"1\"" + " b=\"&lt;\"") + ">"
    ensures NodeText(Close("e")) == "</e>" && NodeText(Instruction("t", "d")) == "<?t d?>"
    ensures NodeText(Text("x")) == "x"
  {
    hide AttributeText, AttributesText;
    assert Esc("x") == "x";
    SampleAttributeText();
    TwoAttributes(("a", "1"), ("b", "<"));
  }
}
