/**
  Canonical XML from an event list, and why comparing two canonical texts compares
  the documents: the printer can be undone.
 */
module CanonicalXml {
  import opened Core
  import opened TextOrder

  /** An engine event; `Other` stands for the kinds the printer ignores. */
  datatype Event =
    | Start(name: string, attributes: seq<string>)
    | End(name: string)
    | Chars(text: string)
    | Pi(target: string, data: string)
    | StartDoctype(name: string)
    | EndDoctype
    | NotationDecl(name: string, system: Option<string>, public_: Option<string>)
    | Other(kind: string)

  // ---- escaping -------------------------------------------------------------------

  function EscChar(c: char): (r: string)
    ensures r != ""
  {
    match c
    case '&' => "&amp;"
    case '<' => "&lt;"
    case '>' => "&gt;"
    case '\"' => "&quot;"
    case '\t' => "&#9;"
    case '\n' => "&#10;"
    case '\r' => "&#13;"
    case _ => [c]
  }

  /** `esc`. */
  function Esc(text: string): string {
    if text == "" then "" else EscChar(text[0]) + Esc(text[1..])
  }

  /** The character an escape at the front of `s` stands for, and the length of what stands for it. */
  function FrontChar(s: string): (r: (char, nat))
    requires s != ""
    ensures 0 < r.1 <= |s|
  {
    if "&amp;" <= s then ('&', 5)
    else if "&lt;" <= s then ('<', 4)
    else if "&gt;" <= s then ('>', 4)
    else if "&quot;" <= s then ('\"', 6)
    else if "&#9;" <= s then ('\t', 4)
    else if "&#10;" <= s then ('\n', 5)
    else if "&#13;" <= s then ('\r', 5)
    else (s[0], 1)
  }

  function Unesc(s: string): string
    decreases |s|
  {
    if s == "" then "" else [FrontChar(s).0] + Unesc(s[FrontChar(s).1..])
  }

  lemma EscCharFront(c: char, rest: string)
    ensures FrontChar(EscChar(c) + rest) == (c, |EscChar(c)|)
  {
    var s := EscChar(c) + rest;
    assert s[..|EscChar(c)|] == EscChar(c);
    assert forall i :: 0 <= i < |EscChar(c)| ==> s[i] == EscChar(c)[i];
    match c
    case '&' =>
    case '<' => assert s[1] == 'l';
    case '>' => assert s[1] == 'g';
    case '\"' => assert s[1] == 'q';
    case '\t' => assert s[1] == '#' && s[2] == '9';
    case '\n' => assert s[1] == '#' && s[2] == '1' && s[3] == '0';
    case '\r' => assert s[1] == '#' && s[2] == '1' && s[3] == '3';
    case _ => assert s[0] != '&';
  }

  /** Escaping loses nothing. */
  lemma {:induction false} UnescEsc(text: string)
    ensures Unesc(Esc(text)) == text
    decreases |text|
  {
    hide EscChar, FrontChar;
    if text != "" {
      EscCharFront(text[0], Esc(text[1..]));
      assert Esc(text)[|EscChar(text[0])|..] == Esc(text[1..]);
      UnescEsc(text[1..]);
      assert text == [text[0]] + text[1..];
    }
  }

  lemma {:induction false} EscConcat(a: string, b: string)
    ensures Esc(a + b) == Esc(a) + Esc(b)
    decreases |a|
  {
    hide EscChar;
    if a == "" {
      assert a + b == b;
    } else {
      assert (a + b)[1..] == a[1..] + b;
      EscConcat(a[1..], b);
    }
  }

  lemma EscCharSafe(c: char)
    ensures '<' !in EscChar(c) && '>' !in EscChar(c) && '\"' !in EscChar(c)
  {}

  /** Escaped text has no markup in it. */
  lemma {:induction false} EscSafe(text: string)
    ensures '<' !in Esc(text) && '>' !in Esc(text) && '\"' !in Esc(text)
    ensures Esc(text) == "" <==> text == ""
    decreases |text|
  {
    hide EscChar;
    if text != "" {
      EscCharSafe(text[0]);
      EscSafe(text[1..]);
    }
  }

  // ---- the printer ------------------------------------------------------------------

  /** `zip(a[0::2], a[1::2])`: names with their values, an odd last name dropped. */
  function Pairs(flat: seq<string>): seq<pair>
    decreases |flat|
  {
    if |flat| < 2 then [] else [(flat[0], flat[1])] + Pairs(flat[2..])
  }

  function AttributeText(p: pair): string {
    " " + p.0 + "=\"" + Esc(p.1) + "\""
  }

  function AttributesText(ps: seq<pair>): string {
    if ps == [] then "" else AttributeText(ps[0]) + AttributesText(ps[1..])
  }

  function StartText(name: string, ps: seq<pair>): string {
    "<" + name + AttributesText(ps) + ">"
  }

  function EndText(name: string): string {
    "</" + name + ">"
  }

  function PiText(target: string, data: string): string {
    "<?" + target + " " + data + "?>"
  }

  /** How an f-string shows a string that may be None. */
  function Shown(s: Option<string>): string {
    if s.None? then "None" else s.value
  }

  predicate Truthy(s: Option<string>) {
    s.Some? && s.value != ""
  }

  function NotationText(name: string, system: Option<string>, public_: Option<string>): string {
    if Truthy(public_) && Truthy(system) then
      "<!NOTATION " + name + " PUBLIC '" + Shown(public_) + "' '" + Shown(system) + "'>"
    else if Truthy(public_) then "<!NOTATION " + name + " PUBLIC '" + Shown(public_) + "'>"
    else "<!NOTATION " + name + " SYSTEM '" + Shown(system) + "'>"
  }

  /** A dictionary in insertion order; setting an existing key keeps its place. */
  function SetItem(d: seq<pair>, key: string, value: string): seq<pair> {
    if d == [] then [(key, value)]
    else if d[0].0 == key then [(key, value)] + d[1..]
    else [d[0]] + SetItem(d[1..], key, value)
  }

  /** The printer's variables. */
  datatype Printer = Printer(out: seq<string>, notations: seq<pair>, root: Option<string>, doctypeAt: nat)

  /** One turn of the printer's loop. */
  function Advance(p: Printer, e: Event): Printer {
    match e
    case Start(name, attributes) =>
      p.(root := if p.root.None? then Some(name) else p.root,
         out := p.out + [StartText(name, Sorted(Pairs(attributes)))])
    case End(name) => p.(out := p.out + [EndText(name)])
    case Chars(text) => p.(out := p.out + [Esc(text)])
    case Pi(target, data) => p.(out := p.out + [PiText(target, data)])
    case StartDoctype(name) => if p.root.None? then p.(root := Some(name)) else p
    case EndDoctype => p.(doctypeAt := |p.out|)
    case NotationDecl(name, system, public_) =>
      p.(notations := SetItem(p.notations, name, NotationText(name, system, public_)))
    case Other(_) => p
  }

  function Printed(events: seq<Event>): (p: Printer)
    ensures p.doctypeAt <= |p.out|
  {
    if events == [] then Printer([], [], None, 0)
    else Advance(Printed(events[..|events| - 1]), events[|events| - 1])
  }

  function Join(parts: seq<string>): string {
    if parts == [] then "" else parts[0] + Join(parts[1..])
  }

  function Lines(ps: seq<pair>): string {
    if ps == [] then "" else ps[0].1 + "\n" + Lines(ps[1..])
  }

  /** The document type declaration, with the notations in the order of their names. */
  function DoctypeText(p: Printer): string {
    "<!DOCTYPE " + Shown(p.root) + " [\n" + Lines(Sorted(p.notations)) + "]>\n"
  }

  /** `canonical`. */
  function Canonical(events: seq<Event>): string {
    var p := Printed(events);
    if p.notations == [] then Join(p.out)
    else Join(p.out[..p.doctypeAt] + [DoctypeText(p)] + p.out[p.doctypeAt..])
  }

  /** `canonical` as the loop it is. */
  method PrintCanonical(events: seq<Event>) returns (text: string)
    ensures text == Canonical(events)
  {
    hide StartText, EndText, PiText, Esc, Sorted, Pairs, NotationText, SetItem, DoctypeText, Join;
    var out: seq<string>, notations: seq<pair>, root: Option<string>, doctypeAt: nat := [], [], None, 0;
    for i := 0 to |events|
      invariant doctypeAt <= |out|
      invariant Printed(events[..i]) == Printer(out, notations, root, doctypeAt)
    {
      assert events[..i + 1][..i] == events[..i];
      match events[i] {
        case Start(name, attributes) =>
          if root.None? {
            root := Some(name);
          }
          out := out + [StartText(name, Sorted(Pairs(attributes)))];
        case End(name) => out := out + [EndText(name)];
        case Chars(chars) => out := out + [Esc(chars)];
        case Pi(target, data) => out := out + [PiText(target, data)];
        case StartDoctype(name) =>
          if root.None? {
            root := Some(name);
          }
        case EndDoctype => doctypeAt := |out|;
        case NotationDecl(name, system, public_) =>
          notations := SetItem(notations, name, NotationText(name, system, public_));
        case Other(_) =>
      }
    }
    assert events[..|events|] == events;
    if notations != [] {
      out := out[..doctypeAt] + [DoctypeText(Printer(out, notations, root, doctypeAt))] + out[doctypeAt..];
    }
    text := Join(out);
  }

  // ---- normal form --------------------------------------------------------------------

  /** What a canonical text says: attributes sorted, text merged and never empty. */
  datatype Node =
    | Open(name: string, attributes: seq<pair>)
    | Close(name: string)
    | Text(text: string)
    | Instruction(target: string, data: string)

  function AddText(nodes: seq<Node>, text: string): seq<Node> {
    if text == "" then nodes
    else if nodes != [] && nodes[|nodes| - 1].Text? then
      nodes[..|nodes| - 1] + [Text(nodes[|nodes| - 1].text + text)]
    else nodes + [Text(text)]
  }

  function AddEvent(nodes: seq<Node>, e: Event): seq<Node> {
    match e
    case Start(name, attributes) => nodes + [Open(name, Sorted(Pairs(attributes)))]
    case End(name) => nodes + [Close(name)]
    case Chars(text) => AddText(nodes, text)
    case Pi(target, data) => nodes + [Instruction(target, data)]
    case _ => nodes
  }

  /** The normal form: ignored kinds dropped, adjacent text merged, empty text dropped, attributes sorted. */
  function Normal(events: seq<Event>): seq<Node> {
    if events == [] then [] else AddEvent(Normal(events[..|events| - 1]), events[|events| - 1])
  }

  function NodeText(n: Node): string {
    match n
    case Open(name, attributes) => StartText(name, attributes)
    case Close(name) => EndText(name)
    case Text(text) => Esc(text)
    case Instruction(target, data) => PiText(target, data)
  }

  function NodesText(nodes: seq<Node>): string {
    if nodes == [] then "" else NodesText(nodes[..|nodes| - 1]) + NodeText(nodes[|nodes| - 1])
  }

  predicate NotationFree(events: seq<Event>) {
    forall i :: 0 <= i < |events| ==> !events[i].NotationDecl?
  }

  lemma NodesSnoc(nodes: seq<Node>, n: Node)
    ensures NodesText(nodes + [n]) == NodesText(nodes) + NodeText(n)
  {
    assert (nodes + [n])[..|nodes|] == nodes;
  }

  lemma {:induction false} JoinSnoc(parts: seq<string>, part: string)
    ensures Join(parts + [part]) == Join(parts) + part
    decreases |parts|
  {
    if parts == [] {
      assert parts + [part] == [part] && [part][1..] == [];
    } else {
      assert (parts + [part])[1..] == parts[1..] + [part];
      JoinSnoc(parts[1..], part);
    }
  }

  lemma AddTextPrints(nodes: seq<Node>, text: string)
    ensures NodesText(AddText(nodes, text)) == NodesText(nodes) + Esc(text)
  {
    if text != "" {
      if nodes != [] && nodes[|nodes| - 1].Text? {
        var init, last := nodes[..|nodes| - 1], nodes[|nodes| - 1];
        NodesSnoc(init, Text(last.text + text));
        EscConcat(last.text, text);
      } else {
        NodesSnoc(nodes, Text(text));
      }
    }
  }

  /** Without notations, the printer prints the normal form. */
  lemma {:induction false} CanonicalPrintsNormal(events: seq<Event>)
    requires NotationFree(events)
    ensures Printed(events).notations == [] && Join(Printed(events).out) == NodesText(Normal(events))
    decreases |events|
  {
    if events != [] {
      var init, e := events[..|events| - 1], events[|events| - 1];
      CanonicalPrintsNormal(init);
      var out, nodes := Printed(init).out, Normal(init);
      hide StartText, EndText, PiText, Esc, Sorted, Pairs, AddText, NodesText, Join;
      match e
      case Start(name, attributes) =>
        JoinSnoc(out, StartText(name, Sorted(Pairs(attributes))));
        NodesSnoc(nodes, Open(name, Sorted(Pairs(attributes))));
      case End(name) =>
        JoinSnoc(out, EndText(name));
        NodesSnoc(nodes, Close(name));
      case Chars(text) =>
        JoinSnoc(out, Esc(text));
        AddTextPrints(nodes, text);
      case Pi(target, data) =>
        JoinSnoc(out, PiText(target, data));
        NodesSnoc(nodes, Instruction(target, data));
      case _ =>
    }
  }

  // ---- reading a canonical text back -----------------------------------------------------

  /** How many characters come before the first one in `stops`. */
  function Until(s: string, stops: set<char>): (n: nat)
    ensures n <= |s|
    ensures forall i :: 0 <= i < n ==> s[i] !in stops
    ensures n < |s| ==> s[n] in stops
  {
    if s == "" || s[0] in stops then 0 else 1 + Until(s[1..], stops)
  }

  /** Where the first `?>` begins. */
  function UntilClose(s: string): (n: nat)
    ensures n <= |s|
  {
    if s == "" || "?>" <= s then 0 else 1 + UntilClose(s[1..])
  }

  /** The attributes at the front of `s`, up to and past the `>` that ends the tag. */
  function ReadAttributes(s: string): (r: Option<(seq<pair>, string)>)
    ensures r.Some? ==> |r.value.1| < |s|
    decreases |s|
  {
    if s == "" then None
    else if s[0] == '>' then Some(([], s[1..]))
    else
      var key := s[1..];
      var k := Until(key, {'='});
      if |key| < k + 2 then None
      else
        var value := key[k + 2..];
        var v := Until(value, {'\"'});
        if |value| < v + 1 then None
        else
          match ReadAttributes(value[v + 1..])
          case None => None
          case Some((rest, after)) => Some(([(key[..k], Unesc(value[..v]))] + rest, after))
  }

  /** The node at the front of `s`, and what follows it. */
  function ReadNode(s: string): (r: Option<(Node, string)>)
    requires s != ""
    ensures r.Some? ==> |r.value.1| < |s|
  {
    if s[0] != '<' then
      var n := Until(s, {'<'});
      Some((Text(Unesc(s[..n])), s[n..]))
    else if "</" <= s then
      var t := s[2..];
      var n := Until(t, {'>'});
      if n == |t| then None else Some((Close(t[..n]), t[n + 1..]))
    else if "<?" <= s then
      var t := s[2..];
      var n := Until(t, {' '});
      if n == |t| then None
      else
        var u := t[n + 1..];
        var m := UntilClose(u);
        if |u| < m + 2 then None else Some((Instruction(t[..n], u[..m]), u[m + 2..]))
    else
      var t := s[1..];
      var n := Until(t, {' ', '>'});
      match ReadAttributes(t[n..])
      case None => None
      case Some((attributes, after)) => Some((Open(t[..n], attributes), after))
  }

  function ReadNodes(s: string): Option<seq<Node>>
    decreases |s|
  {
    if s == "" then Some([])
    else
      match ReadNode(s)
      case None => None
      case Some((n, rest)) =>
        match ReadNodes(rest)
        case None => None
        case Some(nodes) => Some([n] + nodes)
  }

  // ---- the reader undoes the printer -------------------------------------------------------

  /** A name as XML allows it, as far as the printer's delimiters are concerned. */
  predicate NameOk(name: string) {
    name != "" && forall c :: c in name ==> c !in {' ', '<', '>', '/', '?', '=', '\"'}
  }

  /** No `?>` inside. */
  predicate DataOk(data: string) {
    forall i :: 0 <= i < |data| - 1 ==> !(data[i] == '?' && data[i + 1] == '>')
  }

  predicate NodeOk(n: Node) {
    match n
    case Open(name, attributes) => NameOk(name) && forall p :: p in attributes ==> NameOk(p.0)
    case Close(name) => NameOk(name)
    case Text(text) => text != ""
    case Instruction(target, data) => NameOk(target) && DataOk(data)
  }

  /** Well-formed nodes, no two texts side by side. */
  predicate NodesOk(nodes: seq<Node>) {
    && (forall i :: 0 <= i < |nodes| ==> NodeOk(nodes[i]))
    && (forall i :: 0 < i < |nodes| && nodes[i].Text? ==> !nodes[i - 1].Text?)
  }

  lemma {:induction false} UntilStops(s: string, stop: char, rest: string, stops: set<char>)
    requires stop in stops && forall c :: c in s ==> c !in stops
    ensures Until(s + [stop] + rest, stops) == |s|
  {
    var t := s + [stop] + rest;
    assert forall k :: 0 <= k < |s| ==> t[k] == s[k];
    assert t[|s|] == stop;
    var n := Until(t, stops);
  }

  lemma {:induction false} UntilCloseStops(data: string, rest: string)
    requires DataOk(data)
    ensures UntilClose(data + "?>" + rest) == |data|
    decreases |data|
  {
    var s := data + "?>" + rest;
    if data == "" {
      assert s[..2] == "?>";
    } else {
      assert s[1..] == data[1..] + "?>" + rest;
      assert s[0] == data[0] && s[1] == if |data| > 1 then data[1] else '?';
      assert DataOk(data[1..]);
      UntilCloseStops(data[1..], rest);
    }
  }

  /** The value part of an attribute, read off the front of what follows `="`. */
  lemma ValueFront(v: string, tail: string)
    ensures var s := Esc(v) + ['\"'] + tail;
      Until(s, {'\"'}) == |Esc(v)| && s[..|Esc(v)|] == Esc(v) && s[|Esc(v)| + 1..] == tail
  {
    hide Esc, Until;
    EscSafe(v);
    UntilStops(Esc(v), '\"', tail, {'\"'});
  }

  lemma KeyFront(name: string, after: string)
    requires NameOk(name)
    ensures var s := name + ['='] + after;
      Until(s, {'='}) == |name| && s[..|name|] == name && s[|name| + 1..] == after
  {
    UntilStops(name, '=', after, {'='});
  }

  lemma AttributeSplit(p: pair, tail: string)
    ensures AttributeText(p) + tail == " " + (p.0 + ['='] + ("\"" + (Esc(p.1) + ['\"'] + tail)))
  {
    hide Esc;
  }

  /** Reading a printed attribute gives the attribute and goes on with what follows. */
  lemma AttributeFront(p: pair, tail: string)
    requires NameOk(p.0)
    ensures ReadAttributes(AttributeText(p) + tail) ==
      match ReadAttributes(tail)
      case None => None
      case Some((rest, after)) => Some(([p] + rest, after))
  {
    hide Esc, Unesc, Until, AttributeText, NameOk;
    var value := Esc(p.1) + ['\"'] + tail;
    var key := p.0 + ['='] + ("\"" + value);
    var s := AttributeText(p) + tail;
    AttributeSplit(p, tail);
    assert s == " " + key;
    assert s[0] == ' ' && s[1..] == key;
    KeyFront(p.0, "\"" + value);
    assert key[|p.0| + 2..] == ("\"" + value)[1..] == value;
    ValueFront(p.1, tail);
    UnescEsc(p.1);
  }

  lemma {:induction false} ReadAttributesBack(ps: seq<pair>, rest: string)
    requires forall p :: p in ps ==> NameOk(p.0)
    ensures ReadAttributes(AttributesText(ps) + ">" + rest) == Some((ps, rest))
    decreases |ps|
  {
    hide NameOk, AttributeText;
    var s := AttributesText(ps) + ">" + rest;
    if ps == [] {
      assert s[1..] == rest;
    } else {
      assert ps[0] in ps;
      var tail := AttributesText(ps[1..]) + ">" + rest;
      assert s == AttributeText(ps[0]) + tail;
      AttributeFront(ps[0], tail);
      ReadAttributesBack(ps[1..], rest);
      assert [ps[0]] + ps[1..] == ps;
    }
  }

  /** What may follow a text node: the end, or the next mark. */
  predicate Marked(rest: string) {
    rest == "" || rest[0] == '<'
  }

  lemma ReadTextBack(text: string, rest: string)
    requires text != "" && Marked(rest)
    ensures Esc(text) != "" && ReadNode(Esc(text) + rest) == Some((Text(text), rest))
  {
    hide Esc, Unesc;
    EscSafe(text);
    UnescEsc(text);
    var s := Esc(text) + rest;
    assert forall k :: 0 <= k < |Esc(text)| ==> s[k] == Esc(text)[k];
    assert rest == "" || s[|Esc(text)|] == '<';
    var n := Until(s, {'<'});
    assert s[..n] == Esc(text) && s[n..] == rest;
  }

  /** A name is read up to the first character that cannot be in it. */
  lemma NameFront(name: string, stop: char, rest: string, stops: set<char>)
    requires NameOk(name) && stop in stops && stops <= {' ', '>'}
    ensures var t := name + [stop] + rest;
      Until(t, stops) == |name| && t[..|name|] == name && t[|name|..] == [stop] + rest && t[|name| + 1..] == rest
  {
    hide Until;
    UntilStops(name, stop, rest, stops);
  }

  lemma ReadCloseBack(name: string, rest: string)
    requires NameOk(name)
    ensures ReadNode(EndText(name) + rest) == Some((Close(name), rest))
  {
    hide Until, UntilClose, ReadAttributes, Unesc, NameOk;
    var s := EndText(name) + rest;
    assert s[..2] == "</";
    assert s[2..] == name + ['>'] + rest;
    NameFront(name, '>', rest, {'>'});
  }

  lemma DataFront(data: string, rest: string)
    requires DataOk(data)
    ensures var u := data + "?>" + rest;
      UntilClose(u) == |data| && u[..|data|] == data && u[|data| + 2..] == rest
  {
    UntilCloseStops(data, rest);
    hide UntilClose, DataOk;
  }

  lemma ReadInstructionBack(target: string, data: string, rest: string)
    requires NameOk(target) && DataOk(data)
    ensures ReadNode(PiText(target, data) + rest) == Some((Instruction(target, data), rest))
  {
    hide Until, UntilClose, ReadAttributes, Unesc, NameOk, DataOk;
    var s := PiText(target, data) + rest;
    var u := data + "?>" + rest;
    assert s[..2] == "<?" && s[1] == '?';
    assert s[2..] == target + [' '] + u;
    NameFront(target, ' ', u, {' '});
    DataFront(data, rest);
  }

  lemma ReadOpenBack(name: string, ps: seq<pair>, rest: string)
    requires NameOk(name) && forall p :: p in ps ==> NameOk(p.0)
    ensures ReadNode(StartText(name, ps) + rest) == Some((Open(name, ps), rest))
  {
    hide Until, UntilClose, ReadAttributes, AttributesText, Unesc;
    var s := StartText(name, ps) + rest;
    var more := AttributesText(ps) + ">" + rest;
    assert s == "<" + (name + more);
    assert s[0] == '<' && s[1..] == name + more;
    assert s[1] == name[0] && name[0] in name;
    AttributesBegin(ps, rest);
    assert name + more == name + [more[0]] + more[1..];
    NameFront(name, more[0], more[1..], {' ', '>'});
    assert more == [more[0]] + more[1..];
    ReadAttributesBack(ps, rest);
  }

  lemma AttributesBegin(ps: seq<pair>, rest: string)
    ensures var s := AttributesText(ps) + ">" + rest; s != "" && s[0] in {' ', '>'}
  {
    if ps != [] {
      assert AttributeText(ps[0])[0] == ' ';
    }
  }

  lemma ReadNodeBack(n: Node, rest: string)
    requires NodeOk(n) && (n.Text? ==> Marked(rest))
    ensures NodeText(n) != "" && ReadNode(NodeText(n) + rest) == Some((n, rest))
  {
    hide ReadNode, Esc;
    match n
    case Open(name, ps) => hide NameOk; ReadOpenBack(name, ps, rest);
    case Close(name) => ReadCloseBack(name, rest);
    case Text(text) => ReadTextBack(text, rest);
    case Instruction(target, data) => ReadInstructionBack(target, data, rest);
  }

  lemma {:induction false} NodesFront(nodes: seq<Node>)
    requires nodes != []
    ensures NodesText(nodes) == NodeText(nodes[0]) + NodesText(nodes[1..])
    decreases |nodes|
  {
    hide NodeText, NodesText;
    var init, last := nodes[..|nodes| - 1], nodes[|nodes| - 1];
    assert nodes == init + [last];
    NodesSnoc(init, last);
    NoNodes();
    if |nodes| > 1 {
      NodesFront(init);
      assert nodes[1..] == init[1..] + [last];
      NodesSnoc(init[1..], last);
    }
  }

  lemma NodesMarked(nodes: seq<Node>)
    requires NodesOk(nodes) && (nodes != [] ==> !nodes[0].Text?)
    ensures Marked(NodesText(nodes))
  {
    if nodes != [] {
      NodesFront(nodes);
      assert NodeText(nodes[0])[0] == '<';
    }
  }

  /** Reading a printed normal form returns it. */
  lemma {:induction false} ReadNodesBack(nodes: seq<Node>)
    requires NodesOk(nodes)
    ensures ReadNodes(NodesText(nodes)) == Some(nodes)
    decreases |nodes|
  {
    hide NodeText, NodesText, NodeOk, ReadNode;
    if nodes == [] {
      assert NodesText(nodes) == "" by { NoNodes(); }
    } else {
      var rest := NodesText(nodes[1..]);
      assert NodeOk(nodes[0]);
      assert NodesOk(nodes[1..]);
      NodesFront(nodes);
      if nodes[0].Text? {
        NodesMarked(nodes[1..]);
      }
      ReadNodeBack(nodes[0], rest);
      ReadNodesBack(nodes[1..]);
      assert [nodes[0]] + nodes[1..] == nodes;
    }
  }

  lemma NoNodes()
    ensures NodesText([]) == ""
  {}

  // ---- main result ------------------------------------------------------------------------

  /** Names XML allows, and processing-instruction data without its own end mark. */
  predicate EventOk(e: Event) {
    match e
    case Start(name, attributes) => NameOk(name) && forall p :: p in Pairs(attributes) ==> NameOk(p.0)
    case End(name) => NameOk(name)
    case Pi(target, data) => NameOk(target) && DataOk(data)
    case _ => true
  }

  predicate EventsOk(events: seq<Event>) {
    NotationFree(events) && forall i :: 0 <= i < |events| ==> EventOk(events[i])
  }

  lemma SortedNames(ps: seq<pair>)
    requires forall p :: p in ps ==> NameOk(p.0)
    ensures forall p :: p in Sorted(ps) ==> NameOk(p.0)
  {
    hide Sorted, NameOk;
    SortedIsSorted(ps);
    forall p | p in Sorted(ps) ensures NameOk(p.0) {
      assert p in multiset(Sorted(ps));
      assert p in ps;
    }
  }

  lemma AddEventOk(nodes: seq<Node>, e: Event)
    requires NodesOk(nodes) && EventOk(e)
    ensures NodesOk(AddEvent(nodes, e))
  {
    hide NameOk, DataOk, Sorted, Pairs;
    if e.Start? {
      SortedNames(Pairs(e.attributes));
    }
  }

  lemma {:induction false} NormalOk(events: seq<Event>)
    requires EventsOk(events)
    ensures NodesOk(Normal(events))
    decreases |events|
  {
    hide NodesOk, EventOk, AddEvent;
    if events != [] {
      NormalOk(events[..|events| - 1]);
      AddEventOk(Normal(events[..|events| - 1]), events[|events| - 1]);
    } else {
      NodesOkEmpty();
    }
  }

  lemma NodesOkEmpty()
    ensures NodesOk([])
  {}

  /**
    Two event lists have the same canonical text exactly when they have the same
    normal form: the text says neither more nor less than the normal form.
   */
  lemma CanonicalIsFaithful(events: seq<Event>, others: seq<Event>)
    requires EventsOk(events) && EventsOk(others)
    ensures Canonical(events) == Canonical(others) <==> Normal(events) == Normal(others)
  {
    hide Canonical, Normal, NodesText, NodesOk;
    SameTextSameCanonical(events, others);
    NormalOk(events);
    NormalOk(others);
    ReadNodesBack(Normal(events));
    ReadNodesBack(Normal(others));
  }

  lemma OneInstruction(target: string, data: string)
    ensures Normal([Pi(target, data)]) == [Instruction(target, data)]
    ensures NodesText([Instruction(target, data)]) == PiText(target, data)
  {
    hide PiText, AddText;
    NormalSnoc([], Pi(target, data));
    NodesSnoc([], Instruction(target, data));
    assert [] + [Pi(target, data)] == [Pi(target, data)];
  }

  lemma TwoInstructions(t: string, d: string, u: string, e: string)
    ensures Normal([Pi(t, d), Pi(u, e)]) == [Instruction(t, d), Instruction(u, e)]
    ensures NodesText([Instruction(t, d), Instruction(u, e)]) == PiText(t, d) + PiText(u, e)
  {
    hide PiText, AddText, Normal, NodesText;
    OneInstruction(t, d);
    NormalSnoc([Pi(t, d)], Pi(u, e));
    NodesSnoc([Instruction(t, d)], Instruction(u, e));
    assert [Pi(t, d)] + [Pi(u, e)] == [Pi(t, d), Pi(u, e)];
  }

  /** The condition on instruction data is needed: data with an end mark in it can pass for two instructions. */
  lemma EndMarkInDataIsAmbiguous()
    ensures var one, two := [Pi("a", "x?><?b y")], [Pi("a", "x"), Pi("b", "y")];
      Canonical(one) == Canonical(two) && Normal(one) != Normal(two) && !DataOk("x?><?b y")
  {
    hide Canonical, Normal, NodesText, PiText;
    var one, two := [Pi("a", "x?><?b y")], [Pi("a", "x"), Pi("b", "y")];
    OneInstruction("a", "x?><?b y");
    TwoInstructions("a", "x", "b", "y");
    SameTextSplit();
    SameTextSameCanonical(one, two);
    var data := "x?><?b y";
    assert data[1] == '?' && data[2] == '>';
  }

  lemma SameTextSplit()
    ensures PiText("a", "x?><?b y") == PiText("a", "x") + PiText("b", "y")
  {}

  lemma SameTextSameCanonical(events: seq<Event>, others: seq<Event>)
    requires NotationFree(events) && NotationFree(others)
    ensures NodesText(Normal(events)) == NodesText(Normal(others)) <==> Canonical(events) == Canonical(others)
  {
    hide Printed, Normal, NodesText, Join;
    CanonicalPrintsNormal(events);
    CanonicalPrintsNormal(others);
  }

  lemma {:induction false} NormalDependsOnNormal(a: seq<Event>, b: seq<Event>, after: seq<Event>)
    requires Normal(a) == Normal(b)
    ensures Normal(a + after) == Normal(b + after)
    decreases |after|
  {
    hide Normal, AddEvent;
    if after == [] {
      assert a + after == a && b + after == b;
    } else {
      var init, last := after[..|after| - 1], after[|after| - 1];
      NormalDependsOnNormal(a, b, init);
      NormalSnoc(a + init, last);
      NormalSnoc(b + init, last);
      assert a + after == (a + init) + [last] && b + after == (b + init) + [last];
    }
  }

  /** Attributes in another order, anywhere in a document, give the same canonical text. */
  lemma AttributeOrderIsForgotten(before: seq<Event>, name: string, a: seq<string>, b: seq<string>, after: seq<Event>)
    requires NotationFree(before) && NotationFree(after) && multiset(Pairs(a)) == multiset(Pairs(b))
    ensures Canonical(before + [Start(name, a)] + after) == Canonical(before + [Start(name, b)] + after)
  {
    hide Normal, Canonical, Sorted, Pairs;
    SortedForgetsOrder(Pairs(a), Pairs(b));
    NormalSnoc(before, Start(name, a));
    NormalSnoc(before, Start(name, b));
    NormalDependsOnNormal(before + [Start(name, a)], before + [Start(name, b)], after);
    SameTextSameCanonical(before + [Start(name, a)] + after, before + [Start(name, b)] + after);
  }

  /** Text cut in two, anywhere in a document, gives the same canonical text. */
  lemma TextSplitIsForgotten(before: seq<Event>, x: string, y: string, after: seq<Event>)
    requires NotationFree(before) && NotationFree(after)
    ensures Canonical(before + [Chars(x + y)] + after) == Canonical(before + [Chars(x), Chars(y)] + after)
  {
    hide Normal, Canonical, AddText;
    NormalSnoc(before, Chars(x + y));
    NormalSnoc(before, Chars(x));
    NormalSnoc(before + [Chars(x)], Chars(y));
    assert before + [Chars(x), Chars(y)] == before + [Chars(x)] + [Chars(y)];
    AddTextTwice(Normal(before), x, y);
    NormalDependsOnNormal(before + [Chars(x + y)], before + [Chars(x), Chars(y)], after);
    SameTextSameCanonical(before + [Chars(x + y)] + after, before + [Chars(x), Chars(y)] + after);
  }

  lemma NormalSnoc(events: seq<Event>, e: Event)
    ensures Normal(events + [e]) == AddEvent(Normal(events), e)
  {
    assert (events + [e])[..|events|] == events;
  }

  lemma AddTextTwice(nodes: seq<Node>, x: string, y: string)
    ensures AddText(AddText(nodes, x), y) == AddText(nodes, x + y)
  {
    if x == "" {
      assert x + y == y;
    } else if y == "" {
      assert x + y == x;
    } else if nodes != [] && nodes[|nodes| - 1].Text? {
      assert (nodes[|nodes| - 1].text + x) + y == nodes[|nodes| - 1].text + (x + y);
    }
  }
}
