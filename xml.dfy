/**
 * The XML output, as an element tree and as the stream of calls an
 * `XmlWriter` receives.  The writer's serialisation (indentation, the XML
 * declaration, the byte encoding and the escaping of text) is not part of
 * this model; a document here is the sequence of writer events, and the
 * parser below shows that this sequence determines the element tree.
 */
module Xml {
  import opened Wrappers

  /** An element with its attributes in order, or a run of text. */
  datatype Node =
    | Element(name: string, attributes: seq<(string, string)>, children: seq<Node>)
    | Text(text: string)

  /** One call on an `XmlWriter`. */
  datatype XmlEvent =
    | StartElement(name: string)
    | Attribute(name: string, value: string)
    | Characters(text: string)
    | EndElement

  /** The name of an element, and the empty name for text. */
  function Tag(n: Node): string {
    if n.Element? then n.name else ""
  }

  /** The names of the nodes `ns`, in order. */
  function Tags(ns: seq<Node>): (r: seq<string>)
    ensures |r| == |ns|
    ensures forall i :: 0 <= i < |r| ==> r[i] == Tag(ns[i])
  {
    seq(|ns|, i requires 0 <= i < |ns| => Tag(ns[i]))
  }

  lemma TagsAppend(a: seq<Node>, b: seq<Node>)
    ensures Tags(a + b) == Tags(a) + Tags(b)
  {
  }

  /** The names of the children of `n`, in document order. */
  function ChildTags(n: Node): seq<string> {
    if n.Element? then Tags(n.children) else []
  }

  /** An element holding one run of text. */
  function TextElement(name: string, text: string): Node {
    Element(name, [], [Text(text)])
  }

  /** What `WriteElementString` writes: the text, or nothing at all when it is empty. */
  function ElementString(name: string, value: string): (n: Node)
    ensures |value| > 0 ==> n == TextElement(name, value)
    ensures |value| == 0 ==> n.Element? && n.children == []
  {
    Element(name, [], if |value| > 0 then [Text(value)] else [])
  }

  function AttributeEvents(attrs: seq<(string, string)>): (r: seq<XmlEvent>)
    ensures |r| == |attrs|
    ensures forall i :: 0 <= i < |r| ==> r[i] == Attribute(attrs[i].0, attrs[i].1)
  {
    if |attrs| == 0 then [] else [Attribute(attrs[0].0, attrs[0].1)] + AttributeEvents(attrs[1..])
  }

  /** The calls that write `n`: start tag, attributes, content, end tag. */
  function Events(n: Node): seq<XmlEvent>
    decreases n, 1
  {
    match n
    case Text(t) => [Characters(t)]
    case Element(name, attrs, children) =>
      [StartElement(name)] + AttributeEvents(attrs) + ChildrenEvents(children) + [EndElement]
  }

  function ChildrenEvents(ns: seq<Node>): seq<XmlEvent>
    decreases ns, 0
  {
    if |ns| == 0 then [] else Events(ns[0]) + ChildrenEvents(ns[1..])
  }

  lemma {:induction false} ChildrenEventsAppend(a: seq<Node>, b: seq<Node>)
    ensures ChildrenEvents(a + b) == ChildrenEvents(a) + ChildrenEvents(b)
  {
    if |a| > 0 {
      assert (a + b)[1..] == a[1..] + b;
      ChildrenEventsAppend(a[1..], b);
    } else {
      assert a + b == b;
    }
  }

  lemma ChildrenEventsSingle(n: Node)
    ensures ChildrenEvents([n]) == Events(n)
  {
    assert [n][1..] == [];
  }

  /** The children `[first] + rest` are written as `first`'s events, then the rest's. */
  lemma ChildrenEventsCons(first: Node, rest: seq<Node>)
    ensures ChildrenEvents([first] + rest) == Events(first) + ChildrenEvents(rest)
  {
    assert ([first] + rest)[1..] == rest;
  }

  /** Writing `n` after the children `ns` extends their events by `n`'s. */
  lemma ChildrenEventsSnoc(e: seq<XmlEvent>, ns: seq<Node>, n: Node)
    ensures e + ChildrenEvents(ns) + Events(n) == e + ChildrenEvents(ns + [n])
  {
    ChildrenEventsSingle(n);
    ChildrenEventsConcat(e, ns, [n]);
  }

  /** Two runs of children written one after the other. */
  lemma ChildrenEventsConcat(e: seq<XmlEvent>, a: seq<Node>, b: seq<Node>)
    ensures e + ChildrenEvents(a) + ChildrenEvents(b) == e + ChildrenEvents(a + b)
  {
    var x, y := ChildrenEvents(a), ChildrenEvents(b);
    ChildrenEventsAppend(a, b);
    assert e + x + y == e + (x + y);
  }

  /** Three runs of children written one after the other. */
  lemma ChildrenEventsConcat3(e: seq<XmlEvent>, a: seq<Node>, b: seq<Node>, c: seq<Node>)
    ensures e + ChildrenEvents(a) + ChildrenEvents(b) + ChildrenEvents(c) == e + ChildrenEvents(a + b + c)
  {
    ChildrenEventsConcat(e, a, b);
    ChildrenEventsConcat(e, a + b, c);
  }

  /**
   * A start tag and its attributes (`start`), then the events of `ns`, then
   * an end tag, written after `before`, are the events of one element.
   */
  lemma ElementWritten(before: seq<XmlEvent>, name: string, attrs: seq<(string, string)>, ns: seq<Node>,
                       start: seq<XmlEvent>, inside: seq<XmlEvent>, after: seq<XmlEvent>)
    requires start == before + [StartElement(name)] + AttributeEvents(attrs)
    requires inside == start + ChildrenEvents(ns)
    requires after == inside + [EndElement]
    ensures after == before + Events(Element(name, attrs, ns))
  {
  }

  /** A start tag without attributes is just the `StartElement` event. */
  lemma NoAttributes(e: seq<XmlEvent>)
    ensures e + AttributeEvents([]) == e
  {
  }

  // ---- reading a tree back from its events ----

  /** The leading attribute events, and what follows them. */
  function ParseAttributes(evs: seq<XmlEvent>): (r: (seq<(string, string)>, seq<XmlEvent>))
    ensures |r.1| <= |evs|
  {
    if |evs| > 0 && evs[0].Attribute? then
      var (attrs, rest) := ParseAttributes(evs[1..]);
      ([(evs[0].name, evs[0].value)] + attrs, rest)
    else ([], evs)
  }

  /** One node from the front of `evs`, and the events after it. */
  function ParseNode(evs: seq<XmlEvent>): (r: Option<(Node, seq<XmlEvent>)>)
    ensures r.Some? ==> |r.value.1| < |evs|
    decreases |evs|, 0
  {
    if |evs| == 0 then None
    else
      match evs[0]
      case Characters(t) => Some((Text(t), evs[1..]))
      case StartElement(name) =>
        var (attrs, rest) := ParseAttributes(evs[1..]);
        (match ParseChildren(rest)
         case None => None
         case Some((children, after)) => Some((Element(name, attrs, children), after)))
      case Attribute(_, _) => None
      case EndElement => None
  }

  /** Nodes up to and including the `EndElement` that closes their parent. */
  function ParseChildren(evs: seq<XmlEvent>): (r: Option<(seq<Node>, seq<XmlEvent>)>)
    ensures r.Some? ==> |r.value.1| < |evs|
    decreases |evs|, 1
  {
    if |evs| == 0 then None
    else if evs[0] == EndElement then Some(([], evs[1..]))
    else
      match ParseNode(evs)
      case None => None
      case Some((n, rest)) =>
        match ParseChildren(rest)
        case None => None
        case Some((ns, after)) => Some(([n] + ns, after))
  }

  /** The tree a complete event stream denotes, if it denotes one. */
  function Document(evs: seq<XmlEvent>): Option<Node> {
    match ParseNode(evs)
    case Some((n, rest)) => if rest == [] then Some(n) else None
    case None => None
  }

  lemma {:induction false} ParseAttributesOfEvents(attrs: seq<(string, string)>, rest: seq<XmlEvent>)
    requires |rest| > 0 && !rest[0].Attribute?
    ensures ParseAttributes(AttributeEvents(attrs) + rest) == (attrs, rest)
  {
    if |attrs| > 0 {
      assert (AttributeEvents(attrs) + rest)[1..] == AttributeEvents(attrs[1..]) + rest;
      ParseAttributesOfEvents(attrs[1..], rest);
      assert [attrs[0]] + attrs[1..] == attrs;
    } else {
      assert AttributeEvents(attrs) + rest == rest;
    }
  }

  /** The events of a node never begin with an attribute or an end tag. */
  lemma NodeEventsStart(n: Node)
    ensures |Events(n)| > 0 && (Events(n)[0].StartElement? || Events(n)[0].Characters?)
  {
  }

  /** Reading the events of `n` gives back `n` and leaves what follows untouched. */
  lemma {:induction false} ParseNodeOfEvents(n: Node, rest: seq<XmlEvent>)
    ensures ParseNode(Events(n) + rest) == Some((n, rest))
    decreases n, 1
  {
    match n
    case Text(t) =>
      assert (Events(n) + rest)[1..] == rest;
    case Element(name, attrs, children) =>
      var evs := Events(n) + rest;
      var tail := ChildrenEvents(children) + [EndElement] + rest;
      assert evs[1..] == AttributeEvents(attrs) + tail;
      if |children| > 0 {
        NodeEventsStart(children[0]);
        assert tail[0] == Events(children[0])[0];
      }
      ParseAttributesOfEvents(attrs, tail);
      ParseChildrenOfEvents(children, rest);
  }

  lemma {:induction false} ParseChildrenOfEvents(ns: seq<Node>, rest: seq<XmlEvent>)
    ensures ParseChildren(ChildrenEvents(ns) + [EndElement] + rest) == Some((ns, rest))
    decreases ns, 0
  {
    var evs := ChildrenEvents(ns) + [EndElement] + rest;
    if |ns| == 0 {
      assert evs == [EndElement] + rest;
      assert evs[1..] == rest;
    } else {
      var tail := ChildrenEvents(ns[1..]) + [EndElement] + rest;
      assert evs == Events(ns[0]) + tail;
      NodeEventsStart(ns[0]);
      ParseNodeOfEvents(ns[0], tail);
      ParseChildrenOfEvents(ns[1..], rest);
      assert [ns[0]] + ns[1..] == ns;
    }
  }

  /** The event stream of a tree is a complete document denoting that tree. */
  lemma DocumentOfEvents(n: Node)
    ensures Document(Events(n)) == Some(n)
  {
    ParseNodeOfEvents(n, []);
    assert Events(n) + [] == Events(n);
  }

  /** Different trees are written as different event streams. */
  lemma EventsInjective(m: Node, n: Node)
    requires Events(m) == Events(n)
    ensures m == n
  {
    DocumentOfEvents(m);
    DocumentOfEvents(n);
  }

  /**
   * `System.Xml.XmlWriter`, reduced to the calls the builder makes: the
   * events written so far, and the names of the elements still open.
   */
  class XmlWriter {
    var events: seq<XmlEvent>
    var open: seq<string>

    constructor ()
      ensures events == [] && open == []
    {
      events := [];
      open := [];
    }

    /** Attributes may only be written while a start tag is still open. */
    predicate InStartTag()
      reads this
    {
      |events| > 0 && (events[|events| - 1].StartElement? || events[|events| - 1].Attribute?)
    }

    method WriteStartElement(name: string)
      modifies this
      ensures events == old(events) + [StartElement(name)]
      ensures open == old(open) + [name]
    {
      events := events + [StartElement(name)];
      open := open + [name];
    }

    method WriteAttributeString(name: string, value: string)
      requires InStartTag()
      modifies this
      ensures events == old(events) + [Attribute(name, value)]
      ensures open == old(open)
    {
      events := events + [Attribute(name, value)];
    }

    method WriteString(text: string)
      modifies this
      ensures events == old(events) + [Characters(text)]
      ensures open == old(open)
    {
      events := events + [Characters(text)];
    }

    method WriteEndElement()
      requires |open| > 0
      modifies this
      ensures events == old(events) + [EndElement]
      ensures open == old(open)[..|old(open)| - 1]
    {
      events := events + [EndElement];
      open := open[..|open| - 1];
    }

    /**
     * An element holding nothing but `value` as its text; for an empty
     * `value` no text is written and the element is empty.
     */
    method WriteElementString(name: string, value: string)
      modifies this
      ensures events == old(events) + Events(ElementString(name, value))
      ensures open == old(open)
    {
      WriteStartElement(name);
      if |value| > 0 {
        WriteString(value);
        assert ChildrenEvents([Text(value)]) == [Characters(value)];
      }
      WriteEndElement();
    }
  }
}
