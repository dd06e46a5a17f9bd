/** The embedded status document (the RapidControlStatus XML carried inside each
    device record), seen through System.Xml.Linq: a tree of elements and text.
    Parsing and printing XML text are left abstract: a string field holding a
    document is given by what XDocument.Parse makes of it. */
module XmlDocument {
  import opened Options

  /** The one element name the pipeline reads and writes. */
  const ModuleStateName: string := "ModuleState"

  /** An XML node: an element with its child nodes, or a text node. */
  datatype Node = Element(name: string, children: seq<Node>) | Text(value: string)

  /** The root of a parsed document is always an element. */
  type Root = n: Node | n.Element? witness Element("Root", [])

  /** A string that is meant to hold an XML document, as XDocument.Parse sees
      it: the empty string, text that throws an XmlException (with the
      exception's message), or a document with its root element. A null string
      is an Option.None around this type. */
  datatype XmlText = Empty | Malformed(reason: string) | Parsed(root: Root)

  /** `n.Descendants("ModuleState")` of XContainer for a document whose root is
      `n`: every element named ModuleState at or below `n`, in document order
      (the root itself comes first, then its subtrees left to right). */
  function ModuleStates(n: Node): (r: seq<Node>)
    ensures forall i :: 0 <= i < |r| ==> r[i].Element? && r[i].name == ModuleStateName
  {
    if n.Text? then []
    else (if n.name == ModuleStateName then [n] else []) + ModuleStatesIn(n.children)
  }

  /** ModuleStates over a list of sibling nodes, left to right. */
  function ModuleStatesIn(ns: seq<Node>): (r: seq<Node>)
    ensures forall i :: 0 <= i < |r| ==> r[i].Element? && r[i].name == ModuleStateName
  {
    if ns == [] then [] else ModuleStates(ns[0]) + ModuleStatesIn(ns[1..])
  }

  /** `Descendants("ModuleState").Any()`. */
  predicate HasModuleState(n: Node) {
    |ModuleStates(n)| > 0
  }

  /** `Descendants("ModuleState").FirstOrDefault()`. */
  function FirstModuleState(n: Node): Option<Node> {
    if HasModuleState(n) then Some(ModuleStates(n)[0]) else None
  }

  /** `XElement.Value`: the concatenated text of all text nodes below a node. */
  function TextValue(n: Node): string {
    if n.Text? then n.value else TextValueIn(n.children)
  }

  function TextValueIn(ns: seq<Node>): string {
    if ns == [] then "" else TextValue(ns[0]) + TextValueIn(ns[1..])
  }

  /** Replaces the content of the first ModuleState element (document order)
      by `content`; a tree without one is returned unchanged. */
  function ReplaceFirstModuleState(n: Node, content: seq<Node>): Node {
    if n.Text? then n
    else if n.name == ModuleStateName then Element(n.name, content)
    else Element(n.name, ReplaceFirstModuleStateIn(n.children, content))
  }

  function ReplaceFirstModuleStateIn(ns: seq<Node>, content: seq<Node>): seq<Node> {
    if ns == [] then []
    else if HasModuleState(ns[0]) then [ReplaceFirstModuleState(ns[0], content)] + ns[1..]
    else [ns[0]] + ReplaceFirstModuleStateIn(ns[1..], content)
  }

  /** `moduleStateElement.Value = value` on the first ModuleState descendant:
      setting XElement.Value replaces all child nodes of that element by one
      text node. */
  function SetFirstModuleState(n: Node, value: string): Node {
    ReplaceFirstModuleState(n, [Text(value)])
  }

  /** `doc.Root?.Element("ModuleState")?.Value`: the text of the first DIRECT
      child of the root named ModuleState, or null when there is none. */
  function ChildModuleState(root: Root): (r: Option<string>)
    ensures r.Some? ==> HasModuleState(root)
  {
    ChildModuleStateIn(root.children)
  }

  function ChildModuleStateIn(ns: seq<Node>): (r: Option<string>)
    ensures r.Some? ==> |ModuleStatesIn(ns)| > 0
  {
    if ns == [] then None
    else if ns[0].Element? && ns[0].name == ModuleStateName then Some(TextValue(ns[0]))
    else ChildModuleStateIn(ns[1..])
  }

  // ---------------------------------------------------------------------------
  // Properties of the rewrite of the first ModuleState element.

  lemma {:induction false} ModuleStatesInHead(ns: seq<Node>)
    requires ns != []
    ensures HasModuleState(ns[0]) ==> |ModuleStatesIn(ns)| > 0 && ModuleStatesIn(ns)[0] == ModuleStates(ns[0])[0]
    ensures !HasModuleState(ns[0]) ==> ModuleStatesIn(ns) == ModuleStatesIn(ns[1..])
  {
  }

  /** The rewrite keeps the element names on the path to it, so a tree has a
      ModuleState after the rewrite exactly when it had one before. */
  lemma {:induction false} ReplaceKeepsPresence(n: Node, content: seq<Node>)
    ensures HasModuleState(ReplaceFirstModuleState(n, content)) == HasModuleState(n)
    ensures ReplaceFirstModuleState(n, content).Element? == n.Element?
    ensures n.Element? ==> ReplaceFirstModuleState(n, content).name == n.name
  {
    if n.Element? && n.name != ModuleStateName {
      ReplaceInKeepsPresence(n.children, content);
    }
  }

  lemma {:induction false} ReplaceInKeepsPresence(ns: seq<Node>, content: seq<Node>)
    ensures (|ModuleStatesIn(ReplaceFirstModuleStateIn(ns, content))| > 0) == (|ModuleStatesIn(ns)| > 0)
    ensures |ReplaceFirstModuleStateIn(ns, content)| == |ns|
  {
    if ns != [] {
      var r := ReplaceFirstModuleStateIn(ns, content);
      if HasModuleState(ns[0]) {
        ReplaceKeepsPresence(ns[0], content);
        assert r[0] == ReplaceFirstModuleState(ns[0], content);
        ModuleStatesInHead(r);
        ModuleStatesInHead(ns);
      } else {
        ReplaceInKeepsPresence(ns[1..], content);
        assert r[0] == ns[0] && r[1..] == ReplaceFirstModuleStateIn(ns[1..], content);
        ModuleStatesInHead(r);
        ModuleStatesInHead(ns);
      }
    }
  }

  /** Without a ModuleState anywhere, the document is left as it is. */
  lemma {:induction false} ReplaceWithoutStateIsIdentity(n: Node, content: seq<Node>)
    requires !HasModuleState(n)
    ensures ReplaceFirstModuleState(n, content) == n
  {
    if n.Element? {
      ReplaceInWithoutStateIsIdentity(n.children, content);
    }
  }

  lemma {:induction false} ReplaceInWithoutStateIsIdentity(ns: seq<Node>, content: seq<Node>)
    requires |ModuleStatesIn(ns)| == 0
    ensures ReplaceFirstModuleStateIn(ns, content) == ns
  {
    if ns != [] {
      ModuleStatesInHead(ns);
      ReplaceInWithoutStateIsIdentity(ns[1..], content);
    }
  }

  /** After the rewrite, the first ModuleState in document order is an element
      named ModuleState whose content is exactly `content`. */
  lemma {:induction false} ReplaceSetsFirst(n: Node, content: seq<Node>)
    requires HasModuleState(n)
    ensures FirstModuleState(ReplaceFirstModuleState(n, content)) == Some(Element(ModuleStateName, content))
  {
    ReplaceKeepsPresence(n, content);
    if n.name != ModuleStateName {
      ReplaceInSetsFirst(n.children, content);
    }
  }

  lemma {:induction false} ReplaceInSetsFirst(ns: seq<Node>, content: seq<Node>)
    requires |ModuleStatesIn(ns)| > 0
    ensures |ModuleStatesIn(ReplaceFirstModuleStateIn(ns, content))| > 0
    ensures ModuleStatesIn(ReplaceFirstModuleStateIn(ns, content))[0] == Element(ModuleStateName, content)
  {
    var r := ReplaceFirstModuleStateIn(ns, content);
    ModuleStatesInHead(ns);
    if HasModuleState(ns[0]) {
      ReplaceSetsFirst(ns[0], content);
      assert r[0] == ReplaceFirstModuleState(ns[0], content);
      ModuleStatesInHead(r);
    } else {
      ReplaceInSetsFirst(ns[1..], content);
      assert r[0] == ns[0] && r[1..] == ReplaceFirstModuleStateIn(ns[1..], content);
      ModuleStatesInHead(r);
    }
  }

  /** Only the first ModuleState changes: putting its old content back restores
      the original document exactly, so every other element, text node and
      name is kept. */
  lemma {:induction false} ReplaceIsUndone(n: Node, content: seq<Node>)
    requires HasModuleState(n)
    ensures ReplaceFirstModuleState(ReplaceFirstModuleState(n, content), FirstModuleState(n).value.children) == n
    decreases n, 0
  {
    if n.name != ModuleStateName {
      FirstOfElement(n);
      ReplaceInIsUndone(n.children, content);
    }
  }

  lemma {:induction false} FirstOfElement(n: Node)
    requires n.Element? && n.name != ModuleStateName
    ensures ModuleStates(n) == ModuleStatesIn(n.children)
  {
  }

  lemma {:induction false} ReplaceInIsUndone(ns: seq<Node>, content: seq<Node>)
    requires |ModuleStatesIn(ns)| > 0
    ensures ReplaceFirstModuleStateIn(ReplaceFirstModuleStateIn(ns, content), ModuleStatesIn(ns)[0].children) == ns
    decreases ns, 1
  {
    ModuleStatesInHead(ns);
    if HasModuleState(ns[0]) {
      ReplaceInIsUndoneAtHead(ns, content);
    } else {
      ReplaceInIsUndone(ns[1..], content);
      ReplaceInIsUndoneInTail(ns, content);
    }
  }

  lemma {:induction false} ReplaceInIsUndoneAtHead(ns: seq<Node>, content: seq<Node>)
    requires ns != [] && HasModuleState(ns[0])
    ensures |ModuleStatesIn(ns)| > 0
    ensures ReplaceFirstModuleStateIn(ReplaceFirstModuleStateIn(ns, content), ModuleStatesIn(ns)[0].children) == ns
    decreases ns, 0
  {
    ModuleStatesInHead(ns);
    var old0 := ModuleStatesIn(ns)[0].children;
    assert old0 == FirstModuleState(ns[0]).value.children;
    var head := ReplaceFirstModuleState(ns[0], content);
    var r := ReplaceFirstModuleStateIn(ns, content);
    assert r == [head] + ns[1..];
    ReplaceKeepsPresence(ns[0], content);
    ReplaceIsUndone(ns[0], content);
    assert r[0] == head && r[1..] == ns[1..];
    assert ReplaceFirstModuleStateIn(r, old0) == [ReplaceFirstModuleState(head, old0)] + ns[1..];
  }

  lemma {:induction false} ReplaceInIsUndoneInTail(ns: seq<Node>, content: seq<Node>)
    requires ns != [] && !HasModuleState(ns[0]) && |ModuleStatesIn(ns[1..])| > 0
    requires ReplaceFirstModuleStateIn(ReplaceFirstModuleStateIn(ns[1..], content), ModuleStatesIn(ns[1..])[0].children) == ns[1..]
    ensures |ModuleStatesIn(ns)| > 0
    ensures ReplaceFirstModuleStateIn(ReplaceFirstModuleStateIn(ns, content), ModuleStatesIn(ns)[0].children) == ns
  {
    ModuleStatesInHead(ns);
    var old0 := ModuleStatesIn(ns)[0].children;
    var tail := ReplaceFirstModuleStateIn(ns[1..], content);
    var r := ReplaceFirstModuleStateIn(ns, content);
    assert r == [ns[0]] + tail;
    assert r[0] == ns[0] && r[1..] == tail;
    assert ReplaceFirstModuleStateIn(r, old0) == [ns[0]] + ReplaceFirstModuleStateIn(tail, old0);
  }

  /** The first child of the root holding a ModuleState at any depth is itself
      a ModuleState element, and the root is not one: the element the
      producer rewrites is the one the consumer reads. */
  predicate FirstStateIsChild(root: Root) {
    root.name != ModuleStateName && FirstStateIsChildIn(root.children)
  }

  predicate FirstStateIsChildIn(ns: seq<Node>) {
    ns != [] &&
    if HasModuleState(ns[0]) then ns[0].Element? && ns[0].name == ModuleStateName
    else FirstStateIsChildIn(ns[1..])
  }

  /** What the producer writes and what the consumer reads for a document. The
      producer rewrites the first ModuleState at any depth; the consumer reads
      the first direct child of the root. They meet when the first
      ModuleState in document order is itself a direct child of a root that is
      not named ModuleState: then the consumer reads back the written value. */
  lemma ChildReadsWrittenState(root: Root, value: string)
    requires FirstStateIsChild(root)
    ensures SetFirstModuleState(root, value).Element?
    ensures ChildModuleState(SetFirstModuleState(root, value)) == Some(value)
  {
    ChildReadsWrittenIn(root.children, value);
  }

  lemma {:induction false} ChildReadsWrittenIn(ns: seq<Node>, value: string)
    requires FirstStateIsChildIn(ns)
    ensures ChildModuleStateIn(ReplaceFirstModuleStateIn(ns, [Text(value)])) == Some(value)
  {
    var r := ReplaceFirstModuleStateIn(ns, [Text(value)]);
    if HasModuleState(ns[0]) {
      assert r == [ReplaceFirstModuleState(ns[0], [Text(value)])] + ns[1..];
      assert r[0] == Element(ModuleStateName, [Text(value)]);
      assert TextValueIn([Text(value)]) == value + TextValueIn([]);
      assert TextValue(r[0]) == value;
    } else {
      ChildReadsWrittenIn(ns[1..], value);
      assert r[1..] == ReplaceFirstModuleStateIn(ns[1..], [Text(value)]);
      assert !(ns[0].Element? && ns[0].name == ModuleStateName);
    }
  }

  /** Below a root not named ModuleState, the rewrite never gives the root a
      ModuleState child it lacked, nor takes one away: a document the
      consumer skips before the rewrite it skips after it. */
  lemma RewriteKeepsChildPresence(root: Root, value: string)
    requires root.name != ModuleStateName
    ensures ChildModuleState(SetFirstModuleState(root, value)).None? == ChildModuleState(root).None?
  {
    RewriteInKeepsChildPresence(root.children, [Text(value)]);
  }

  lemma {:induction false} RewriteInKeepsChildPresence(ns: seq<Node>, content: seq<Node>)
    ensures ChildModuleStateIn(ReplaceFirstModuleStateIn(ns, content)).None? == ChildModuleStateIn(ns).None?
  {
    if ns != [] {
      var r := ReplaceFirstModuleStateIn(ns, content);
      ReplaceKeepsPresence(ns[0], content);
      if HasModuleState(ns[0]) {
        assert r[1..] == ns[1..];
      } else {
        RewriteInKeepsChildPresence(ns[1..], content);
        assert r[1..] == ReplaceFirstModuleStateIn(ns[1..], content);
      }
    }
  }

  // ---------------------------------------------------------------------------
  // Documents on which the two kinds of lookup disagree.

  /** A ModuleState nested below a child of the root satisfies the
      any-depth check, but the direct-child lookup finds nothing. */
  lemma NestedStateIsNotAChild()
    ensures var doc := Element("Status", [Element("Device", [Element(ModuleStateName, [Text("Run")])])]);
            HasModuleState(doc) && ChildModuleState(doc) == None
  {
    var inner := Element(ModuleStateName, [Text("Run")]);
    var dev := Element("Device", [inner]);
    var doc := Element("Status", [dev]);
    assert ModuleStates(inner) == [inner] + ModuleStatesIn([Text("Run")]);
    assert ModuleStatesIn([inner]) == ModuleStates(inner) + ModuleStatesIn([]);
    assert ModuleStates(dev) == ModuleStatesIn([inner]);
    assert ModuleStatesIn([dev]) == ModuleStates(dev) + ModuleStatesIn([]);
    assert ModuleStates(doc) == ModuleStatesIn([dev]);
    assert ChildModuleStateIn([dev]) == ChildModuleStateIn([]);
  }

  /** A root that is itself named ModuleState satisfies the any-depth check
      (Descendants of a document include its root), but has no ModuleState
      child. */
  lemma RootStateIsNotAChild()
    ensures var doc := Element(ModuleStateName, [Text("Run")]);
            HasModuleState(doc) && ChildModuleState(doc) == None
  {
    var doc := Element(ModuleStateName, [Text("Run")]);
    assert ModuleStates(doc) == [doc] + ModuleStatesIn([Text("Run")]);
    assert ChildModuleStateIn([Text("Run")]) == ChildModuleStateIn([]);
  }

  /** When a nested ModuleState comes before a direct one, the producer
      rewrites the nested one and the consumer still reads the untouched
      direct child: the stored value is the old one, whatever was drawn. */
  lemma StaleChildAfterRewrite(value: string)
    ensures var doc := Element("Status", [Element("Device", [Element(ModuleStateName, [Text("A")])]),
                                          Element(ModuleStateName, [Text("B")])]);
            ChildModuleState(SetFirstModuleState(doc, value)) == Some("B")
  {
    var inner := Element(ModuleStateName, [Text("A")]);
    var dev := Element("Device", [inner]);
    var direct := Element(ModuleStateName, [Text("B")]);
    assert ModuleStates(inner) == [inner] + ModuleStatesIn([Text("A")]);
    assert ModuleStatesIn([inner]) == ModuleStates(inner) + ModuleStatesIn([]);
    assert HasModuleState(dev);
    var kids := ReplaceFirstModuleStateIn([dev, direct], [Text(value)]);
    assert kids == [ReplaceFirstModuleState(dev, [Text(value)])] + [direct];
    assert kids[1..] == [direct];
    assert SetFirstModuleState(Element("Status", [dev, direct]), value) == Element("Status", kids);
    assert [Text("B")][1..] == [] && TextValueIn([]) == "";
    assert TextValue(direct) == "B";
    assert ChildModuleStateIn(kids) == ChildModuleStateIn([direct]) == Some("B");
  }
}
