/**
 * Writing a tree back out as markup, and the proof that the parser reads
 * every such text back as the same tree. This holds for the trees the
 * parser can produce (`Grammar.IsParseTree`), provided no attribute value
 * holds a '"' and no two text nodes are siblings side by side. Text next to
 * text would be read back as one node.
 */
module RoundTrip {
  import opened Wrappers
  import opened Dom
  import opened Grammar

  /** `"value"`: a value between double quotes. */
  function Quoted(value: string): string {
    "\"" + value + "\""
  }

  /** ` name="value"`: one attribute, with the space that precedes it. */
  function AttributeText(attribute: (string, string)): string {
    " " + attribute.0 + "=" + Quoted(attribute.1)
  }

  function AttributesText(pairs: seq<(string, string)>): string {
    if pairs == [] then "" else AttributeText(pairs[0]) + AttributesText(pairs[1..])
  }

  /** The attributes of a map in some order, each name once, with its value. */
  ghost function Pairs(attributes: AttributeMap): (pairs: seq<(string, string)>)
    ensures ToMap(pairs) == attributes
    ensures forall i | 0 <= i < |pairs| :: pairs[i].0 in attributes && pairs[i].1 == attributes[pairs[i].0]
    decreases attributes.Keys
  {
    if attributes == map[] then []
    else
      var name :| name in attributes;
      var rest := attributes - {name};
      var init := Pairs(rest);
      var pairs := init + [(name, attributes[name])];
      assert pairs[..|pairs| - 1] == init;
      assert rest[name := attributes[name]] == attributes;
      pairs
  }

  function OpenTag(name: string, pairs: seq<(string, string)>): string {
    "<" + name + AttributesText(pairs) + ">"
  }

  function CloseTag(name: string): string {
    "</" + name + ">"
  }

  /** A tree as markup: text as it is, an element as its tags around its children. */
  ghost function Serialize(n: Node): string
    decreases n
  {
    match n.nodeType
    case Text(content) => content
    case Element(e) =>
      OpenTag(e.tagName, Pairs(e.attributes)) + SerializeForest(n.children) + CloseTag(e.tagName)
  }

  ghost function SerializeForest(nodes: seq<Node>): string
    decreases nodes
  {
    if nodes == [] then "" else Serialize(nodes[0]) + SerializeForest(nodes[1..])
  }

  predicate QuoteFree(attributes: AttributeMap) {
    forall name | name in attributes :: '"' !in attributes[name]
  }

  predicate NoAdjacentText(nodes: seq<Node>) {
    forall i | 0 <= i < |nodes| - 1 :: !(nodes[i].nodeType.Text? && nodes[i + 1].nodeType.Text?)
  }

  /** A parse tree whose markup reads back as itself. */
  ghost predicate Serializable(n: Node)
    decreases n
  {
    IsParseTree(n) &&
    (n.nodeType.Element? ==>
      QuoteFree(n.nodeType.element.attributes) && NoAdjacentText(n.children) &&
      forall i | 0 <= i < |n.children| :: Serializable(n.children[i]))
  }

  ghost predicate SerializableForest(nodes: seq<Node>) {
    NoAdjacentText(nodes) && forall i | 0 <= i < |nodes| :: Serializable(nodes[i]) && Trimmed(nodes[i])
  }

  /** A scan over text whose chars all pass the test, followed by one that fails it or the end, ends after that text. */
  lemma ScanOver(data: string, pos: nat, s: string, test: char -> bool)
    requires pos <= |data| && StartsWith(data, pos, s)
    requires forall i | 0 <= i < |s| :: test(s[i])
    requires pos + |s| == |data| || !test(data[pos + |s|])
    ensures ScanWhile(data, pos, test) == pos + |s|
  {
    forall i | pos <= i < pos + |s|
      ensures test(data[i])
    {
      assert data[i] == data[pos..pos + |s|][i - pos] == s[i - pos];
    }
    ScanWhileUnique(data, pos, test, pos + |s|);
  }

  /** The char at the start of text that begins with `s`. */
  lemma FirstChar(data: string, pos: nat, s: string)
    requires pos <= |data| && StartsWith(data, pos, s) && s != []
    ensures pos < |data| && data[pos] == s[0]
  {
    assert data[pos] == data[pos..pos + |s|][0];
  }

  /** A quote-free value between double quotes is read back as itself. */
  lemma QuotedParses(data: string, pos: nat, value: string)
    requires pos <= |data| && StartsWith(data, pos, Quoted(value)) && '"' !in value
    ensures ParseAttributeValue(data, pos) == Ok(value, pos + |value| + 2)
  {
    StartsWithSplit(data, pos, "\"" + value, "\"");
    StartsWithSplit(data, pos, "\"", value);
    FirstChar(data, pos, "\"");
    FirstChar(data, pos + 1 + |value|, "\"");
    ScanOver(data, pos + 1, value, Unquoted('"'));
  }

  /** A tag name followed by a char that cannot extend it is read as exactly that name. */
  lemma NameParses(data: string, pos: nat, name: string)
    requires pos <= |data| && StartsWith(data, pos, name) && IsTagName(name)
    requires pos + |name| < |data| && !IsTagChar(data[pos + |name|])
    ensures TagName(data, pos) == Ok(name, pos + |name|)
  {
    ScanOver(data, pos, name, IsTagChar);
  }

  /** ` name="value"` is skipped over its space and read back as the same pair. */
  lemma AttributeParses(data: string, pos: nat, attribute: (string, string))
    requires pos <= |data| && StartsWith(data, pos, AttributeText(attribute))
    requires IsTagName(attribute.0) && '"' !in attribute.1
    ensures SkipWhitespace(data, pos) == pos + 1 && pos + 1 < |data| && data[pos + 1] != '>'
    ensures ParseAttribute(data, pos + 1) == Ok(attribute, pos + |AttributeText(attribute)|)
  {
    var (name, value) := attribute;
    StartsWithSplit(data, pos, " " + name + "=", Quoted(value));
    StartsWithSplit(data, pos, " " + name, "=");
    StartsWithSplit(data, pos, " ", name);
    FirstChar(data, pos, " ");
    FirstChar(data, pos + 1 + |name|, "=");
    if name != [] {
      FirstChar(data, pos + 1, name);
      assert name[0] in name;
    }
    ScanOver(data, pos, " ", IsWhitespace);
    NameParses(data, pos + 1, name);
    QuotedParses(data, pos + 2 + |name|, value);
  }

  /** Attributes that can be written and read back: letters-and-digits names, quote-free values. */
  predicate WritablePairs(pairs: seq<(string, string)>) {
    AreTagNamed(pairs) && forall i | 0 <= i < |pairs| :: '"' !in pairs[i].1
  }

  /** The first pair and the rest of writable pairs are writable. */
  lemma WritableTail(pairs: seq<(string, string)>)
    requires pairs != [] && WritablePairs(pairs)
    ensures WritablePairs(pairs[1..]) && IsTagName(pairs[0].0) && '"' !in pairs[0].1
  {
    var rest := pairs[1..];
    forall i | 0 <= i < |rest|
      ensures IsTagName(rest[i].0) && '"' !in rest[i].1
    {
      assert rest[i] == pairs[i + 1];
    }
  }

  /** Attributes followed by '>' are read as the same list, in order. */
  lemma {:induction false} AttributesParse(data: string, pos: nat, pairs: seq<(string, string)>)
    requires pos <= |data| && StartsWith(data, pos, AttributesText(pairs)) && WritablePairs(pairs)
    requires At(data, pos + |AttributesText(pairs)|, '>')
    ensures ParseAttributeList(data, pos) == Ok(pairs, pos + |AttributesText(pairs)|)
    decreases pairs
  {
    if pairs == [] {
      ScanOver(data, pos, "", IsWhitespace);
      AttributeListEnd(data, pos);
    } else {
      var after := pos + |AttributeText(pairs[0])|;
      var end := pos + |AttributesText(pairs)|;
      AttributesTail(data, pos, pairs, after, end);
      AttributeParses(data, pos, pairs[0]);
      AttributesParse(data, after, pairs[1..]);
      AttributeListStep(data, pos, pairs, after, end);
    }
  }

  /** Where the first attribute and the rest lie in written attributes. */
  lemma AttributesTail(data: string, pos: nat, pairs: seq<(string, string)>, after: nat, end: nat)
    requires pos <= |data| && StartsWith(data, pos, AttributesText(pairs)) && WritablePairs(pairs) && pairs != []
    requires after == pos + |AttributeText(pairs[0])| && end == pos + |AttributesText(pairs)|
    ensures StartsWith(data, pos, AttributeText(pairs[0])) && IsTagName(pairs[0].0) && '"' !in pairs[0].1
    ensures after <= |data| && StartsWith(data, after, AttributesText(pairs[1..])) && WritablePairs(pairs[1..])
    ensures end == after + |AttributesText(pairs[1..])|
  {
    StartsWithSplit(data, pos, AttributeText(pairs[0]), AttributesText(pairs[1..]));
    WritableTail(pairs);
  }

  /** One step of each rule, from the results of the steps inside it. */
  lemma OpeningTagStep(data: string, pos: nat, name: string, nameEnd: nat, attributes: AttributeMap, tagEnd: nat)
    requires pos + 1 <= |data| && At(data, pos, '<')
    requires TagName(data, pos + 1) == Ok(name, nameEnd)
    requires ParseAttributes(data, nameEnd) == Ok(attributes, tagEnd)
    ensures ParseOpeningTag(data, pos) == Ok((name, attributes), tagEnd + 1)
  {
  }

  lemma AttributesStep(data: string, pos: nat, pairs: seq<(string, string)>, end: nat)
    requires pos <= |data| && ParseAttributeList(data, pos) == Ok(pairs, end)
    ensures ParseAttributes(data, pos) == Ok(ToMap(pairs), end)
  {
  }

  lemma AttributeListEnd(data: string, pos: nat)
    requires At(data, pos, '>') && SkipWhitespace(data, pos) == pos
    ensures ParseAttributeList(data, pos) == Ok([], pos)
  {
  }

  lemma AttributeListStep(data: string, pos: nat, pairs: seq<(string, string)>, after: nat, end: nat)
    requires pos <= |data| && SkipWhitespace(data, pos) == pos + 1 && pos + 1 < |data| && data[pos + 1] != '>'
    requires pairs != [] && ParseAttribute(data, pos + 1) == Ok(pairs[0], after)
    requires ParseAttributeList(data, after) == Ok(pairs[1..], end)
    ensures ParseAttributeList(data, pos) == Ok(pairs, end)
  {
    assert [pairs[0]] + pairs[1..] == pairs;
  }

  lemma NodesStep(data: string, pos: nat, nodes: seq<Node>, after: nat, end: nat)
    requires pos < |data| && SkipWhitespace(data, pos) == pos && !StartsWith(data, pos, "</")
    requires nodes != [] && ParseNode(data, pos) == Ok(nodes[0], after)
    requires ParseNodes(data, after) == Ok(nodes[1..], end)
    ensures ParseNodes(data, pos) == Ok(nodes, end)
  {
    assert [nodes[0]] + nodes[1..] == nodes;
  }

  lemma FirstAttributeChar(pairs: seq<(string, string)>)
    requires pairs != []
    ensures AttributesText(pairs) != [] && AttributesText(pairs)[0] == ' '
  {
  }

  /** The second char of an opening tag is never '/', so it never reads as a closing tag. */
  lemma OpenTagSecondChar(name: string, pairs: seq<(string, string)>)
    requires IsTagName(name)
    ensures |OpenTag(name, pairs)| >= 2 && OpenTag(name, pairs)[1] != '/'
  {
    var tag := OpenTag(name, pairs);
    if name != [] {
      assert tag[1] == name[0] && name[0] in name;
    } else if pairs != [] {
      FirstAttributeChar(pairs);
      assert tag[1] == AttributesText(pairs)[0];
    } else {
      assert tag == "<>";
    }
  }

  /** Where the parts of a written opening tag lie. */
  lemma OpenTagParts(data: string, pos: nat, name: string, pairs: seq<(string, string)>)
    requires pos <= |data| && StartsWith(data, pos, OpenTag(name, pairs))
    ensures var afterName := pos + 1 + |name|;
      var text := AttributesText(pairs);
      At(data, pos, '<') && StartsWith(data, pos + 1, name) &&
      afterName + |text| <= |data| && StartsWith(data, afterName, text) &&
      At(data, afterName + |text|, '>') &&
      afterName < |data| && (data[afterName] == ' ' || data[afterName] == '>') &&
      |OpenTag(name, pairs)| == afterName + |text| + 1 - pos
  {
    var text := AttributesText(pairs);
    var afterName := pos + 1 + |name|;
    StartsWithSplit(data, pos, "<" + name + text, ">");
    StartsWithSplit(data, pos, "<" + name, text);
    StartsWithSplit(data, pos, "<", name);
    FirstChar(data, pos, "<");
    FirstChar(data, afterName + |text|, ">");
    if pairs != [] {
      FirstAttributeChar(pairs);
      FirstChar(data, afterName, text);
    }
  }

  /** The name of a written opening tag is read back as itself. */
  lemma OpenTagName(data: string, pos: nat, name: string, pairs: seq<(string, string)>)
    requires pos <= |data| && StartsWith(data, pos, OpenTag(name, pairs)) && IsTagName(name)
    ensures var afterName := pos + 1 + |name|;
      var text := AttributesText(pairs);
      At(data, pos, '<') && TagName(data, pos + 1) == Ok(name, afterName) &&
      afterName + |text| <= |data| && StartsWith(data, afterName, text) &&
      At(data, afterName + |text|, '>') &&
      |OpenTag(name, pairs)| == afterName + |text| + 1 - pos
  {
    OpenTagParts(data, pos, name, pairs);
    NameParses(data, pos + 1, name);
  }

  /** The attributes of a map, listed by `Pairs`, have letters-and-digits names and quote-free values. */
  lemma PairsWritable(attributes: AttributeMap)
    requires AreTagNames(attributes) && QuoteFree(attributes)
    ensures WritablePairs(Pairs(attributes))
  {
    var pairs := Pairs(attributes);
    forall i | 0 <= i < |pairs|
      ensures IsTagName(pairs[i].0) && '"' !in pairs[i].1
    {
      assert pairs[i].0 in attributes;
    }
  }

  /** An opening tag written out for a map is read back as that name and that map. */
  lemma OpeningTagParses(data: string, pos: nat, name: string, attributes: AttributeMap, tagEnd: nat)
    requires pos <= |data| && StartsWith(data, pos, OpenTag(name, Pairs(attributes)))
    requires IsTagName(name) && AreTagNames(attributes) && QuoteFree(attributes)
    requires tagEnd == pos + |OpenTag(name, Pairs(attributes))|
    ensures ParseOpeningTag(data, pos) == Ok((name, attributes), tagEnd)
  {
    var pairs := Pairs(attributes);
    var afterName := pos + 1 + |name|;
    var attributesEnd := afterName + |AttributesText(pairs)|;
    OpenTagName(data, pos, name, pairs);
    PairsWritable(attributes);
    AttributesParse(data, afterName, pairs);
    AttributesStep(data, afterName, pairs, attributesEnd);
    OpeningTagStep(data, pos, name, afterName, attributes, attributesEnd);
  }

  /** The first char of a written node: '<' exactly for an element, and never whitespace or "</". */
  lemma NodeStart(data: string, pos: nat, n: Node)
    requires pos <= |data| && StartsWith(data, pos, Serialize(n))
    requires Serializable(n) && Trimmed(n)
    ensures pos < |data| && !IsWhitespace(data[pos]) && !StartsWith(data, pos, "</")
    ensures n.nodeType.Element? <==> data[pos] == '<'
  {
    if n.nodeType.Text? {
      TextStart(data, pos, n);
    } else {
      ElementStart(data, pos, n);
    }
  }

  /** Written text starts with its own first char, which is neither '<' nor whitespace. */
  lemma TextStart(data: string, pos: nat, n: Node)
    requires pos <= |data| && StartsWith(data, pos, Serialize(n)) && n.nodeType.Text?
    requires Serializable(n) && Trimmed(n)
    ensures pos < |data| && data[pos] != '<' && !IsWhitespace(data[pos]) && !StartsWith(data, pos, "</")
  {
    var content := n.nodeType.content;
    FirstChar(data, pos, content);
    assert content[0] in content;
    if StartsWith(data, pos, "</") {
      FirstChar(data, pos, "</");
    }
  }

  /** A written element starts with '<' and never with "</". */
  lemma ElementStart(data: string, pos: nat, n: Node)
    requires pos <= |data| && StartsWith(data, pos, Serialize(n)) && n.nodeType.Element?
    requires IsTagName(n.nodeType.element.tagName)
    ensures pos < |data| && data[pos] == '<' && !StartsWith(data, pos, "</")
  {
    var e := n.nodeType.element;
    var tag := OpenTag(e.tagName, Pairs(e.attributes));
    StartsWithSplit(data, pos, tag + SerializeForest(n.children), CloseTag(e.tagName));
    StartsWithSplit(data, pos, tag, SerializeForest(n.children));
    OpenTagSecondChar(e.tagName, Pairs(e.attributes));
    FirstChar(data, pos, tag);
    assert data[pos + 1] == data[pos..pos + |tag|][1] == tag[1];
  }

  /** Text followed by '<' or the end of the input is read back as a text node of that content. */
  lemma TextParses(data: string, pos: nat, content: string)
    requires pos <= |data| && StartsWith(data, pos, content)
    requires content != [] && IsTextContent(content)
    requires pos + |content| == |data| || data[pos + |content|] == '<'
    ensures ParseNode(data, pos) == Ok(TextNode(content), pos + |content|)
  {
    FirstChar(data, pos, content);
    assert content[0] in content;
    forall i | 0 <= i < |content|
      ensures IsTextChar(content[i])
    {
      assert content[i] in content;
    }
    ScanOver(data, pos, content, IsTextChar);
  }

  /** Where the parts of a written element lie. */
  lemma ElementParts(data: string, pos: nat, n: Node, tagEnd: nat, childrenEnd: nat)
    requires pos <= |data| && StartsWith(data, pos, Serialize(n)) && n.nodeType.Element?
    requires tagEnd == pos + |OpenTag(n.nodeType.element.tagName, Pairs(n.nodeType.element.attributes))|
    requires childrenEnd == tagEnd + |SerializeForest(n.children)|
    ensures StartsWith(data, pos, OpenTag(n.nodeType.element.tagName, Pairs(n.nodeType.element.attributes)))
    ensures tagEnd <= |data| && StartsWith(data, tagEnd, SerializeForest(n.children))
    ensures childrenEnd <= |data| && StartsWith(data, childrenEnd, "</" + n.nodeType.element.tagName + ">")
    ensures StartsWith(data, childrenEnd, "</")
    ensures pos + |Serialize(n)| == childrenEnd + |n.nodeType.element.tagName| + 3
  {
    var e := n.nodeType.element;
    var tag := OpenTag(e.tagName, Pairs(e.attributes));
    var inner := SerializeForest(n.children);
    StartsWithSplit(data, pos, tag + inner, CloseTag(e.tagName));
    StartsWithSplit(data, pos, tag, inner);
    StartsWithSplit(data, childrenEnd, "</" + e.tagName, ">");
    StartsWithSplit(data, childrenEnd, "</", e.tagName);
  }

  /** The children of a serializable element are serializable siblings. */
  lemma ChildrenSerializable(n: Node)
    requires Serializable(n) && n.nodeType.Element?
    ensures SerializableForest(n.children)
  {
  }

  /**
   * A written element is read back as itself, once its children are known
   * to be read back as themselves.
   */
  lemma ElementParses(data: string, pos: nat, n: Node, tagEnd: nat, childrenEnd: nat)
    requires pos <= |data| && StartsWith(data, pos, Serialize(n)) && Serializable(n) && n.nodeType.Element?
    requires tagEnd == pos + |OpenTag(n.nodeType.element.tagName, Pairs(n.nodeType.element.attributes))|
    requires tagEnd <= |data| && ParseNodes(data, tagEnd) == Ok(n.children, childrenEnd)
    requires childrenEnd == tagEnd + |SerializeForest(n.children)|
    ensures ParseNode(data, pos) == Ok(n, pos + |Serialize(n)|)
  {
    var e := n.nodeType.element;
    ElementParts(data, pos, n, tagEnd, childrenEnd);
    OpeningTagParses(data, pos, e.tagName, e.attributes, tagEnd);
    ElementFromParts(data, pos, e.tagName, e.attributes, tagEnd, n.children, childrenEnd);
  }

  /**
   * A written node is read back as itself. Text must be followed by '<' or
   * the end of the input, or the text scan would go on.
   */
  lemma {:induction false} NodeParses(data: string, pos: nat, n: Node)
    requires pos <= |data| && StartsWith(data, pos, Serialize(n)) && Serializable(n)
    requires n.nodeType.Text? ==>
      pos + |Serialize(n)| == |data| || data[pos + |Serialize(n)|] == '<'
    ensures ParseNode(data, pos) == Ok(n, pos + |Serialize(n)|)
    decreases n, 2
  {
    if n.nodeType.Text? {
      TextParses(data, pos, n.nodeType.content);
    } else {
      var tagEnd := pos + |OpenTag(n.nodeType.element.tagName, Pairs(n.nodeType.element.attributes))|;
      var childrenEnd := tagEnd + |SerializeForest(n.children)|;
      ElementParts(data, pos, n, tagEnd, childrenEnd);
      ChildrenSerializable(n);
      ForestParses(data, tagEnd, n.children);
      ElementParses(data, pos, n, tagEnd, childrenEnd);
    }
  }

  /** Where the first node and the rest of written siblings lie. */
  lemma ForestParts(data: string, pos: nat, nodes: seq<Node>, mid: nat)
    requires pos <= |data| && StartsWith(data, pos, SerializeForest(nodes)) && nodes != []
    requires mid == pos + |Serialize(nodes[0])|
    ensures StartsWith(data, pos, Serialize(nodes[0]))
    ensures mid <= |data| && StartsWith(data, mid, SerializeForest(nodes[1..]))
    ensures mid + |SerializeForest(nodes[1..])| == pos + |SerializeForest(nodes)|
  {
    StartsWithSplit(data, pos, Serialize(nodes[0]), SerializeForest(nodes[1..]));
  }

  /** The first of serializable siblings is serializable, and so are the others. */
  lemma ForestTail(nodes: seq<Node>)
    requires nodes != [] && SerializableForest(nodes)
    ensures Serializable(nodes[0]) && Trimmed(nodes[0]) && SerializableForest(nodes[1..])
    ensures nodes[0].nodeType.Text? && nodes[1..] != [] ==> nodes[1..][0].nodeType.Element?
  {
    var rest := nodes[1..];
    if |nodes| > 1 {
      assert rest[0] == nodes[1];
    }
    forall i | 0 <= i < |rest|
      ensures Serializable(rest[i]) && Trimmed(rest[i])
    {
      assert rest[i] == nodes[i + 1];
    }
    forall i | 0 <= i < |rest| - 1
      ensures !(rest[i].nodeType.Text? && rest[i + 1].nodeType.Text?)
    {
      assert rest[i] == nodes[i + 1] && rest[i + 1] == nodes[i + 2];
    }
  }

  /**
   * Written text among siblings is followed by '<' or the end of the input:
   * the next sibling is an element, or the siblings end at a closing tag.
   */
  lemma TextFollowed(data: string, mid: nat, rest: seq<Node>, end: nat)
    requires mid <= |data| && StartsWith(data, mid, SerializeForest(rest)) && SerializableForest(rest)
    requires end == mid + |SerializeForest(rest)|
    requires end == |data| || StartsWith(data, end, "</")
    requires rest != [] ==> rest[0].nodeType.Element?
    ensures mid == |data| || data[mid] == '<'
  {
    if rest != [] {
      ForestParts(data, mid, rest, mid + |Serialize(rest[0])|);
      ForestTail(rest);
      NodeStart(data, mid, rest[0]);
    } else if mid < |data| {
      FirstChar(data, mid, "</");
    }
  }

  /** Written siblings followed by the end of the input or a closing tag are read back as themselves. */
  lemma {:induction false} ForestParses(data: string, pos: nat, nodes: seq<Node>)
    requires pos <= |data| && StartsWith(data, pos, SerializeForest(nodes)) && SerializableForest(nodes)
    requires pos + |SerializeForest(nodes)| == |data| || StartsWith(data, pos + |SerializeForest(nodes)|, "</")
    ensures ParseNodes(data, pos) == Ok(nodes, pos + |SerializeForest(nodes)|)
    decreases nodes, 1
  {
    if nodes == [] {
      NoSiblings(data, pos);
    } else {
      var mid := pos + |Serialize(nodes[0])|;
      var end := pos + |SerializeForest(nodes)|;
      ForestHead(data, pos, nodes, mid, end);
      ForestCons(data, pos, nodes, mid, end);
    }
  }

  /** Reading the first of written siblings, then the rest. */
  lemma {:induction false} ForestCons(data: string, pos: nat, nodes: seq<Node>, mid: nat, end: nat)
    requires nodes != [] && pos < |data| && SkipWhitespace(data, pos) == pos && !StartsWith(data, pos, "</")
    requires mid == pos + |Serialize(nodes[0])| && end == mid + |SerializeForest(nodes[1..])|
    requires StartsWith(data, pos, Serialize(nodes[0])) && Serializable(nodes[0])
    requires nodes[0].nodeType.Text? ==> mid == |data| || data[mid] == '<'
    requires mid <= |data| && SerializableForest(nodes[1..]) && StartsWith(data, mid, SerializeForest(nodes[1..]))
    requires end == |data| || StartsWith(data, end, "</")
    ensures ParseNodes(data, pos) == Ok(nodes, end)
    decreases nodes, 0
  {
    NodeParses(data, pos, nodes[0]);
    ForestParses(data, mid, nodes[1..]);
    NodesStep(data, pos, nodes, mid, end);
  }

  /** At the end of the input or at a closing tag there are no more siblings. */
  lemma NoSiblings(data: string, pos: nat)
    requires pos == |data| || (pos < |data| && StartsWith(data, pos, "</"))
    ensures ParseNodes(data, pos) == Ok([], pos)
  {
    if pos < |data| {
      FirstChar(data, pos, "</");
    }
    ScanOver(data, pos, "", IsWhitespace);
  }

  /** What reading the first of written siblings, and then the rest, needs. */
  lemma ForestHead(data: string, pos: nat, nodes: seq<Node>, mid: nat, end: nat)
    requires pos <= |data| && StartsWith(data, pos, SerializeForest(nodes)) && SerializableForest(nodes)
    requires nodes != [] && mid == pos + |Serialize(nodes[0])| && end == pos + |SerializeForest(nodes)|
    requires end == |data| || StartsWith(data, end, "</")
    ensures pos < |data| && SkipWhitespace(data, pos) == pos && !StartsWith(data, pos, "</")
    ensures StartsWith(data, pos, Serialize(nodes[0])) && Serializable(nodes[0])
    ensures nodes[0].nodeType.Text? ==> mid == |data| || data[mid] == '<'
    ensures mid <= |data| && SerializableForest(nodes[1..]) && StartsWith(data, mid, SerializeForest(nodes[1..]))
    ensures end == mid + |SerializeForest(nodes[1..])|
  {
    ForestParts(data, pos, nodes, mid);
    ForestTail(nodes);
    NodeStart(data, pos, nodes[0]);
    ScanOver(data, pos, "", IsWhitespace);
    if nodes[0].nodeType.Text? {
      TextFollowed(data, mid, nodes[1..], end);
    }
  }

  /** A serializable tree, written out as markup, parses back as the same tree. */
  lemma ParseSerialize(n: Node)
    requires Serializable(n) && Trimmed(n)
    ensures Parse(Serialize(n)) == Some(n)
  {
    var data := Serialize(n);
    assert SerializeForest([n]) == data + "";
    assert data[0..|data|] == data;
    ForestParses(data, 0, [n]);
  }
}
