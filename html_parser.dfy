/**
 * The parser of src/html_parser.rs: a cursor `position` over immutable input
 * `data`, advanced by the scanning methods. Each method returns `None` where
 * the source panics (an `assert_eq!`/`assert!` that does not hold, or an
 * `unwrap` past the end of the input), and each is proved to compute the
 * corresponding function of `Grammar`.
 */
module HtmlParser {
  import opened Wrappers
  import opened Dom
  import Grammar

  /** A method's outcome and the cursor after it, read as a `Grammar` result. */
  function Lift<T>(r: Option<T>, position: nat): Grammar.Result<T> {
    if r.Some? then Grammar.Ok(r.value, position) else Grammar.Fail
  }

  /** `prefix` followed by the sequence a rule produced; a failure stays a failure. */
  function Prepend<T>(prefix: seq<T>, r: Grammar.Result<seq<T>>): Grammar.Result<seq<T>> {
    match r
    case Fail => Grammar.Fail
    case Ok(rest, end) => Grammar.Ok(prefix + rest, end)
  }

  lemma PrependNothing<T>(r: Grammar.Result<seq<T>>)
    ensures Prepend([], r) == r
  {
    if r.Ok? {
      assert [] + r.value == r.value;
    }
  }

  lemma PrependTwice<T>(first: seq<T>, second: seq<T>, r: Grammar.Result<seq<T>>)
    ensures Prepend(first, Prepend(second, r)) == Prepend(first + second, r)
  {
    if r.Ok? {
      assert first + (second + r.value) == (first + second) + r.value;
    }
  }

  class Parser {
    const data: string
    var position: nat

    ghost predicate Valid()
      reads this
    {
      position <= |data|
    }

    constructor (source: string)
      ensures Valid() && data == source && position == 0
    {
      data := source;
      position := 0;
    }

    /** The char at the cursor; reading at the end of the input fails. */
    function NextChar(): (c: Option<char>)
      reads this
      requires Valid()
      ensures c.Some? <==> !EndReached()
      ensures c.Some? ==> c.value == data[position]
    {
      if position < |data| then Some(data[position]) else None
    }

    /** Whether the unconsumed input begins with `s`. */
    function StartsWith(s: string): (r: bool)
      reads this
      requires Valid()
      ensures r <==> s <= data[position..]
    {
      Grammar.StartsWith(data, position, s)
    }

    function EndReached(): (r: bool)
      reads this
      requires Valid()
      ensures r <==> position == |data|
    {
      position >= |data|
    }

    /**
     * The char at the cursor, which moves past it; `None` at the end of the
     * input. (The source reads the first char of the whole input instead:
     * see `ConsumeCharAsWritten`.)
     */
    method ConsumeChar() returns (c: Option<char>)
      requires Valid()
      modifies this
      ensures Valid()
      ensures old(position) < |data| ==> c == Some(data[old(position)]) && position == old(position) + 1
      ensures old(position) == |data| ==> c == None && position == old(position)
    {
      if position >= |data| {
        return None;
      }
      c := Some(data[position]);
      position := position + 1;
    }

    /** Consumes chars while `test` holds of the next one and returns them. */
    method ConsumeWhile(test: char -> bool) returns (s: string)
      requires Valid()
      modifies this
      ensures Valid() && position == Grammar.ScanWhile(data, old(position), test)
      ensures s == data[old(position)..position]
    {
      s := "";
      while !EndReached() && test(NextChar().value)
        invariant Valid() && old(position) <= position
        invariant s == data[old(position)..position]
        invariant Grammar.ScanWhile(data, position, test) == Grammar.ScanWhile(data, old(position), test)
        decreases |data| - position
      {
        var c := ConsumeChar();
        s := s + [c.value];
      }
    }

    method ConsumeWhitespace()
      requires Valid()
      modifies this
      ensures Valid() && position == Grammar.SkipWhitespace(data, old(position))
    {
      var _ := ConsumeWhile(Grammar.IsWhitespace);
    }

    method ParseTagName() returns (name: string)
      requires Valid()
      modifies this
      ensures Valid() && Grammar.TagName(data, old(position)) == Grammar.Ok(name, position)
    {
      name := ConsumeWhile(Grammar.IsTagChar);
    }

    /** An element when the next char is '<', text otherwise; fails at the end of the input. */
    method ParseNode() returns (r: Option<Node>)
      requires Valid()
      modifies this
      ensures Valid() && Lift(r, position) == Grammar.ParseNode(data, old(position))
      decreases |data| - position, 1
    {
      var c := NextChar();
      if c == None {
        return None;
      }
      if c.value == '<' {
        r := ParseElement();
      } else {
        var text := ParseText();
        r := Some(text);
      }
    }

    method ParseText() returns (n: Node)
      requires Valid()
      modifies this
      ensures Valid() && Grammar.ParseText(data, old(position)) == Grammar.Ok(n, position)
    {
      var content := ConsumeWhile(Grammar.IsTextChar);
      n := TextNode(content);
    }

    /**
     * `<name attributes>children</name>`. The steps of the opening and the
     * closing tag are grouped into `ParseOpeningTag` and `ParseClosingTag`.
     */
    method ParseElement() returns (r: Option<Node>)
      requires Valid()
      modifies this
      ensures Valid() && Lift(r, position) == Grammar.ParseElement(data, old(position))
      decreases |data| - position, 0
    {
      var tag := ParseOpeningTag();
      if tag == None {
        return None;
      }
      var children := ParseNodes();
      if children == None {
        return None;
      }
      var closed := ParseClosingTag(tag.value.0);
      if !closed {
        return None;
      }
      r := Some(ElementNode(tag.value.0, tag.value.1, children.value));
    }

    /** '<', the tag name, the attributes and '>'. */
    method ParseOpeningTag() returns (r: Option<(string, AttributeMap)>)
      requires Valid()
      modifies this
      ensures Valid() && Lift(r, position) == Grammar.ParseOpeningTag(data, old(position))
    {
      var open := ConsumeChar();
      if open != Some('<') {
        return None;
      }
      var tagName := ParseTagName();
      var attributes := ParseAttributes();
      if attributes == None {
        return None;
      }
      var close := ConsumeChar();
      if close != Some('>') {
        return None;
      }
      r := Some((tagName, attributes.value));
    }

    /** '<', '/', a tag name that must be `name`, and '>'. */
    method ParseClosingTag(name: string) returns (ok: bool)
      requires Valid()
      modifies this
      ensures Valid()
      ensures ok ==> Grammar.ParseClosingTag(data, old(position), name) == Some(position)
      ensures !ok ==> Grammar.ParseClosingTag(data, old(position), name) == None
    {
      var open := ConsumeChar();
      if open != Some('<') {
        return false;
      }
      var slash := ConsumeChar();
      if slash != Some('/') {
        return false;
      }
      var closingName := ParseTagName();
      if closingName != name {
        return false;
      }
      var close := ConsumeChar();
      ok := close == Some('>');
    }

    /** Attributes up to the '>' of the tag, which stays unconsumed; a repeated name keeps its last value. */
    method ParseAttributes() returns (r: Option<AttributeMap>)
      requires Valid()
      modifies this
      ensures Valid() && Lift(r, position) == Grammar.ParseAttributes(data, old(position))
    {
      var attributes: AttributeMap := map[];
      ghost var pairs: seq<(string, string)> := [];
      PrependNothing(Grammar.ParseAttributeList(data, position));
      while true
        invariant Valid() && old(position) <= position
        invariant attributes == Grammar.ToMap(pairs)
        invariant Grammar.ParseAttributeList(data, old(position)) ==
          Prepend(pairs, Grammar.ParseAttributeList(data, position))
        decreases |data| - position
      {
        ghost var head := position;
        ConsumeWhitespace();
        var c := NextChar();
        if c == None {
          assert Grammar.ParseAttributeList(data, head).Fail?;
          return None;
        }
        if c.value == '>' {
          assert Grammar.ParseAttributeList(data, head) == Grammar.Ok([], position);
          assert pairs + [] == pairs;
          break;
        }
        var attribute := ParseAttribute();
        if attribute == None {
          assert Grammar.ParseAttributeList(data, head).Fail?;
          return None;
        }
        PrependTwice(pairs, [attribute.value], Grammar.ParseAttributeList(data, position));
        ghost var before := pairs;
        attributes := attributes[attribute.value.0 := attribute.value.1];
        pairs := pairs + [attribute.value];
        assert pairs[..|pairs| - 1] == before;
      }
      r := Some(attributes);
    }

    method ParseAttribute() returns (r: Option<(string, string)>)
      requires Valid()
      modifies this
      ensures Valid() && Lift(r, position) == Grammar.ParseAttribute(data, old(position))
    {
      var name := ParseTagName();
      var equals := ConsumeChar();
      if equals != Some('=') {
        return None;
      }
      var value := ParseAttributeValue();
      if value == None {
        return None;
      }
      r := Some((name, value.value));
    }

    method ParseAttributeValue() returns (r: Option<string>)
      requires Valid()
      modifies this
      ensures Valid() && Lift(r, position) == Grammar.ParseAttributeValue(data, old(position))
    {
      var quote := ConsumeChar();
      if quote == None || !Grammar.IsQuote(quote.value) {
        return None;
      }
      var value := ConsumeWhile(Grammar.Unquoted(quote.value));
      var close := ConsumeChar();
      if close != quote {
        return None;
      }
      r := Some(value);
    }

    /** Sibling nodes until the end of the input or a "</". */
    method ParseNodes() returns (r: Option<seq<Node>>)
      requires Valid()
      modifies this
      ensures Valid() && Lift(r, position) == Grammar.ParseNodes(data, old(position))
      decreases |data| - position, 2
    {
      var nodes: seq<Node> := [];
      PrependNothing(Grammar.ParseNodes(data, position));
      while true
        invariant Valid() && old(position) <= position
        invariant Grammar.ParseNodes(data, old(position)) ==
          Prepend(nodes, Grammar.ParseNodes(data, position))
        decreases |data| - position
      {
        ghost var head := position;
        ConsumeWhitespace();
        if EndReached() || StartsWith("</") {
          assert Grammar.ParseNodes(data, head) == Grammar.Ok([], position);
          assert nodes + [] == nodes;
          break;
        }
        ghost var nodeStart := position;
        var node := ParseNode();
        if node == None {
          assert Grammar.ParseNodes(data, head).Fail?;
          return None;
        }
        PrependTwice(nodes, [node.value], Grammar.ParseNodes(data, position));
        nodes := nodes + [node.value];
      }
      r := Some(nodes);
    }

    /**
     * Parses a whole document with a fresh parser: the single top-level node,
     * or all top-level nodes under a synthetic "html" element.
     */
    static method Parse(source: string) returns (r: Option<Node>)
      ensures r == Grammar.Parse(source)
    {
      var parser := new Parser(source);
      var nodes := parser.ParseNodes();
      if nodes == None {
        return None;
      }
      if |nodes.value| == 1 {
        r := Some(nodes.value[0]);
      } else {
        r := Some(ElementNode("html", map[], nodes.value));
      }
    }
  }
}
