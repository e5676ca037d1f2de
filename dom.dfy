/**
 * The document tree built by the parser (src/dom.rs): a node is a text or an
 * element, with an ordered sequence of children that it owns; an element
 * carries a tag name and an attribute map. The module also gives the two
 * queries on elements, `Id` and `Classes`.
 */
module Dom {
  import opened Wrappers

  /** Attribute name to attribute value: keys are unique, order is irrelevant. */
  type AttributeMap = map<string, string>

  datatype ElementData = ElementData(tagName: string, attributes: AttributeMap)

  datatype NodeType = Text(content: string) | Element(element: ElementData)

  datatype Node = Node(children: seq<Node>, nodeType: NodeType)

  /** The tree invariant of the document model: a text node has no children, at any depth. */
  ghost predicate WellFormed(n: Node)
    decreases n
  {
    (n.nodeType.Text? ==> n.children == []) &&
    forall c | c in n.children :: WellFormed(c)
  }

  /** A text node holding `data`; the content is not validated. */
  function TextNode(data: string): (n: Node)
    ensures n.nodeType == Text(data) && n.children == []
    ensures WellFormed(n)
  {
    Node([], Text(data))
  }

  /** An element node; name, attributes and children are kept exactly as given. */
  function ElementNode(name: string, attributes: AttributeMap, children: seq<Node>): (n: Node)
    ensures n.nodeType.Element?
    ensures n.nodeType.element.tagName == name && n.nodeType.element.attributes == attributes
    ensures n.children == children
    ensures WellFormed(n) <==> forall c | c in children :: WellFormed(c)
  {
    Node(children, Element(ElementData(name, attributes)))
  }

  /** The value of the "id" attribute, if there is one. */
  function Id(e: ElementData): (r: Option<string>)
    ensures r.Some? <==> "id" in e.attributes
    ensures r.Some? ==> e.attributes["id"] == r.value
  {
    if "id" in e.attributes then Some(e.attributes["id"]) else None
  }

  /**
   * The pieces of `s` between occurrences of `sep`, in order, as Rust's
   * `str::split` with a char pattern gives them: an empty string yields one
   * empty piece, and every separator at either end or next to another one
   * yields an empty piece too.
   */
  function Split(s: string, sep: char): (pieces: seq<string>)
    ensures |pieces| >= 1
    ensures forall p | p in pieces :: sep !in p
  {
    if s == [] then [[]]
    else
      var rest := Split(s[1..], sep);
      if s[0] == sep then [[]] + rest
      else [[s[0]] + rest[0]] + rest[1..]
  }

  /** The pieces glued back together with `sep` between neighbours. */
  function Join(pieces: seq<string>, sep: char): string
    requires |pieces| >= 1
  {
    if |pieces| == 1 then pieces[0] else pieces[0] + [sep] + Join(pieces[1..], sep)
  }

  /** The set of space-separated tokens of the "class" attribute; empty when it is absent. */
  function Classes(e: ElementData): (r: set<string>)
    ensures "class" !in e.attributes ==> r == {}
    ensures "class" in e.attributes ==>
      forall c :: c in r <==> c in Split(e.attributes["class"], ' ')
    ensures forall c | c in r :: ' ' !in c
  {
    if "class" !in e.attributes then {}
    else set piece | piece in Split(e.attributes["class"], ' ')
  }

  /** Splitting loses nothing: joining the pieces with the separator gives back the string. */
  lemma {:induction false} JoinSplit(s: string, sep: char)
    ensures Join(Split(s, sep), sep) == s
  {
    if s != [] {
      JoinSplit(s[1..], sep);
      var rest := Split(s[1..], sep);
      if s[0] == sep {
        assert Split(s, sep) == [[]] + rest;
        assert ([[]] + rest)[1..] == rest;
      } else {
        assert Split(s, sep) == [[s[0]] + rest[0]] + rest[1..];
        if |rest| == 1 {
          assert rest[0] == s[1..];
        } else {
          assert Join(rest, sep) == rest[0] + [sep] + Join(rest[1..], sep);
          assert ([[s[0]] + rest[0]] + rest[1..])[1..] == rest[1..];
        }
      }
    }
  }

  /** A separator-free prefix joins the first piece of what follows it. */
  lemma {:induction false} SplitPrefix(p: string, u: string, sep: char)
    requires sep !in p
    ensures Split(p + u, sep) == [p + Split(u, sep)[0]] + Split(u, sep)[1..]
  {
    if p != [] {
      var rest := Split(u, sep);
      assert (p + u)[0] == p[0] && (p + u)[1..] == p[1..] + u;
      SplitPrefix(p[1..], u, sep);
      var inner := Split(p[1..] + u, sep);
      assert inner[0] == p[1..] + rest[0] && inner[1..] == rest[1..];
      assert Split(p + u, sep) == [[p[0]] + inner[0]] + inner[1..];
      assert [p[0]] + (p[1..] + rest[0]) == p + rest[0];
    } else {
      assert p + u == u;
      assert p + Split(u, sep)[0] == Split(u, sep)[0];
      assert Split(u, sep) == [Split(u, sep)[0]] + Split(u, sep)[1..];
    }
  }

  /** Joining separator-free pieces and splitting again gives back the pieces. */
  lemma {:induction false} SplitJoin(pieces: seq<string>, sep: char)
    requires |pieces| >= 1
    requires forall p | p in pieces :: sep !in p
    ensures Split(Join(pieces, sep), sep) == pieces
  {
    if |pieces| == 1 {
      SplitPrefix(pieces[0], [], sep);
      assert pieces[0] + [] == pieces[0];
    } else {
      var tail := Join(pieces[1..], sep);
      SplitJoin(pieces[1..], sep);
      assert ([sep] + tail)[1..] == tail;
      var after := Split([sep] + tail, sep);
      assert after == [[]] + pieces[1..];
      assert after[0] == [] && after[1..] == pieces[1..];
      assert Join(pieces, sep) == pieces[0] + ([sep] + tail);
      SplitPrefix(pieces[0], [sep] + tail, sep);
      assert pieces[0] + [] == pieces[0];
      assert pieces == [pieces[0]] + pieces[1..];
    }
  }

  /** Two separators side by side somewhere in `s`. */
  predicate HasDoubled(s: string, sep: char) {
    exists i | 0 <= i < |s| :: DoubledAt(s, sep, i)
  }

  predicate DoubledAt(s: string, sep: char, i: int) {
    0 <= i && i + 1 < |s| && s[i] == sep && s[i + 1] == sep
  }

  /** The first piece is empty exactly when `s` is empty or starts with the separator. */
  lemma FirstPieceEmpty(s: string, sep: char)
    ensures Split(s, sep)[0] == [] <==> s == [] || s[0] == sep
  {
  }

  /** A later piece is empty exactly when `s` ends with the separator or holds two in a row. */
  lemma {:induction false} LaterPieceEmpty(s: string, sep: char)
    ensures [] in Split(s, sep)[1..] <==> (s != [] && s[|s| - 1] == sep) || HasDoubled(s, sep)
  {
    if s != [] {
      var t := s[1..];
      LaterPieceEmpty(t, sep);
      FirstPieceEmpty(t, sep);
      var rest := Split(t, sep);
      // two separators in a row in s: either at the front, or inside t
      assert HasDoubled(s, sep) <==> (t != [] && s[0] == sep && t[0] == sep) || HasDoubled(t, sep) by {
        if HasDoubled(s, sep) {
          var i: int :| 0 <= i < |s| && DoubledAt(s, sep, i);
          if i > 0 {
            assert DoubledAt(t, sep, i - 1);
          }
        }
        if HasDoubled(t, sep) {
          var i: int :| 0 <= i < |t| && DoubledAt(t, sep, i);
          assert DoubledAt(s, sep, i + 1);
        }
        if t != [] && s[0] == sep && t[0] == sep {
          assert DoubledAt(s, sep, 0);
        }
      }
      if s[0] == sep {
        assert Split(s, sep) == [[]] + rest;
        assert Split(s, sep)[1..] == rest;
        assert rest == [rest[0]] + rest[1..];
      } else {
        assert Split(s, sep) == [[s[0]] + rest[0]] + rest[1..];
        assert Split(s, sep)[1..] == rest[1..];
      }
    }
  }

  /**
   * `Classes` holds the empty token exactly when the class list is empty, or
   * starts or ends with a space, or has two spaces in a row.
   */
  lemma EmptyClassToken(e: ElementData)
    requires "class" in e.attributes
    ensures var v := e.attributes["class"];
      "" in Classes(e) <==> v == [] || v[0] == ' ' || v[|v| - 1] == ' ' || HasDoubled(v, ' ')
  {
    var v := e.attributes["class"];
    FirstPieceEmpty(v, ' ');
    LaterPieceEmpty(v, ' ');
    var pieces := Split(v, ' ');
    assert pieces == [pieces[0]] + pieces[1..];
  }

  /** The worked example of an element with an id and three classes. */
  lemma IdAndClassesExample()
    ensures var e := ElementData("div", map["id" := "main", "class" := "a b c"]);
      Id(e) == Some("main") && Classes(e) == {"a", "b", "c"}
  {
    var e := ElementData("div", map["id" := "main", "class" := "a b c"]);
    assert "a b c"[1..] == " b c";
    assert " b c"[1..] == "b c";
    assert "b c"[1..] == " c";
    assert " c"[1..] == "c";
    assert "c"[1..] == "";
    assert Split("", ' ') == [""];
    assert ['c'] + "" == "c";
    assert Split("c", ' ') == ["c"];
    assert Split(" c", ' ') == ["", "c"];
    assert ['b'] + "" == "b";
    assert Split("b c", ' ') == ["b", "c"];
    assert Split(" b c", ' ') == ["", "b", "c"];
    assert ['a'] + "" == "a";
    assert Split("a b c", ' ') == ["a", "b", "c"];
  }
}
