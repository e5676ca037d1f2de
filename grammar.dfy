/**
 * The meaning of each grammar rule of the parser (src/html_parser.rs) as a
 * function of the input and a cursor position: the value the rule produces
 * and the position after it, or a fatal failure. The methods of
 * `HtmlParser.Parser` are proved to compute exactly these functions, and the
 * lemmas here state what the rules promise.
 *
 * Positions count chars, not UTF-8 bytes. Every `assert_eq!`/`assert!` of the
 * source and every read past the end of the input is the failure `Fail`.
 */
module Grammar {
  import opened Wrappers
  import opened Dom

  /** A rule's value and the cursor after it, or a fatal, no-partial-result failure. */
  datatype Result<T> = Ok(value: T, next: nat) | Fail

  /**
   * Unicode's White_Space property, which Rust's `char::is_whitespace`
   * follows: U+0009..U+000D, U+0020, U+0085, U+00A0, U+1680, U+2000..U+200A,
   * U+2028, U+2029, U+202F, U+205F and U+3000.
   */
  predicate IsWhitespace(c: char) {
    ('\t' <= c <= '\r') || c == ' ' || c == '\U{85}' || c == '\U{A0}' || c == '\U{1680}' ||
    ('\U{2000}' <= c <= '\U{200A}') || c == '\U{2028}' || c == '\U{2029}' ||
    c == '\U{202F}' || c == '\U{205F}' || c == '\U{3000}'
  }

  /** The chars a tag or attribute name is made of: ASCII letters and digits. */
  predicate IsTagChar(c: char) {
    'a' <= c <= 'z' || 'A' <= c <= 'Z' || '0' <= c <= '9'
  }

  predicate IsTagName(s: string) {
    forall c | c in s :: IsTagChar(c)
  }

  predicate AreTagNames(attributes: AttributeMap) {
    forall name | name in attributes :: IsTagName(name)
  }

  /** The chars text content is made of. */
  predicate IsTextChar(c: char) {
    c != '<'
  }

  predicate IsTextContent(s: string) {
    forall c | c in s :: IsTextChar(c)
  }

  predicate IsQuote(c: char) {
    c == '"' || c == '\''
  }

  /** The chars of a value opened with `quote`. */
  function Unquoted(quote: char): char -> bool {
    c => c != quote
  }

  /** The char at `p` is `c`; false past the end, where reading fails. */
  predicate At(data: string, p: nat, c: char) {
    p < |data| && data[p] == c
  }

  /** The unconsumed input from `pos` begins with `s`. */
  predicate StartsWith(data: string, pos: nat, s: string)
    requires pos <= |data|
  {
    pos + |s| <= |data| && data[pos..pos + |s|] == s
  }

  /** `StartsWith` is the prefix relation on the unconsumed input. */
  lemma StartsWithIsPrefix(data: string, pos: nat, s: string)
    requires pos <= |data|
    ensures StartsWith(data, pos, s) <==> s <= data[pos..]
  {
    if s <= data[pos..] {
      assert data[pos..pos + |s|] == data[pos..][..|s|];
    }
  }

  /**
   * The position where a scan from `pos` stops: the first position at or
   * after `pos` whose char fails `test`, or the end of the input (see
   * `ScanWhileStops`).
   */
  function ScanWhile(data: string, pos: nat, test: char -> bool): (end: nat)
    requires pos <= |data|
    ensures pos <= end <= |data|
    decreases |data| - pos
  {
    if pos < |data| && test(data[pos]) then ScanWhile(data, pos + 1, test) else pos
  }

  /** Every scanned char passes `test`, and the scan stops only at the end or at a char failing it. */
  lemma {:induction false} ScanWhileStops(data: string, pos: nat, test: char -> bool)
    requires pos <= |data|
    ensures var end := ScanWhile(data, pos, test);
      (forall i | pos <= i < end :: test(data[i])) && (end == |data| || !test(data[end]))
    decreases |data| - pos
  {
    if pos < |data| && test(data[pos]) {
      ScanWhileStops(data, pos + 1, test);
    }
  }

  /** What `ScanWhileStops` says of a scan determines where it ends. */
  lemma ScanWhileUnique(data: string, pos: nat, test: char -> bool, end: nat)
    requires pos <= end <= |data|
    requires forall i | pos <= i < end :: test(data[i])
    requires end == |data| || !test(data[end])
    ensures ScanWhile(data, pos, test) == end
  {
    ScanWhileStops(data, pos, test);
  }

  function SkipWhitespace(data: string, pos: nat): (end: nat)
    requires pos <= |data|
    ensures pos <= end <= |data| && (end == |data| || !IsWhitespace(data[end]))
  {
    ScanWhileStops(data, pos, IsWhitespace);
    ScanWhile(data, pos, IsWhitespace)
  }

  /** Skipping whitespace twice skips no more than once. */
  lemma SkipWhitespaceIdempotent(data: string, pos: nat)
    requires pos <= |data|
    ensures SkipWhitespace(data, SkipWhitespace(data, pos)) == SkipWhitespace(data, pos)
  {
  }

  /** A possibly empty run of ASCII letters and digits (see `TagNameScans`). */
  function TagName(data: string, pos: nat): (r: Result<string>)
    requires pos <= |data|
    ensures r.Ok? && pos <= r.next <= |data|
  {
    var end := ScanWhile(data, pos, IsTagChar);
    Ok(data[pos..end], end)
  }

  /**
   * A tag name is the text it scanned, made of letters and digits only, and
   * afterwards the next char, if any, is neither.
   */
  lemma TagNameScans(data: string, pos: nat)
    requires pos <= |data|
    ensures var r := TagName(data, pos);
      r.value == data[pos..r.next] && IsTagName(r.value) &&
      (r.next == |data| || !IsTagChar(data[r.next]))
  {
    ScanWhileStops(data, pos, IsTagChar);
    var r := TagName(data, pos);
    forall c | c in r.value
      ensures IsTagChar(c)
    {
      var i :| 0 <= i < |r.value| && r.value[i] == c;
      assert c == data[pos + i];
    }
  }

  /** Text up to the next '<' or the end of the input; it never fails (see `TextFromNode`). */
  function ParseText(data: string, pos: nat): (r: Result<Node>)
    requires pos <= |data|
    ensures r.Ok? && pos <= r.next <= |data|
    ensures r.value == TextNode(data[pos..r.next])
  {
    var end := ScanWhile(data, pos, IsTextChar);
    Ok(TextNode(data[pos..end]), end)
  }

  /**
   * Text read where a node starts with anything but '<' is a childless text
   * node: non-empty, free of '<', and ending at a '<' or the end of the input.
   */
  lemma TextFromNode(data: string, pos: nat)
    requires pos < |data| && data[pos] != '<'
    ensures var r := ParseText(data, pos);
      r.value.nodeType.Text? && r.value.children == [] &&
      r.value.nodeType.content == data[pos..r.next] &&
      r.value.nodeType.content != [] && IsTextContent(r.value.nodeType.content) &&
      (r.next == |data| || data[r.next] == '<')
  {
    ScanWhileStops(data, pos, IsTextChar);
    var r := ParseText(data, pos);
    assert data[pos..r.next][0] == data[pos];
    forall c | c in r.value.nodeType.content
      ensures IsTextChar(c)
    {
      var i :| 0 <= i < r.next - pos && data[pos..r.next][i] == c;
      assert c == data[pos + i];
    }
  }

  /** A value in matching quotes: a quote char, anything but that quote, the same quote again. */
  function ParseAttributeValue(data: string, pos: nat): (r: Result<string>)
    requires pos <= |data|
    ensures r.Ok? ==> pos + 2 <= r.next <= |data|
  {
    if pos >= |data| || !IsQuote(data[pos]) then Fail
    else
      var quote := data[pos];
      var end := ScanWhile(data, pos + 1, Unquoted(quote));
      if !At(data, end, quote) then Fail
      else Ok(data[pos + 1..end], end + 1)
  }

  /**
   * A value succeeds exactly when the char at `pos` is a quote and the same
   * quote occurs again later; the value is what lies between the two, so it
   * never holds that quote, and the closing quote is the opening one.
   */
  lemma AttributeValueQuoted(data: string, pos: nat)
    requires pos <= |data|
    ensures var r := ParseAttributeValue(data, pos);
      r.Ok? <==> pos < |data| && IsQuote(data[pos]) && data[pos] in data[pos + 1..]
    ensures var r := ParseAttributeValue(data, pos);
      r.Ok? ==> data[r.next - 1] == data[pos] && r.value == data[pos + 1..r.next - 1] && data[pos] !in r.value
  {
    if pos < |data| && IsQuote(data[pos]) {
      var quote := data[pos];
      var end := ScanWhile(data, pos + 1, Unquoted(quote));
      ScanWhileStops(data, pos + 1, Unquoted(quote));
      assert forall i | pos + 1 <= i < end :: data[i] != quote;
      if end == |data| {
        assert quote !in data[pos + 1..];
      } else {
        assert data[end] == quote;
        assert data[pos + 1..][end - pos - 1] == quote;
      }
    }
  }

  /** `name="value"`: a name, '=' right after it, then a quoted value. */
  function ParseAttribute(data: string, pos: nat): (r: Result<(string, string)>)
    requires pos <= |data|
    ensures r.Ok? ==> pos < r.next <= |data| && IsTagName(r.value.0)
  {
    var name := TagName(data, pos);
    TagNameScans(data, pos);
    if !At(data, name.next, '=') then Fail
    else match ParseAttributeValue(data, name.next + 1)
      case Fail => Fail
      case Ok(value, after) => Ok((name.value, value), after)
  }

  predicate AreTagNamed(pairs: seq<(string, string)>) {
    forall i | 0 <= i < |pairs| :: IsTagName(pairs[i].0)
  }

  /**
   * The attributes of an opening tag in the order they are written, each
   * preceded by optional whitespace, up to (not including) the '>' that ends
   * the tag.
   */
  function ParseAttributeList(data: string, pos: nat): (r: Result<seq<(string, string)>>)
    requires pos <= |data|
    ensures r.Ok? ==> pos <= r.next < |data| && data[r.next] == '>' && AreTagNamed(r.value)
    decreases |data| - pos
  {
    var p := SkipWhitespace(data, pos);
    if p >= |data| then Fail
    else if data[p] == '>' then Ok([], p)
    else match ParseAttribute(data, p)
      case Fail => Fail
      case Ok(attribute, after) =>
        match ParseAttributeList(data, after)
        case Fail => Fail
        case Ok(rest, end) => Ok([attribute] + rest, end)
  }

  /** Attributes fail when the input ends before a '>'. */
  lemma AttributesNeedClosingBracket(data: string, pos: nat)
    requires pos <= |data| && '>' !in data[pos..]
    ensures ParseAttributeList(data, pos).Fail?
  {
  }

  /** The map built by inserting the pairs in order, so a later pair overwrites an earlier one. */
  function ToMap(pairs: seq<(string, string)>): (m: AttributeMap)
  {
    if pairs == [] then map[]
    else ToMap(pairs[..|pairs| - 1])[pairs[|pairs| - 1].0 := pairs[|pairs| - 1].1]
  }

  /** The names of a list of attributes. */
  ghost function Names(pairs: seq<(string, string)>): set<string> {
    set i | 0 <= i < |pairs| :: pairs[i].0
  }

  /** The map's names are exactly the names of the pairs. */
  lemma {:induction false} ToMapKeys(pairs: seq<(string, string)>)
    ensures ToMap(pairs).Keys == Names(pairs)
  {
    if pairs != [] {
      var init := pairs[..|pairs| - 1];
      var last := pairs[|pairs| - 1];
      ToMapKeys(init);
      forall k | k in Names(pairs)
        ensures k in Names(init) + {last.0}
      {
        var i :| 0 <= i < |pairs| && pairs[i].0 == k;
        if i < |init| {
          assert init[i].0 == k;
        }
      }
      forall k | k in Names(init)
        ensures k in Names(pairs)
      {
        var i :| 0 <= i < |init| && init[i].0 == k;
        assert pairs[i].0 == k;
      }
      assert pairs[|pairs| - 1].0 in Names(pairs);
    }
  }

  /** The last occurrence of a name wins: its value is the one in the map. */
  lemma {:induction false} LastOccurrenceWins(pairs: seq<(string, string)>, i: nat)
    requires i < |pairs|
    requires forall j | i < j < |pairs| :: pairs[j].0 != pairs[i].0
    ensures pairs[i].0 in ToMap(pairs) && ToMap(pairs)[pairs[i].0] == pairs[i].1
  {
    if i < |pairs| - 1 {
      var init := pairs[..|pairs| - 1];
      LastOccurrenceWins(init, i);
    }
  }

  /** The attribute map of an opening tag. */
  function ParseAttributes(data: string, pos: nat): (r: Result<AttributeMap>)
    requires pos <= |data|
    ensures r.Ok? ==> pos <= r.next < |data| && data[r.next] == '>' && AreTagNames(r.value)
  {
    match ParseAttributeList(data, pos)
    case Fail => Fail
    case Ok(pairs, end) =>
      ToMapKeys(pairs);
      Ok(ToMap(pairs), end)
  }

  /** A text node whose content begins with a non-whitespace char (vacuous for an element). */
  predicate Trimmed(n: Node) {
    n.nodeType.Text? ==> n.nodeType.content != [] && !IsWhitespace(n.nodeType.content[0])
  }

  /**
   * The shape of every tree the parser builds: text is non-empty, holds no
   * '<' and has no children; tag and attribute names are ASCII letters and
   * digits; and no child text begins with whitespace.
   */
  predicate IsParseTree(n: Node)
    decreases n
  {
    match n.nodeType
    case Text(content) => n.children == [] && content != [] && IsTextContent(content)
    case Element(e) =>
      IsTagName(e.tagName) && AreTagNames(e.attributes) &&
      forall i | 0 <= i < |n.children| :: IsParseTree(n.children[i]) && Trimmed(n.children[i])
  }

  /** Sibling nodes as the parser returns them. */
  predicate IsParseForest(nodes: seq<Node>) {
    forall i | 0 <= i < |nodes| :: IsParseTree(nodes[i]) && Trimmed(nodes[i])
  }

  /** Every tree the parser builds satisfies the document model's own invariant. */
  lemma {:induction false} ParseTreeIsWellFormed(n: Node)
    requires IsParseTree(n)
    ensures WellFormed(n)
    decreases n
  {
    forall c | c in n.children
      ensures WellFormed(c)
    {
      var i :| 0 <= i < |n.children| && n.children[i] == c;
      ParseTreeIsWellFormed(c);
    }
  }

  /**
   * Sibling nodes, each preceded by optional whitespace, up to the end of the
   * input or a "</".
   */
  function ParseNodes(data: string, pos: nat): (r: Result<seq<Node>>)
    requires pos <= |data|
    ensures r.Ok? ==> pos <= r.next <= |data| && (r.next == |data| || StartsWith(data, r.next, "</"))
    ensures r.Ok? ==> IsParseForest(r.value)
    decreases |data| - pos, 2
  {
    var p := SkipWhitespace(data, pos);
    if p >= |data| || StartsWith(data, p, "</") then Ok([], p)
    else match ParseNode(data, p)
      case Fail => Fail
      case Ok(node, after) =>
        match ParseNodes(data, after)
        case Fail => Fail
        case Ok(rest, end) => Ok([node] + rest, end)
  }

  /** An element if the next char is '<', text otherwise; it consumes at least one char. */
  function ParseNode(data: string, pos: nat): (r: Result<Node>)
    requires pos <= |data|
    ensures r.Ok? ==> pos < r.next <= |data| && IsParseTree(r.value)
    ensures r.Ok? && r.value.nodeType.Text? ==> r.value.nodeType.content[0] == data[pos]
    decreases |data| - pos, 1
  {
    if pos >= |data| then Fail
    else if data[pos] == '<' then ParseElement(data, pos)
    else
      TextFromNode(data, pos);
      ParseText(data, pos)
  }

  /**
   * `<name attributes>children</name>`: the closing name must equal the
   * opening one, and there is no whitespace inside "</name>".
   */
  function ParseElement(data: string, pos: nat): (r: Result<Node>)
    requires pos <= |data|
    ensures r.Ok? ==> pos < r.next <= |data| && r.value.nodeType.Element? && IsParseTree(r.value)
    decreases |data| - pos, 0
  {
    match ParseOpeningTag(data, pos)
    case Fail => Fail
    case Ok(tag, tagEnd) => CloseElement(data, tag.0, tag.1, ParseNodes(data, tagEnd))
  }

  /** `<name attributes>`: the tag name and the attribute map, and the position after the '>'. */
  function ParseOpeningTag(data: string, pos: nat): (r: Result<(string, AttributeMap)>)
    requires pos <= |data|
    ensures r.Ok? ==> pos < r.next <= |data| && IsTagName(r.value.0) && AreTagNames(r.value.1)
  {
    if !At(data, pos, '<') then Fail
    else
      var name := TagName(data, pos + 1);
      TagNameScans(data, pos + 1);
      match ParseAttributes(data, name.next)
      case Fail => Fail
      case Ok(attributes, tagEnd) =>
        if !At(data, tagEnd, '>') then Fail
        else Ok((name.value, attributes), tagEnd + 1)
  }

  /** The element once its children are parsed: only the closing tag is left to check. */
  function CloseElement(data: string, name: string, attributes: AttributeMap, children: Result<seq<Node>>): (r: Result<Node>)
    requires children.Ok? ==> children.next <= |data|
    ensures r.Ok? ==> children.Ok? && children.next < r.next <= |data|
  {
    match children
    case Fail => Fail
    case Ok(nodes, end) =>
      match ParseClosingTag(data, end, name)
      case None => Fail
      case Some(after) => Ok(ElementNode(name, attributes, nodes), after)
  }

  /** The closing tag of an element named `name`: '<', '/', a tag name equal to `name`, '>'. */
  function ParseClosingTag(data: string, pos: nat, name: string): (r: Option<nat>)
    requires pos <= |data|
    ensures r.Some? ==> pos + 3 <= r.value <= |data|
  {
    if !At(data, pos, '<') || !At(data, pos + 1, '/') then None
    else
      var closing := TagName(data, pos + 2);
      if closing.value != name || !At(data, closing.next, '>') then None
      else Some(closing.next + 1)
  }

  /**
   * Because a tag name is scanned as far as it goes, the closing tag of a
   * letters-and-digits name succeeds exactly when the input continues with
   * "</" + name + ">".
   */
  lemma ClosingTagExact(data: string, pos: nat, name: string)
    requires pos <= |data| && IsTagName(name)
    ensures ParseClosingTag(data, pos, name).Some? <==> StartsWith(data, pos, "</" + name + ">")
    ensures ParseClosingTag(data, pos, name).Some? ==> ParseClosingTag(data, pos, name).value == pos + |name| + 3
  {
    var r := ParseClosingTag(data, pos, name);
    if r.Some? {
      TagNameScans(data, pos + 2);
      var closing := TagName(data, pos + 2);
      assert data[pos..closing.next + 1] == "</" + name + ">";
    }
    if StartsWith(data, pos, "</" + name + ">") {
      var end := pos + 2 + |name|;
      var want := "</" + name + ">";
      assert data[pos..end + 1] == want;
      forall i | 0 <= i < |name|
        ensures data[pos + 2 + i] == name[i]
      {
        assert data[pos + 2 + i] == data[pos..end + 1][2 + i] == want[2 + i];
      }
      forall i | pos + 2 <= i < end
        ensures IsTagChar(data[i])
      {
        assert data[i] == name[i - pos - 2];
      }
      assert data[end] == want[|name| + 2] == '>';
      ScanWhileUnique(data, pos + 2, IsTagChar, end);
      assert data[pos + 2..end] == name;
      assert data[pos] == want[0] && data[pos + 1] == want[1];
    }
  }

  /** Whitespace before a run of siblings is insignificant: the run parses the same after skipping it. */
  lemma NodesSkipWhitespace(data: string, pos: nat)
    requires pos <= |data|
    ensures ParseNodes(data, SkipWhitespace(data, pos)) == ParseNodes(data, pos)
  {
    SkipWhitespaceIdempotent(data, pos);
  }

  /**
   * A parsed element reads as '<', its tag name, its attributes, '>', its
   * children (the siblings parsed right after the opening tag), and the
   * closing tag "</" + name + ">" that ends exactly where the element does.
   */
  lemma ElementShape(data: string, pos: nat)
    requires pos <= |data|
    ensures var r := ParseElement(data, pos);
      r.Ok? ==>
        var name := r.value.nodeType.element.tagName;
        var opening := ParseOpeningTag(data, pos);
        data[pos] == '<' && opening.Ok? && opening.value == (name, r.value.nodeType.element.attributes) &&
        name == TagName(data, pos + 1).value &&
        ParseNodes(data, opening.next) == Ok(r.value.children, r.next - |name| - 3) &&
        r.next - |name| - 3 >= opening.next &&
        StartsWith(data, r.next - |name| - 3, "</" + name + ">")
  {
    var r := ParseElement(data, pos);
    if r.Ok? {
      var opening := ParseOpeningTag(data, pos);
      var name := opening.value.0;
      var children := ParseNodes(data, opening.next);
      ClosingTagExact(data, children.next, name);
    }
  }

  /**
   * The converse of `ElementShape`: an opening tag, the siblings after it,
   * and "</" + the same name + ">" right after those make an element.
   */
  lemma ElementFromParts(data: string, pos: nat, name: string, attributes: AttributeMap,
                         tagEnd: nat, children: seq<Node>, childrenEnd: nat)
    requires pos <= |data|
    requires ParseOpeningTag(data, pos) == Ok((name, attributes), tagEnd)
    requires ParseNodes(data, tagEnd) == Ok(children, childrenEnd)
    requires StartsWith(data, childrenEnd, "</" + name + ">")
    ensures ParseElement(data, pos) == Ok(ElementNode(name, attributes, children), childrenEnd + |name| + 3)
  {
    ClosingTagExact(data, childrenEnd, name);
  }

  /** Input that begins with `a + b` begins with `a`, and continues with `b` after it. */
  lemma StartsWithSplit(data: string, pos: nat, a: string, b: string)
    requires pos <= |data| && StartsWith(data, pos, a + b)
    ensures StartsWith(data, pos, a) && StartsWith(data, pos + |a|, b)
  {
    assert data[pos..pos + |a|] == data[pos..pos + |a + b|][..|a|];
    assert data[pos + |a|..pos + |a| + |b|] == data[pos..pos + |a + b|][|a|..];
  }

  /** The text `<name>` for a letters-and-digits `name` is an opening tag without attributes. */
  lemma PlainOpeningTag(data: string, pos: nat, name: string)
    requires pos <= |data| && IsTagName(name)
    requires StartsWith(data, pos, "<" + name + ">")
    ensures ParseOpeningTag(data, pos) == Ok((name, map[]), pos + |name| + 2)
  {
    var text := "<" + name + ">";
    var q := pos + 1 + |name|;
    forall i | 0 <= i < |text|
      ensures data[pos + i] == text[i]
    {
      assert data[pos + i] == data[pos..pos + |text|][i];
    }
    forall i | pos + 1 <= i < q
      ensures IsTagChar(data[i])
    {
      assert data[i] == text[i - pos] == name[i - pos - 1];
    }
    assert data[q] == text[|name| + 1] == '>';
    ScanWhileUnique(data, pos + 1, IsTagChar, q);
    assert data[pos + 1..q] == name by {
      forall i | 0 <= i < |name|
        ensures data[pos + 1 + i] == name[i]
      {
        assert data[pos + 1 + i] == text[1 + i];
      }
    }
    assert data[pos] == text[0];
    assert ScanWhile(data, q, IsWhitespace) == q;
  }

  /** Siblings stop at once, with none, where a closing tag begins. */
  lemma NoNodesBeforeClosingTag(data: string, pos: nat)
    requires pos <= |data| && StartsWith(data, pos, "</")
    ensures ParseNodes(data, pos) == Ok([], pos)
  {
    assert data[pos] == data[pos..pos + 2][0] == '<';
    assert ScanWhile(data, pos, IsWhitespace) == pos;
  }

  /** The text `<name></name>` is the opening tag `<name>` followed by a closing tag "</" + name + ">". */
  lemma EmptyElementText(data: string, pos: nat, name: string)
    requires pos <= |data|
    requires StartsWith(data, pos, "<" + name + ">" + ("</" + name + ">"))
    ensures StartsWith(data, pos, "<" + name + ">")
    ensures pos + |name| + 2 <= |data|
    ensures StartsWith(data, pos + |name| + 2, "</")
    ensures StartsWith(data, pos + |name| + 2, "</" + name + ">")
  {
    var q := pos + |name| + 2;
    StartsWithSplit(data, pos, "<" + name + ">", "</" + name + ">");
    assert "</" + name + ">" == "</" + (name + ">");
    StartsWithSplit(data, q, "</", name + ">");
  }

  /** The text `<name></name>` for a letters-and-digits `name` parses as an empty element. */
  lemma EmptyElementParses(data: string, pos: nat, name: string)
    requires pos <= |data| && IsTagName(name)
    requires StartsWith(data, pos, "<" + name + ">" + ("</" + name + ">"))
    ensures ParseElement(data, pos) == Ok(ElementNode(name, map[], []), pos + 2 * |name| + 5)
  {
    var q := pos + |name| + 2;
    EmptyElementText(data, pos, name);
    PlainOpeningTag(data, pos, name);
    NoNodesBeforeClosingTag(data, q);
    ClosingTagExact(data, q, name);
    assert ParseClosingTag(data, q, name) == Some(q + |name| + 3);
    assert ParseElement(data, pos) == CloseElement(data, name, map[], Ok([], q));
  }

  /**
   * A whole document: its top-level nodes, the single one itself when there
   * is exactly one, otherwise all of them under a synthetic "html" element.
   */
  function Parse(source: string): (r: Option<Node>)
    ensures r.Some? <==> ParseNodes(source, 0).Ok?
    ensures r.Some? ==> IsParseTree(r.value) && WellFormed(r.value)
    ensures var nodes := ParseNodes(source, 0);
      nodes.Ok? && |nodes.value| == 1 ==> r == Some(nodes.value[0])
    ensures var nodes := ParseNodes(source, 0);
      nodes.Ok? && |nodes.value| != 1 ==>
        r.Some? && r.value.nodeType == Element(ElementData("html", map[])) && r.value.children == nodes.value
  {
    match ParseNodes(source, 0)
    case Fail => None
    case Ok(nodes, _) =>
      var root := if |nodes| == 1 then nodes[0] else ElementNode("html", map[], nodes);
      ParseTreeIsWellFormed(root);
      Some(root)
  }
}
