# simple-browser-engine: the HTML parser and its document tree, in Dafny

This project models the parser of simple-browser-engine, a small recursive-descent parser for a
subset of HTML, and the document tree it builds.

- **Document model** (`dom.dfy`, module `Dom`): a `Node` has children and a node type. The type is
  either text or an element with a tag name and an attribute map. The module has the two
  constructors, the `id` query and the `classes` query. `classes` splits the `class` attribute on
  single spaces into a set.
- **Grammar** (`grammar.dfy`, module `Grammar`): the meaning of every parsing rule as a pure
  function of the input and a cursor position. A rule yields the value it parsed and the position
  after it, or `Fail` where the Rust code panics. This covers every `assert_eq!`/`assert!` that does
  not hold and every read past the end of the input. The lemmas here state what the rules
  promise.
- **Parser** (`html_parser.dfy`, module `HtmlParser`): the `Parser` class with the immutable input
  `data` and the cursor `position`. Its methods advance the cursor in loops, as the Rust methods
  do, and each one returns `None` or `false` where the Rust code panics. Each parsing method is
  proved to compute the `Grammar` rule of the same name from the cursor it started at.
  `ConsumeChar` has no `Grammar` counterpart: its own contract states the char it returns and
  where it leaves the cursor.
  `next_char`, `starts_with` and `end_reached` only read the state, so they are functions of the
  object.
- **Documents** (`documents.dfy`): what `parse` makes of a few inputs that show how the top level
  of a document is read.
- **Round trip** (`roundtrip.dfy`, module `RoundTrip`): a tree written back out as markup, and
  the proof that the parser reads that markup back as the same tree. This covers every tree the
  parser can build in which no attribute value holds a '"' and no two text nodes are adjacent
  siblings.
- **Findings** (`findings.dfy`): `consume_char` as written, and what goes wrong with it (see
  "## Findings").

The input is a sequence of chars and the cursor is a char index. Whitespace is Unicode's
White_Space property, which Rust's `char::is_whitespace` follows, written out as
`Grammar.IsWhitespace`.

The mutual recursion `ParseNodes` → `ParseNode` → `ParseElement` → `ParseNodes` terminates on
`|data| - position`. `ParseNode` always consumes at least one char, which its contract states.

## Model

| member | source | states |
|---|---|---|
| Dom.TextNode | src/dom.rs:23-28 | the node is the text `data`, has no children and satisfies the tree invariant |
| Dom.ElementNode | src/dom.rs:30-38 | the node is an element whose tag name, attribute map and children are exactly the arguments, in order; it satisfies the tree invariant exactly when every child does |
| Dom.Id | src/dom.rs:41-43 | the result is present exactly when the map has "id", and it is then the value "id" maps to |
| Dom.Split | src/dom.rs:48 | splitting on a char yields at least one piece, and no piece holds the separator |
| Dom.Classes | src/dom.rs:45-50 | the set is empty without a "class" attribute; otherwise it holds exactly the pieces of its value split on ' ', none of which holds a space |
| Dom.JoinSplit | src/dom.rs:48 | joining the pieces with the separator gives back the split value |
| Dom.SplitJoin | src/dom.rs:48 | splitting pieces that hold no separator, after joining them, gives back the same pieces |
| Dom.SplitPrefix | src/dom.rs:48 | a separator-free prefix joins the first piece of what follows it, and the other pieces are unchanged |
| Dom.FirstPieceEmpty | src/dom.rs:48 | the first piece is empty exactly when the value is empty or starts with the separator |
| Dom.LaterPieceEmpty | src/dom.rs:48 | a later piece is empty exactly when the value ends with the separator or holds two in a row |
| Dom.EmptyClassToken | src/dom.rs:45-50 | "" is a class exactly when the class list is empty, or has a leading, trailing or doubled space |
| Dom.IdAndClassesExample | src/dom.rs:41-50 | an element with id "main" and class "a b c" has that id and the classes {a, b, c} |
| Grammar.IsWhitespace | src/html_parser.rs:46 | the chars `char::is_whitespace` accepts: Unicode's White_Space property, written out range by range |
| Grammar.IsTagChar | src/html_parser.rs:54-57 | the chars the tag-name closure accepts: ASCII letters and digits |
| Grammar.StartsWith | src/html_parser.rs:14-16 | the unconsumed input from the cursor begins with the given string |
| Grammar.StartsWithIsPrefix | src/html_parser.rs:14-16 | the test is the prefix relation on the unconsumed input |
| Grammar.ScanWhile | src/html_parser.rs:34-43 | a scan never moves the cursor backwards or past the end of the input |
| Grammar.ScanWhileStops | src/html_parser.rs:34-43 | every scanned char passes the test, and the scan stops only at the end of the input or at a char that fails it |
| Grammar.ScanWhileUnique | src/html_parser.rs:34-43 | those two facts determine where a scan ends |
| Grammar.SkipWhitespace | src/html_parser.rs:45-47 | skipping whitespace stops at the end of the input or at a char that is not whitespace |
| Grammar.SkipWhitespaceIdempotent | src/html_parser.rs:45-47 | skipping whitespace a second time moves nothing |
| Grammar.TagName | src/html_parser.rs:53-58 | a tag name never fails and stays within the input |
| Grammar.TagNameScans | src/html_parser.rs:53-58 | a tag name is the text scanned, it is made of ASCII letters and digits only (possibly none), and the next char, if any, is neither |
| Grammar.ParseText | src/html_parser.rs:68-70 | text never fails; it is a text node whose content is the text consumed |
| Grammar.TextFromNode | src/html_parser.rs:60-70 | text read where a node does not start with '<' is childless, non-empty, free of '<', and ends at a '<' or the end of the input |
| Grammar.ParseAttributeValue | src/html_parser.rs:111-117 | a value consumes at least its two quotes |
| Grammar.AttributeValueQuoted | src/html_parser.rs:111-117 | a value succeeds exactly when it starts with '"' or '\'' and that quote occurs again later; the closing quote is the opening one; the value is what lies between them and never holds that quote |
| Grammar.ParseAttribute | src/html_parser.rs:104-109 | an attribute consumes at least one char and its name is made of letters and digits |
| Grammar.ParseAttributeList | src/html_parser.rs:91-102 | the attribute list stops exactly at a '>', which it leaves unconsumed, and every name is made of letters and digits |
| Grammar.AttributesNeedClosingBracket | src/html_parser.rs:91-102 | the attributes fail if the input ends before a '>' |
| Grammar.ToMap | src/html_parser.rs:92-100 | the map built by inserting each parsed pair in order into an empty map, so a later pair overwrites an earlier one of the same name |
| Grammar.ToMapKeys | src/html_parser.rs:91-102 | the attribute map's names are exactly the names parsed |
| Grammar.LastOccurrenceWins | src/html_parser.rs:99-100 | when a name repeats, the map holds the value of its last occurrence |
| Grammar.ParseAttributes | src/html_parser.rs:91-102 | the attribute map ends at a '>', and all its names are letters and digits |
| Grammar.ParseTreeIsWellFormed | src/dom.rs:5-15 | every tree the parser builds keeps text nodes childless |
| Grammar.ParseNodes | src/html_parser.rs:119-129 | siblings stop at the end of the input or where the rest starts with "</"; each is a parse tree, and no text sibling starts with whitespace |
| Grammar.ParseNode | src/html_parser.rs:60-65 | a node consumes at least one char and is a parse tree; a text node starts with the char at the cursor |
| Grammar.ParseElement | src/html_parser.rs:72-89 | an element consumes at least one char, and the node is an element and a parse tree |
| Grammar.ParseOpeningTag | src/html_parser.rs:74-77 | the opening tag consumes at least its '<', and its names are letters and digits |
| Grammar.CloseElement | src/html_parser.rs:80-88 | an element ends after its children, and only when the children parsed |
| Grammar.ParseClosingTag | src/html_parser.rs:83-86 | a closing tag consumes at least "</" and '>' |
| Grammar.ClosingTagExact | src/html_parser.rs:83-86 | for a letters-and-digits name, the closing tag succeeds exactly when the input continues with "</" + name + ">", and ends right after it |
| Grammar.NodesSkipWhitespace | src/html_parser.rs:119-129 | siblings parse the same whether or not the whitespace in front of them was skipped first |
| Grammar.ElementShape | src/html_parser.rs:72-89 | a parsed element reads '<', its tag name, its attributes, '>', its children in order and "</" + the same name + ">" |
| Grammar.ElementFromParts | src/html_parser.rs:72-89 | an opening tag, the siblings parsed right after it, and "</" + the same name + ">" right after those, make an element of that name, attributes and children that ends after the closing tag |
| Grammar.StartsWithSplit | src/html_parser.rs:14-16 | input that starts with a + b starts with a, and continues with b |
| Grammar.PlainOpeningTag | src/html_parser.rs:74-77 | `<name>` is an opening tag with no attributes |
| Grammar.NoNodesBeforeClosingTag | src/html_parser.rs:119-129 | where a closing tag begins, there are no siblings to parse |
| Grammar.EmptyElementText | src/html_parser.rs:72-89 | the text `<name></name>` is the opening tag `<name>` followed by "</" + name + ">" |
| Grammar.EmptyElementParses | src/html_parser.rs:72-89 | `<name></name>` parses as an empty element named `name` and ends right after it |
| Grammar.Parse | src/html_parser.rs:131-138 | a document parses exactly when its top-level nodes do; a single top-level node is returned as it is, and any other number is wrapped in an "html" element with no attributes whose children are those nodes in order; the result is a well-formed parse tree |
| HtmlParser.Parser.constructor | src/html_parser.rs:132 | a fresh parser is at position 0 of the source |
| HtmlParser.Parser.NextChar | src/html_parser.rs:10-12 | the char at the cursor, and absent exactly at the end of the input |
| HtmlParser.Parser.StartsWith | src/html_parser.rs:14-16 | whether the unconsumed input has `s` as a prefix |
| HtmlParser.Parser.EndReached | src/html_parser.rs:18-20 | true exactly when the cursor is at the end of the input |
| HtmlParser.Parser.ConsumeChar | src/html_parser.rs:22-28 | the char at the cursor, with the cursor advanced by one; absent at the end of the input |
| HtmlParser.Parser.ConsumeWhile | src/html_parser.rs:34-43 | the cursor moves to where `Grammar.ScanWhile` stops, and the result is exactly the input between the old and the new cursor |
| HtmlParser.Parser.ConsumeWhitespace | src/html_parser.rs:45-47 | the cursor moves past exactly the whitespace `Grammar.SkipWhitespace` skips |
| HtmlParser.Parser.ParseTagName | src/html_parser.rs:53-58 | the name and the new cursor are those of `Grammar.TagName` |
| HtmlParser.Parser.ParseNode | src/html_parser.rs:60-65 | the outcome and the new cursor are those of `Grammar.ParseNode` |
| HtmlParser.Parser.ParseText | src/html_parser.rs:68-70 | the node and the new cursor are those of `Grammar.ParseText` |
| HtmlParser.Parser.ParseElement | src/html_parser.rs:72-89 | the outcome and the new cursor are those of `Grammar.ParseElement` |
| HtmlParser.Parser.ParseOpeningTag | src/html_parser.rs:74-77 | the outcome and the new cursor are those of `Grammar.ParseOpeningTag` |
| HtmlParser.Parser.ParseClosingTag | src/html_parser.rs:83-86 | succeeds exactly when `Grammar.ParseClosingTag` does, and ends where it ends |
| HtmlParser.Parser.ParseAttributes | src/html_parser.rs:91-102 | the map and the new cursor are those of `Grammar.ParseAttributes` |
| HtmlParser.Parser.ParseAttribute | src/html_parser.rs:104-109 | the outcome and the new cursor are those of `Grammar.ParseAttribute` |
| HtmlParser.Parser.ParseAttributeValue | src/html_parser.rs:111-117 | the outcome and the new cursor are those of `Grammar.ParseAttributeValue` |
| HtmlParser.Parser.ParseNodes | src/html_parser.rs:119-129 | the outcome and the new cursor are those of `Grammar.ParseNodes` |
| HtmlParser.Parser.Parse | src/html_parser.rs:131-138 | the document is `Grammar.Parse` of the source |
| Documents.EmptyHtml | src/html_parser.rs:136 | the synthetic root of an empty document is an "html" element with no attributes and no children |
| Documents.HtmlElementParses | src/html_parser.rs:72-89 | `<html></html>` is one empty "html" element of 13 chars |
| Documents.EmptyDocumentIsHtml | src/html_parser.rs:131-138 | the empty input and `<html></html>` parse to the same tree |
| Documents.MismatchedClosingTagFails | src/html_parser.rs:85 | `<a></b>` fails, because the closing name differs from the opening one |
| Documents.StrayClosingTagEndsDocument | src/html_parser.rs:123-125 | a closing tag at the top level ends the document, and nothing after it is read |
| RoundTrip.Pairs | src/html_parser.rs:92-100 | every attribute map is what inserting some list of its own pairs yields, each pair being a name of the map with its value |
| RoundTrip.QuotedParses | src/html_parser.rs:111-117 | a value without '"', written between double quotes, is read back as that value, and the quotes are consumed |
| RoundTrip.NameParses | src/html_parser.rs:53-58 | a letters-and-digits name followed by any other char is read back as exactly that name |
| RoundTrip.AttributeParses | src/html_parser.rs:94-98 | ` name="value"` has its space skipped as whitespace, does not start with '>', and is read back as the pair (name, value) |
| RoundTrip.AttributesParse | src/html_parser.rs:91-102 | written attributes followed by '>' are read back as the same pairs, in order, and stop at the '>' |
| RoundTrip.OpeningTagParses | src/html_parser.rs:74-77 | an opening tag written out for a name and an attribute map is read back as that name and that same map, and ends after its '>' |
| RoundTrip.NodeStart | src/html_parser.rs:60-65 | a written node never starts with whitespace or "</", and starts with '<' exactly when it is an element |
| RoundTrip.TextParses | src/html_parser.rs:67-70 | text followed by '<' or the end of the input is read back as a text node of exactly that content |
| RoundTrip.ElementParses | src/html_parser.rs:72-89 | a written element whose children are read back as themselves is read back as itself, and ends after its closing tag |
| RoundTrip.NodeParses | src/html_parser.rs:60-65 | a written node is read back as itself, text being followed by '<' or the end of the input |
| RoundTrip.NoSiblings | src/html_parser.rs:121-125 | at the end of the input or at "</" there are no siblings to read |
| RoundTrip.ForestParses | src/html_parser.rs:119-129 | written siblings followed by the end of the input or by "</" are read back as the same siblings, in order |
| RoundTrip.ParseSerialize | src/html_parser.rs:131-138 | a parse tree with quote-free attribute values and no adjacent text siblings, written out as markup, is parsed back as that same tree |
| Findings.ConsumeCharAsWritten | src/html_parser.rs:22-28 | the code as written fails only on empty input, and always advances the cursor by one char |
| Findings.ConsumeWhileAsWritten | src/html_parser.rs:22-43 | with `consume_char` as written, a scan stops where it should, but every char it collects is the input's first |
| Findings.TagNameAsWritten | src/html_parser.rs:22-28 | in `<a></a>`, the tag name read with `consume_char` as written is "<", not "a" |

## Left out

- UTF-8: positions count chars, not bytes. The byte-width arithmetic of `next_char`,
  `starts_with` and `consume_char` is not modelled. Neither is slicing a `String` in the middle of
  a char.
- Panics: the Rust code aborts on a failed `assert_eq!`/`assert!` or `unwrap`. The model returns a
  failure without a message, and a failed parse yields no partial tree.
- `HashMap` and `HashSet` are Dafny `map` and `set`. Hashing and iteration order are not modelled.
- The `#[derive(Debug)]` printing, ownership and borrowing, and the mechanics of `swap_remove` are
  not modelled; only the node that `swap_remove(0)` returns is.
- `parse_node` calls `parse_text()` without `self.` (src/html_parser.rs:63), which does not
  compile. The model calls the method on the parser, as evidently intended.
- `AttributeMap` is private to `dom.rs` (src/dom.rs:3) yet named from `html_parser.rs`. The model
  has a single public `Dom.AttributeMap`.
- `parse` takes a parser but ignores it and builds a fresh one (src/html_parser.rs:131-132). It is
  modelled as the static method `HtmlParser.Parser.Parse`, with the function `Grammar.Parse` of
  the source alone.
- HtmlParser.Parser.ParseElement: the opening-tag and closing-tag steps are grouped into the
  helper methods `ParseOpeningTag` and `ParseClosingTag`, which the Rust code does not have. They
  consume the same chars in the same order and fail in the same cases.
- Grammar.AttributesNeedClosingBracket: states only that input without any later '>' fails. It
  does not characterise every other way the attributes can fail.
- RoundTrip.ParseSerialize: the round trip does not cover attribute values that hold a '"',
  because `Serialize` always writes values between double quotes. It does not cover adjacent text
  siblings either, because the parser reads adjacent texts back as one node.

## Findings

| source | as written | input that shows it | evidently intended | confidence | as-written member | corrected member |
|---|---|---|---|---|---|---|
| src/html_parser.rs:22-28 | `consume_char` iterates over the whole input from its start, so it always returns the input's first char while it advances the cursor | the tag name in `<a></a>` after the '<' at position 1 comes out as "<" instead of "a" | return the char at the cursor and advance past it, as `next_char` reads it | high, not executed | Findings.TagNameAsWritten | HtmlParser.Parser.ConsumeChar |
