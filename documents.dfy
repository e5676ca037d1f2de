/**
 * Whole documents: what `parse` (src/html_parser.rs:131-138) makes of a few
 * inputs that show how the top level is read.
 */
module Documents {
  import opened Wrappers
  import opened Dom
  import opened Grammar

  /** The document with no nodes at all, a synthetic empty "html" element. */
  function EmptyHtml(): (n: Node)
    ensures n.nodeType.Element? && n.nodeType.element.tagName == "html"
    ensures n.nodeType.element.attributes == map[] && n.children == []
  {
    ElementNode("html", map[], [])
  }

  /** The text `<html></html>` is one empty "html" element. */
  lemma HtmlElementParses()
    ensures ParseElement("<html></html>", 0) == Ok(EmptyHtml(), 13)
  {
    var data := "<html></html>";
    assert data == "<" + "html" + ">" + ("</" + "html" + ">");
    assert data[0..|data|] == data;
    EmptyElementParses(data, 0, "html");
  }

  /**
   * The empty input and the input `<html></html>` parse to the same tree:
   * the synthetic root cannot be told apart from a written one.
   */
  lemma EmptyDocumentIsHtml()
    ensures Parse("") == Some(EmptyHtml())
    ensures Parse("<html></html>") == Some(EmptyHtml())
  {
    var data := "<html></html>";
    HtmlElementParses();
    assert ScanWhile(data, 0, IsWhitespace) == 0;
    assert !StartsWith(data, 0, "</");
    assert ParseNodes(data, 13) == Ok([], 13);
    assert [EmptyHtml()] + [] == [EmptyHtml()];
  }

  /** A closing tag whose name differs from the opening one makes the whole parse fail. */
  lemma MismatchedClosingTagFails()
    ensures Parse("<a></b>") == None
  {
    var data := "<a></b>";
    assert StartsWith(data, 0, "<" + "a" + ">");
    PlainOpeningTag(data, 0, "a");
    assert StartsWith(data, 3, "</");
    NoNodesBeforeClosingTag(data, 3);
    ClosingTagExact(data, 3, "a");
    assert !StartsWith(data, 3, "</" + "a" + ">");
    assert ParseElement(data, 0) == Fail;
    assert ScanWhile(data, 0, IsWhitespace) == 0;
    assert !StartsWith(data, 0, "</");
  }

  /** A closing tag at the top level ends the document: what follows it is never read. */
  lemma StrayClosingTagEndsDocument(rest: string)
    ensures Parse("</p>" + rest) == Some(EmptyHtml())
  {
    var data := "</p>" + rest;
    assert data[0] == '<';
    assert ScanWhile(data, 0, IsWhitespace) == 0;
    assert data[0..2] == "</";
    NoNodesBeforeClosingTag(data, 0);
  }
}
