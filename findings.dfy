/**
 * `consume_char` in src/html_parser.rs:22-28 reads the chars of the whole
 * input from its start, not from the cursor: it always returns the first
 * char of the input and then advances the cursor by that char's width (one
 * char here). It should return the char at the cursor, which is what
 * `HtmlParser.Parser.ConsumeChar` does and what the rest of the model uses.
 */
module Findings {
  import opened Wrappers
  import Grammar

  /** `consume_char` as written: the input's first char, and the cursor moved one char on; panics on empty input. */
  function ConsumeCharAsWritten(data: string, position: nat): (r: Option<(char, nat)>)
    ensures r.Some? <==> |data| > 0
    ensures r.Some? ==> r.value.1 == position + 1
  {
    if data == [] then None else Some((data[0], position + 1))
  }

  /**
   * `consume_while` built on `consume_char` as written: it stops at the
   * right place, since it tests the char at the cursor, but every char it
   * collects is the input's first one.
   */
  function ConsumeWhileAsWritten(data: string, pos: nat, test: char -> bool): (r: (string, nat))
    requires pos <= |data|
    ensures r.1 == Grammar.ScanWhile(data, pos, test)
    ensures |r.0| == r.1 - pos && forall c | c in r.0 :: c == data[0]
    decreases |data| - pos
  {
    if pos < |data| && test(data[pos]) then
      var (c, next) := ConsumeCharAsWritten(data, pos).value;
      var rest := ConsumeWhileAsWritten(data, next, test);
      ([c] + rest.0, rest.1)
    else ([], pos)
  }

  /**
   * In `<a></a>` the tag name after the '<' is "a", but scanned with
   * `consume_char` as written it comes out as "<": the input's first char.
   * The char at the cursor, as `Grammar.TagName` reads it, is the intended one.
   */
  lemma TagNameAsWritten()
    ensures ConsumeWhileAsWritten("<a></a>", 1, Grammar.IsTagChar) == ("<", 2)
    ensures Grammar.TagName("<a></a>", 1) == Grammar.Ok("a", 2)
  {
    var data := "<a></a>";
    assert Grammar.ScanWhile(data, 1, Grammar.IsTagChar) == 2 by {
      assert Grammar.IsTagChar(data[1]) && !Grammar.IsTagChar(data[2]);
      Grammar.ScanWhileUnique(data, 1, Grammar.IsTagChar, 2);
    }
    assert data[1..2] == "a";
    var r := ConsumeWhileAsWritten(data, 1, Grammar.IsTagChar);
    assert r.0[0] in r.0;
    assert r.0 == "<";
  }
}
