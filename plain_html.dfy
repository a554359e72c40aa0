/**
 * The conversion of a plain-text article into HTML (`generate_post`, when the answer to
 * the JSON prompt could not be parsed): the text is cut at blank lines into paragraphs;
 * a paragraph that starts with a dash or an asterisk becomes a bullet list with one item
 * per non-empty line, any other becomes a `<p>` element. Nothing is escaped.
 */
module PlainHtml {
  import opened Wrappers
  import opened PyText

  /** One element of the produced HTML. */
  datatype Block = Paragraph(text: string) | BulletList(items: seq<string>)

  /** The text of a bullet line: stripped, then its leading dashes and then its leading
      asterisks removed, then stripped again. */
  function ItemText(line: string): string {
    Strip(LStrip(LStrip(Strip(line), {'-'}), {'*'}))
  }

  /** The cleaned text of every line. */
  function ItemTexts(lines: seq<string>): (r: seq<string>)
    ensures |r| == |lines|
  {
    seq(|lines|, k requires 0 <= k < |lines| => ItemText(lines[k]))
  }

  /** The strings that are not empty, in order. */
  function NonEmpty(texts: seq<string>): seq<string>
    decreases |texts|
  {
    if texts == [] then []
    else NonEmpty(texts[..|texts| - 1]) + (if texts[|texts| - 1] != "" then [texts[|texts| - 1]] else [])
  }

  /** The items of a bullet list: the texts of the lines that are not empty once cleaned. */
  function ListItems(lines: seq<string>): seq<string> {
    NonEmpty(ItemTexts(lines))
  }

  /** A paragraph (after stripping) opens a bullet list. */
  predicate IsBulleted(para: string) {
    StartsWith(para, "-") || StartsWith(para, "*")
  }

  /** The element one chunk of text becomes; a blank chunk becomes nothing. */
  function BlockOf(chunk: string): Option<Block> {
    var para := Strip(chunk);
    if para == "" then None
    else if IsBulleted(para) then Some(BulletList(ListItems(SplitOn(para, "\n"))))
    else Some(Paragraph(para))
  }

  /** The element of every chunk. */
  function BlockOfEach(chunks: seq<string>): (r: seq<Option<Block>>)
    ensures |r| == |chunks|
  {
    seq(|chunks|, k requires 0 <= k < |chunks| => BlockOf(chunks[k]))
  }

  /** The elements that are present, in order. */
  function Present(opts: seq<Option<Block>>): seq<Block>
    decreases |opts|
  {
    if opts == [] then []
    else
      Present(opts[..|opts| - 1]) +
      match opts[|opts| - 1]
      case Some(b) => [b]
      case None => []
  }

  /** The elements of the chunks, in order. */
  function Blocks(chunks: seq<string>): seq<Block> {
    Present(BlockOfEach(chunks))
  }

  /** `<li>text</li>` */
  function Item(text: string): string {
    "<li>" + text + "</li>"
  }

  function RenderItems(items: seq<string>): string
    decreases |items|
  {
    if items == [] then ""
    else RenderItems(items[..|items| - 1]) + Item(items[|items| - 1])
  }

  function Render(b: Block): string {
    match b
    case Paragraph(text) => "<p>" + text + "</p>"
    case BulletList(items) => "<ul>" + RenderItems(items) + "</ul>"
  }

  function RenderAll(blocks: seq<Block>): string
    decreases |blocks|
  {
    if blocks == [] then ""
    else RenderAll(blocks[..|blocks| - 1]) + Render(blocks[|blocks| - 1])
  }

  /** The chunks of an answer: the stripped answer cut at every blank line. */
  function Chunks(answer: string): seq<string> {
    SplitOn(Strip(answer), "\n\n")
  }

  /** The HTML body made from a plain-text answer. */
  function Html(answer: string): string {
    RenderAll(Blocks(Chunks(answer)))
  }

  /** The rendering of a chunk's element, or nothing for a blank chunk. */
  function RenderOpt(o: Option<Block>): string {
    match o
    case Some(b) => Render(b)
    case None => ""
  }

  lemma NonEmptySnoc(texts: seq<string>, t: string)
    ensures NonEmpty(texts + [t]) == NonEmpty(texts) + (if t != "" then [t] else [])
  {
    assert (texts + [t])[..|texts|] == texts;
  }

  lemma RenderItemsSnoc(items: seq<string>, t: string)
    ensures RenderItems(items + [t]) == RenderItems(items) + Item(t)
  {
    assert (items + [t])[..|items|] == items;
  }

  /** Concatenation regrouped; kept as a lemma so that the item step's proof does not see
      the rendering functions' bodies when it regroups. */
  lemma AppendAssoc(a: string, b: string, c: string)
    ensures a + (b + c) == a + b + c
  {
  }

  /** One more line adds its item when its cleaned text is not empty. */
  lemma ItemsStep(texts: seq<string>, j: nat)
    requires j < |texts|
    ensures RenderItems(NonEmpty(texts[..j + 1])) ==
            RenderItems(NonEmpty(texts[..j])) + (if texts[j] != "" then Item(texts[j]) else "")
  {
    var t := texts[j];
    var items := NonEmpty(texts[..j]);
    assert texts[..j + 1] == texts[..j] + [t];
    NonEmptySnoc(texts[..j], t);
    if t != "" {
      RenderItemsSnoc(items, t);
    } else {
      assert items + [] == items;
      assert RenderItems(items) + "" == RenderItems(items);
    }
  }

  lemma ItemsStepAfter(html: string, texts: seq<string>, j: nat, out: string)
    requires j < |texts| && out == html + RenderItems(NonEmpty(texts[..j]))
    ensures out + (if texts[j] != "" then Item(texts[j]) else "") ==
            html + RenderItems(NonEmpty(texts[..j + 1]))
  {
    ItemsStep(texts, j);
    AppendAssoc(html, RenderItems(NonEmpty(texts[..j])), if texts[j] != "" then Item(texts[j]) else "");
  }

  /** One more chunk adds the rendering of its element, if it has one. */
  lemma BlocksStep(opts: seq<Option<Block>>, i: nat)
    requires i < |opts|
    ensures RenderAll(Present(opts[..i + 1])) == RenderAll(Present(opts[..i])) + RenderOpt(opts[i])
  {
    var done := Present(opts[..i]);
    assert opts[..i + 1] == opts[..i] + [opts[i]];
    assert (opts[..i] + [opts[i]])[..i] == opts[..i];
    match opts[i]
    case Some(b) =>
      assert (done + [b])[..|done|] == done;
    case None =>
      assert done + [] == done;
      assert RenderAll(done) + "" == RenderAll(done);
  }

  lemma BlocksStepAfter(html: string, opts: seq<Option<Block>>, i: nat)
    requires i < |opts| && html == RenderAll(Present(opts[..i]))
    ensures html + RenderOpt(opts[i]) == RenderAll(Present(opts[..i + 1]))
  {
    BlocksStep(opts, i);
  }

  /** Opening a list, appending its items and closing it renders the list. */
  lemma ListRendering(html: string, items: seq<string>)
    ensures html + "<ul>" + RenderItems(items) + "</ul>" == html + Render(BulletList(items))
  {
    var body := RenderItems(items);
    assert html + ("<ul>" + body + "</ul>") == html + "<ul>" + body + "</ul>";
  }

  /** Appending a paragraph element renders the paragraph. */
  lemma ParagraphRendering(html: string, para: string)
    ensures html + "<p>" + para + "</p>" == html + Render(Paragraph(para))
  {
    assert html + ("<p>" + para + "</p>") == html + "<p>" + para + "</p>";
  }

  /** Appends the list items of the bullet lines `lines`, line by line. */
  method AppendItems(html: string, lines: seq<string>) returns (out: string)
    ensures out == html + RenderItems(ListItems(lines))
  {
    ghost var texts := ItemTexts(lines);
    out := html;
    var j := 0;
    while j < |lines|
      invariant 0 <= j <= |lines|
      invariant out == html + RenderItems(NonEmpty(texts[..j]))
    {
      var line := ItemText(lines[j]);
      ItemsStepAfter(html, texts, j, out);
      if line != "" {
        out := out + Item(line);
      }
      j := j + 1;
    }
    assert texts[..j] == texts;
  }

  /** Appends the element of one chunk of text: nothing for a blank chunk, a bullet list
      for a chunk that starts with a dash or an asterisk once stripped, a paragraph
      otherwise. */
  method AppendChunk(html: string, chunk: string) returns (out: string)
    ensures out == html + RenderOpt(BlockOf(chunk))
  {
    out := html;
    var para := Strip(chunk);
    if para != "" {
      if StartsWith(para, "-") || StartsWith(para, "*") {
        var lines := SplitOn(para, "\n");
        ListRendering(html, ListItems(lines));
        out := out + "<ul>";
        out := AppendItems(out, lines);
        out := out + "</ul>";
      } else {
        ParagraphRendering(html, para);
        out := out + "<p>" + para + "</p>";
      }
    } else {
      assert out + "" == out;
    }
  }

  /** Builds the HTML body of a plain-text answer, paragraph by paragraph. */
  method ConvertToHtml(answer: string) returns (html: string)
    ensures html == Html(answer)
  {
    var chunks := Chunks(answer);
    ghost var opts := BlockOfEach(chunks);
    html := "";
    var i := 0;
    while i < |chunks|
      invariant 0 <= i <= |chunks|
      invariant html == RenderAll(Present(opts[..i]))
    {
      BlocksStepAfter(html, opts, i);
      html := AppendChunk(html, chunks[i]);
      i := i + 1;
    }
    assert opts[..i] == opts;
  }

  // ---------------------------------------------------------------------------
  // What the produced HTML looks like

  /** What every element of the body satisfies: a paragraph is stripped, not empty, does
      not open a list and holds no blank line; a list item is stripped, not empty and one
      line long. */
  predicate WellFormed(b: Block) {
    match b
    case Paragraph(text) =>
      text != "" && Strip(text) == text && !IsBulleted(text) && !Contains(text, "\n\n")
    case BulletList(items) =>
      forall k :: 0 <= k < |items| ==> items[k] != "" && Strip(items[k]) == items[k] && NoneIn(items[k], {'\n'})
  }

  /** The filter keeps exactly the strings that are not empty. */
  lemma {:induction false} NonEmptyMembers(texts: seq<string>)
    ensures forall x :: x in NonEmpty(texts) <==> x != "" && x in texts
    decreases |texts|
  {
    if texts != [] {
      var init, last := texts[..|texts| - 1], texts[|texts| - 1];
      assert texts == init + [last];
      NonEmptyMembers(init);
    }
  }

  /** The elements that are kept are exactly the present ones. */
  lemma {:induction false} PresentMembers(opts: seq<Option<Block>>)
    ensures forall b :: b in Present(opts) <==> Some(b) in opts
    decreases |opts|
  {
    if opts != [] {
      var init, last := opts[..|opts| - 1], opts[|opts| - 1];
      assert opts == init + [last];
      PresentMembers(init);
    }
  }

  /** The text of a one-line bullet is stripped and still one line. */
  lemma ItemTextShape(line: string)
    requires NoneIn(line, {'\n'})
    ensures Strip(ItemText(line)) == ItemText(line)
    ensures NoneIn(ItemText(line), {'\n'})
  {
    var a := LStrip(Strip(line), {'-'});
    var b := LStrip(a, {'*'});
    StripIdempotent(b, Whitespace);
    StripKeepsNoneIn(line, Whitespace, {'\n'});
    LStripKeepsNoneIn(Strip(line), {'-'}, {'\n'});
    LStripKeepsNoneIn(a, {'*'}, {'\n'});
    StripKeepsNoneIn(b, Whitespace, {'\n'});
  }

  /** A chunk without a blank line becomes a well-formed element, if any. */
  lemma ChunkElement(chunk: string)
    requires !Contains(chunk, "\n\n")
    ensures BlockOf(chunk).Some? ==> WellFormed(BlockOf(chunk).value)
  {
    var para := Strip(chunk);
    StripIdempotent(chunk, Whitespace);
    StripKeepsAbsence(chunk, Whitespace, "\n\n");
    if para != "" && IsBulleted(para) {
      var lines := SplitOn(para, "\n");
      var texts := ItemTexts(lines);
      var items := NonEmpty(texts);
      NonEmptyMembers(texts);
      forall k | 0 <= k < |items|
        ensures items[k] != "" && Strip(items[k]) == items[k] && NoneIn(items[k], {'\n'})
      {
        assert items[k] in NonEmpty(texts);
        var m :| 0 <= m < |texts| && texts[m] == items[k];
        AbsentChar(lines[m], '\n');
        ItemTextShape(lines[m]);
      }
    }
  }

  /** Every element of the body of an answer is well formed. */
  lemma BlocksWellFormed(answer: string)
    ensures forall b :: b in Blocks(Chunks(answer)) ==> WellFormed(b)
  {
    var chunks := Chunks(answer);
    var opts := BlockOfEach(chunks);
    PresentMembers(opts);
    forall b | b in Blocks(chunks) ensures WellFormed(b) {
      var k :| 0 <= k < |opts| && opts[k] == Some(b);
      ChunkElement(chunks[k]);
    }
  }

  /** The rendering of the elements of one chunk. */
  lemma RenderOne(o: Option<Block>)
    ensures RenderAll(Present([o])) == RenderOpt(o)
  {
    var opts := [o];
    if o.Some? {
      var b := o.value;
      assert Present(opts) == [b] by {
        assert opts[..0] == [];
      }
      assert RenderAll([b]) == Render(b) by {
        assert [b][..0] == [];
        assert "" + Render(b) == Render(b);
      }
    } else {
      assert Present(opts) == [] by {
        assert opts[..0] == [];
      }
    }
  }

  /** A stripped text without a blank line is one chunk. */
  lemma SingleChunk(p: string)
    requires Strip(p) == p && !Contains(p, "\n\n")
    ensures Html(p) == RenderOpt(BlockOf(p))
  {
    assert Chunks(p) == [p];
    assert BlockOfEach([p]) == [BlockOf(p)];
    RenderOne(BlockOf(p));
  }

  /** A well-formed paragraph comes out verbatim between `<p>` and `</p>`: markup in it is
      not escaped. */
  lemma PlainParagraph(text: string)
    requires WellFormed(Paragraph(text))
    ensures Html(text) == "<p>" + text + "</p>"
  {
    SingleChunk(text);
  }

  /** A bulleted paragraph made of one-line bullets becomes one list holding the cleaned,
      non-empty bullets in order. */
  lemma BulletParagraph(lines: seq<string>)
    requires lines != [] && forall k :: 0 <= k < |lines| ==> NoneIn(lines[k], {'\n'})
    requires Strip(Join("\n", lines)) == Join("\n", lines)
    requires IsBulleted(Join("\n", lines)) && !Contains(Join("\n", lines), "\n\n")
    ensures Html(Join("\n", lines)) == "<ul>" + RenderItems(ListItems(lines)) + "</ul>"
  {
    var p := Join("\n", lines);
    SplitOnJoin('\n', lines);
    assert SplitOn(p, "\n") == lines;
    SingleChunk(p);
  }

  lemma RenderAllNonEmpty(blocks: seq<Block>)
    requires blocks != []
    ensures RenderAll(blocks) != ""
  {
    var last := blocks[|blocks| - 1];
    assert Render(last)[0] == '<';
  }

  /** The body is empty exactly when the answer is blank. */
  lemma EmptyIffBlank(answer: string)
    ensures Html(answer) == "" <==> AllIn(answer, Whitespace)
  {
    var text := Strip(answer);
    var chunks := Chunks(answer);
    var opts := BlockOfEach(chunks);
    var _ := StripCharsSlice(answer, Whitespace);
    if AllIn(answer, Whitespace) {
      assert text == "";
      assert Strip("") == "";
      SingleChunk("");
    } else {
      assert text[0] !in Whitespace;
      JoinSplitOn(text, "\n\n");
      var k := NonBlankPart("\n\n", chunks);
      StripEmptyIff(chunks[k]);
      var b := BlockOf(chunks[k]).value;
      assert opts[k] == Some(b);
      PresentMembers(opts);
      assert b in Present(opts);
      RenderAllNonEmpty(Present(opts));
    }
  }
}
