/**
 * The callout transform of the blog's Markdown pipeline (`remarkCallout`).
 *
 * A run of top-level paragraphs `:::type [title]` … `:::` becomes one raw
 * HTML node holding a `<div class="callout …">` wrapper around the blocks
 * between the two marker paragraphs. This module holds the syntax tree, the
 * two text extractors, the block renderer, the marker patterns and the
 * callout types; the scan and the splice are in module `CalloutTransform`.
 */
module RemarkCallout {
  import opened Wrappers
  import opened Strings
  import opened HtmlEscape

  // ----- the Markdown syntax tree (the node kinds the transform tells apart) -----

  datatype Inline =
    | Text(value: string)
    | InlineCode(value: string)
    | Strong(children: seq<Inline>)
    | Emphasis(children: seq<Inline>)
    | Delete(children: seq<Inline>)
    | Link(url: string, children: seq<Inline>)
    | Image(url: string, alt: string)
    | Break
    | InlineHtml(value: string)

  datatype Block =
    | Paragraph(inlines: seq<Inline>)
    | Heading(depth: nat, inlines: seq<Inline>)
    | Code(lang: Option<string>, meta: Option<string>, value: string)
    | List(ordered: bool, items: seq<ListItem>)
    | Blockquote(blocks: seq<Block>)
    | ThematicBreak
    | Html(value: string)

  datatype ListItem = ListItem(blocks: seq<Block>)

  // ----- extractAllText: the flattened text of a node -----

  function InlineText(i: Inline): string
    decreases i
  {
    match i
    case Text(v) => v
    case InlineCode(v) => v
    case Strong(ch) => InlinesText(ch)
    case Emphasis(ch) => InlinesText(ch)
    case Delete(ch) => InlinesText(ch)
    case Link(_, ch) => InlinesText(ch)
    case _ => ""
  }

  function InlinesText(xs: seq<Inline>): string
    decreases xs
  {
    if |xs| == 0 then "" else InlineText(xs[0]) + InlinesText(xs[1..])
  }

  // ----- extractHtmlFromNode: inline formatting kept, text escaped -----

  /** An HTML tag: `t` between angle brackets. */
  function Tag(t: string): string {
    "<" + t + ">"
  }

  function InlineToHtml(i: Inline): string
    decreases i
  {
    match i
    case Text(v) => EscapeHtml(v)
    case InlineCode(v) => Tag("code") + EscapeHtml(v) + Tag("/code")
    case Strong(ch) => Tag("strong") + InlinesToHtml(ch) + Tag("/strong")
    case Emphasis(ch) => Tag("em") + InlinesToHtml(ch) + Tag("/em")
    case Delete(ch) => InlinesToHtml(ch)
    case Link(url, ch) => Tag("a href=\"" + EscapeHtml(url) + "\"") + InlinesToHtml(ch) + Tag("/a")
    case _ => ""
  }

  function InlinesToHtml(xs: seq<Inline>): string
    decreases xs
  {
    if |xs| == 0 then "" else InlineToHtml(xs[0]) + InlinesToHtml(xs[1..])
  }

  /** `extractHtmlFromNode` applied to a block: the inline HTML of all its descendants. */
  function BlockFlatHtml(b: Block): string
    decreases b
  {
    match b
    case Paragraph(xs) => InlinesToHtml(xs)
    case Heading(_, xs) => InlinesToHtml(xs)
    case List(_, items) => ItemsFlatHtml(items)
    case Blockquote(bs) => BlocksFlatHtml(bs)
    case _ => ""
  }

  function BlocksFlatHtml(bs: seq<Block>): string
    decreases bs
  {
    if |bs| == 0 then "" else BlockFlatHtml(bs[0]) + BlocksFlatHtml(bs[1..])
  }

  function ItemFlatHtml(it: ListItem): string
    decreases it
  {
    BlocksFlatHtml(it.blocks)
  }

  function ItemsFlatHtml(items: seq<ListItem>): string
    decreases items
  {
    if |items| == 0 then "" else ItemFlatHtml(items[0]) + ItemsFlatHtml(items[1..])
  }

  // ----- the text a reader sees in HTML -----

  /** The character data of an HTML fragment: everything outside `<…>` tags. */
  function TextContent(h: string): string
    decreases |h|
  {
    if |h| == 0 then ""
    else if h[0] == '<' then (if '>' in h then TextContent(h[IndexOf(h, '>') + 1..]) else "")
    else [h[0]] + TextContent(h[1..])
  }

  lemma TextContentTag(t: string, rest: string)
    requires '>' !in t
    ensures TextContent(Tag(t) + rest) == TextContent(rest)
  {
    var h := Tag(t) + rest;
    assert h[|t| + 1] == '>';
    assert '>' in h;
    assert h[..|t| + 1] == "<" + t;
    assert IndexOf(h, '>') == |t| + 1;
    assert h[|t| + 2..] == rest;
  }

  /** Text between an opening and a closing tag. */
  lemma WrappedTextContent(t: string, inner: string, c: string, rest: string, innerText: string)
    requires '>' !in t && '>' !in c
    requires TextContent(inner + (Tag(c) + rest)) == innerText + TextContent(Tag(c) + rest)
    ensures TextContent(Tag(t) + inner + Tag(c) + rest) == innerText + TextContent(rest)
  {
    var a, d := Tag(t), Tag(c);
    var h := inner + (d + rest);
    assert a + inner + d + rest == a + h;
    TextContentTag(t, h);
    TextContentTag(c, rest);
  }

  lemma {:induction false} TextContentPlain(x: string, rest: string)
    requires '<' !in x
    ensures TextContent(x + rest) == x + TextContent(rest)
  {
    if |x| > 0 {
      assert (x + rest)[0] == x[0];
      assert (x + rest)[1..] == x[1..] + rest;
      TextContentPlain(x[1..], rest);
      assert x == [x[0]] + x[1..];
    } else {
      assert x + rest == rest;
    }
  }

  lemma EscapedText(v: string)
    ensures EscapeHtml(v) == EscapeEach(v)
    ensures '<' !in EscapeHtml(v) && '>' !in EscapeHtml(v)
  {
    EscapeHtmlIsPerCharacter(v);
    EscapedHasNoMarkup(v);
  }

  /**
   * Text, inline code and link URLs are always escaped: the character data
   * of the rendered HTML is the escaped flattened text (followed by whatever
   * follows it).
   */
  lemma {:induction false} InlineTextContent(i: Inline, rest: string)
    ensures TextContent(InlineToHtml(i) + rest) == EscapeEach(InlineText(i)) + TextContent(rest)
    decreases i, 2
  {
    match i
    case Text(v) =>
      EscapedText(v);
      TextContentPlain(EscapeHtml(v), rest);
    case InlineCode(v) =>
      EscapedText(v);
      TextContentPlain(EscapeHtml(v), Tag("/code") + rest);
      WrappedTextContent("code", EscapeHtml(v), "/code", rest, EscapeEach(v));
    case Strong(ch) =>
      WrappedChildrenTextContent("strong", ch, "/strong", rest);
    case Emphasis(ch) =>
      WrappedChildrenTextContent("em", ch, "/em", rest);
    case Delete(ch) =>
      InlinesTextContent(ch, rest);
    case Link(url, ch) =>
      EscapedText(url);
      WrappedChildrenTextContent("a href=\"" + EscapeHtml(url) + "\"", ch, "/a", rest);
    case Image(_, _) =>
      assert InlineToHtml(i) + rest == rest;
    case Break =>
      assert InlineToHtml(i) + rest == rest;
    case InlineHtml(_) =>
      assert InlineToHtml(i) + rest == rest;
  }

  lemma {:induction false} WrappedChildrenTextContent(t: string, ch: seq<Inline>, c: string, rest: string)
    requires '>' !in t && '>' !in c
    ensures TextContent(Tag(t) + InlinesToHtml(ch) + Tag(c) + rest)
            == EscapeEach(InlinesText(ch)) + TextContent(rest)
    decreases ch, 1
  {
    InlinesTextContent(ch, Tag(c) + rest);
    WrappedTextContent(t, InlinesToHtml(ch), c, rest, EscapeEach(InlinesText(ch)));
  }

  lemma {:induction false} InlinesTextContent(xs: seq<Inline>, rest: string)
    ensures TextContent(InlinesToHtml(xs) + rest) == EscapeEach(InlinesText(xs)) + TextContent(rest)
    decreases xs, 0
  {
    if |xs| == 0 {
      assert InlinesToHtml(xs) + rest == rest;
    } else {
      var a, b := InlineToHtml(xs[0]), InlinesToHtml(xs[1..]);
      var t0, t1 := InlineText(xs[0]), InlinesText(xs[1..]);
      ConcatAssoc(a, b, rest);
      InlineTextContent(xs[0], b + rest);
      InlinesTextContent(xs[1..], rest);
      ConcatAssoc(EscapeEach(t0), EscapeEach(t1), TextContent(rest));
      EscapeEachConcat(t0, t1);
    }
  }

  /** Decoding the character data of rendered inline HTML gives back the flattened text. */
  lemma InlineHtmlKeepsText(xs: seq<Inline>)
    ensures UnescapeHtml(TextContent(InlinesToHtml(xs))) == InlinesText(xs)
  {
    var h, x := InlinesToHtml(xs), InlinesText(xs);
    InlinesTextContent(xs, "");
    assert h + "" == h;
    assert TextContent("") == "";
    assert TextContent(h) == EscapeEach(x) + "";
    assert EscapeEach(x) + "" == EscapeEach(x);
    UnescapeEscapeEach(x);
  }

  // ----- the block renderer of a callout body -----

  /** `node.lang || ''`. */
  function LangOrEmpty(lang: Option<string>): string {
    if lang.Some? then lang.value else ""
  }

  /** Paragraphs, code blocks and lists are rendered; every other block renders as "". */
  predicate IsRendered(b: Block) {
    b.Paragraph? || b.Code? || b.List?
  }

  function ListItemsHtml(items: seq<ListItem>): string
  {
    if |items| == 0 then "" else "<li>" + ItemFlatHtml(items[0]) + "</li>" + ListItemsHtml(items[1..])
  }

  function RenderBlock(b: Block): (h: string)
    ensures h != "" <==> IsRendered(b)
  {
    match b
    case Paragraph(xs) => "<p>" + InlinesToHtml(xs) + "</p>"
    case Code(lang, _, v) =>
      "<pre><code class=\"language-" + LangOrEmpty(lang) + "\">" + EscapeHtml(v) + "</code></pre>"
    case List(ordered, items) =>
      var tag := if ordered then "ol" else "ul";
      "<" + tag + ">" + ListItemsHtml(items) + "</" + tag + ">"
    case _ => ""
  }

  /** `map(render).filter(Boolean)`. */
  function RenderedBlocks(bs: seq<Block>): seq<string>
  {
    if |bs| == 0 then []
    else (if RenderBlock(bs[0]) != "" then [RenderBlock(bs[0])] else []) + RenderedBlocks(bs[1..])
  }

  /** The blocks that survive the renderer, in order. */
  function KeptBlocks(bs: seq<Block>): (r: seq<Block>)
    ensures forall k :: 0 <= k < |r| ==> IsRendered(r[k])
  {
    if |bs| == 0 then []
    else (if IsRendered(bs[0]) then [bs[0]] else []) + KeptBlocks(bs[1..])
  }

  /**
   * Every block other than a paragraph, a code block or a list is dropped:
   * the rendered pieces are exactly the kept blocks, rendered one by one.
   */
  lemma {:induction false} RenderedBlocksAreKept(bs: seq<Block>)
    ensures |RenderedBlocks(bs)| == |KeptBlocks(bs)|
    ensures forall k :: 0 <= k < |KeptBlocks(bs)| ==>
              RenderedBlocks(bs)[k] == RenderBlock(KeptBlocks(bs)[k]) != ""
  {
    if |bs| > 0 {
      RenderedBlocksAreKept(bs[1..]);
    }
  }

  /** The content HTML: the rendered blocks joined by newlines. */
  function BodyHtml(bs: seq<Block>): string {
    Join(RenderedBlocks(bs), "\n")
  }

  // ----- the callout types -----

  datatype CalloutType = Note | Tip | Warning | Caution | Important

  /** The keyword after `:::`. */
  function TypeName(t: CalloutType): string {
    match t
    case Note => "note"
    case Tip => "tip"
    case Warning => "warning"
    case Caution => "caution"
    case Important => "important"
  }

  /** The default title. */
  function Label(t: CalloutType): string {
    match t
    case Note => "Note"
    case Tip => "Tip"
    case Warning => "Warning"
    case Caution => "Caution"
    case Important => "Important"
  }

  function Icon(t: CalloutType): string {
    match t
    case Note => "\U{2139}\U{FE0F}"
    case Tip => "\U{1F4A1}"
    case Warning => "\U{26A0}\U{FE0F}"
    case Caution => "\U{1F6A8}"
    case Important => "\U{2757}"
  }

  /** The callout type whose keyword begins `s`, trying the alternatives in pattern order. */
  function KeywordAt(s: string): (r: Option<CalloutType>)
    ensures r.Some? ==> TypeName(r.value) <= s
    ensures r.None? ==> forall t :: !(TypeName(t) <= s)
  {
    if "note" <= s then Some(Note)
    else if "tip" <= s then Some(Tip)
    else if "warning" <= s then Some(Warning)
    else if "caution" <= s then Some(Caution)
    else if "important" <= s then Some(Important)
    else None
  }

  /** The keywords begin with five different letters, so at most one begins a text. */
  lemma KeywordUnique(t: CalloutType, s: string)
    requires TypeName(t) <= s
    ensures KeywordAt(s) == Some(t)
  {
    assert s[0] == TypeName(t)[0];
  }

  // ----- the marker patterns -----

  /** What an opening marker carries: the callout type and the optional title. */
  datatype StartMarker = StartMarker(kind: CalloutType, title: Option<string>)

  predicate AllSpace(ws: string) {
    forall i :: 0 <= i < |ws| ==> IsSpace(ws[i])
  }

  predicate NoLineTerminator(s: string) {
    forall i :: 0 <= i < |s| ==> !IsLineTerminator(s[i])
  }

  /**
   * `START_PATTERN`, `^:::(note|tip|warning|caution|important)(?:\s+(.*))?$`,
   * applied to a whole text.
   */
  function MatchStart(text: string): Option<StartMarker>
  {
    if |text| < 3 || text[..3] != ":::" then None
    else
      var kw := KeywordAt(text[3..]);
      if kw.None? then None else MatchTitle(kw.value, text[3 + |TypeName(kw.value)|..])
  }

  /**
   * The optional group `(?:\s+(.*))?$` after the keyword: either nothing, or
   * a white-space run and a title without line terminators. The title group
   * is the text after the longest white-space run; an empty title is `null`.
   */
  function MatchTitle(t: CalloutType, rest: string): Option<StartMarker>
  {
    if rest == "" then Some(StartMarker(t, None))
    else if !IsSpace(rest[0]) then None
    else
      var title := TrimStart(rest);
      if !NoLineTerminator(title) then None
      else Some(StartMarker(t, if title == "" then None else Some(title)))
  }

  /** `END_PATTERN`, `^:::$`. */
  predicate MatchEnd(text: string) {
    text == ":::"
  }

  lemma {:induction false} TrimStartAfterSpace(ws: string, t: string)
    requires AllSpace(ws)
    requires t == "" || !IsSpace(t[0])
    ensures TrimStart(ws + t) == t
  {
    if |ws| > 0 {
      assert (ws + t)[1..] == ws[1..] + t;
      TrimStartAfterSpace(ws[1..], t);
    } else {
      assert ws + t == t;
    }
  }

  lemma MatchStartKeyword(t: CalloutType, rest: string)
    ensures MatchStart(":::" + TypeName(t) + rest) == MatchTitle(t, rest)
  {
    var name := TypeName(t);
    var text := ":::" + name + rest;
    assert text[..3] == ":::";
    assert text[3..] == name + rest;
    KeywordUnique(t, text[3..]);
    assert text[3 + |name|..] == rest;
  }

  /** A bare keyword opens a callout without a title. */
  lemma MatchStartBare(t: CalloutType)
    ensures MatchStart(":::" + TypeName(t)) == Some(StartMarker(t, None))
  {
    MatchStartKeyword(t, "");
    assert ":::" + TypeName(t) + "" == ":::" + TypeName(t);
  }

  /** A keyword, a white-space run and a one-line title open a callout with that title. */
  lemma MatchStartTitled(t: CalloutType, ws: string, title: string)
    requires |ws| > 0 && AllSpace(ws)
    requires title != "" && !IsSpace(title[0]) && NoLineTerminator(title)
    ensures MatchStart(":::" + TypeName(t) + ws + title) == Some(StartMarker(t, Some(title)))
  {
    MatchStartKeyword(t, ws + title);
    assert ":::" + TypeName(t) + ws + title == ":::" + TypeName(t) + (ws + title);
    TrimStartAfterSpace(ws, title);
    assert (ws + title)[0] == ws[0];
  }

  /** The text of a title, "" when there is none. */
  function TitleText(title: Option<string>): string {
    if title.Some? then title.value else ""
  }

  /**
   * Every text `MatchStart` accepts has that shape: the keyword of the
   * recorded type, then nothing (no title) or a white-space run and the
   * recorded one-line title.
   */
  lemma MatchStartShape(text: string)
    requires MatchStart(text).Some?
    ensures var m := MatchStart(text).value;
      exists ws :: AllSpace(ws) && text == ":::" + TypeName(m.kind) + ws + TitleText(m.title)
    ensures var m := MatchStart(text).value;
      m.title.Some? ==> m.title.value != "" && !IsSpace(m.title.value[0]) && NoLineTerminator(m.title.value)
  {
    var t := KeywordAt(text[3..]).value;
    var name := TypeName(t);
    var rest := text[3 + |name|..];
    TwoPrefixes(text, ":::", name);
    var ws := MatchTitleShape(t, rest);
    ConcatAssoc(":::" + name, ws, TitleText(MatchTitle(t, rest).value.title));
  }

  lemma MatchTitleShape(t: CalloutType, rest: string) returns (ws: string)
    requires MatchTitle(t, rest).Some?
    ensures var m := MatchTitle(t, rest).value;
      && m.kind == t && AllSpace(ws) && rest == ws + TitleText(m.title)
      && (m.title.Some? ==> m.title.value != "" && !IsSpace(m.title.value[0]) && NoLineTerminator(m.title.value))
  {
    if rest == "" {
      ws := "";
    } else {
      var title := TrimStart(rest);
      ws := rest[..|rest| - |title|];
      assert rest == ws + title;
    }
  }

  /** The closing marker is not an opening marker. */
  lemma EndIsNotStart()
    ensures MatchStart(":::") == None
  {
    assert ":::"[3..] == "";
  }

  // ----- the wrapper -----

  /** `title || typeConfig.label`. */
  function DisplayTitle(t: CalloutType, title: Option<string>): string {
    if title.Some? && title.value != "" then title.value else Label(t)
  }

  /** The wrapper up to the title: the type's class and the opening of the title div. */
  function WrapperOpen(t: CalloutType): string {
    "<div class=\"callout callout-" + TypeName(t) + "\">\n<div class=\"callout-title\">"
  }

  /** The contents of the title div: the icon, a space and the escaped display title. */
  function TitleSlot(t: CalloutType, title: Option<string>): string {
    Icon(t) + " " + EscapeHtml(DisplayTitle(t, title))
  }

  /** The rest of the wrapper: the content div around the rendered body. */
  function WrapperContent(body: seq<Block>): string {
    "</div>\n<div class=\"callout-content\">\n" + BodyHtml(body) + "\n</div>\n</div>"
  }

  /** The value of the raw HTML node that replaces a callout span. */
  function CalloutHtml(t: CalloutType, title: Option<string>, body: seq<Block>): string {
    WrapperOpen(t) + TitleSlot(t, title) + WrapperContent(body)
  }

  /**
   * The title div holds the icon, a space and the escaped title, or the
   * type's label when there is no title; the escaped title holds no tag and
   * decoding it recovers the title.
   */
  lemma CalloutTitle(t: CalloutType, title: Option<string>, body: seq<Block>)
    ensures var h := CalloutHtml(t, title, body);
      var esc := EscapeHtml(DisplayTitle(t, title));
      && WrapperOpen(t) <= h
      && h[|WrapperOpen(t)|..][..|Icon(t)| + 1 + |esc|] == Icon(t) + " " + esc
      && '<' !in esc
      && UnescapeHtml(esc) == (if title.Some? && title.value != "" then title.value else Label(t))
  {
    Infix(WrapperOpen(t), TitleSlot(t, title), WrapperContent(body));
    EscapedText(DisplayTitle(t, title));
    UnescapeEscape(DisplayTitle(t, title));
  }
}
