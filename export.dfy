/**
 * The exporters of app/lib/export.ts: HTML escaping, per-text-run Markdown and
 * HTML mark wrapping, block rendering for both schemas, and the fixed HTML
 * document shell. The plain-text exporter is `Compression.ToPlainText`, which
 * export.ts repeats verbatim.
 */
module Export {
  import opened Wrappers
  import opened Seqs
  import opened Schema
  import Compression

  /* ---------- escapeHtml ---------- */

  /** `s.replace(/c/g, rep)` for a single character `c`. */
  function ReplaceAll(s: string, c: char, rep: string): string
  {
    if |s| == 0 then "" else (if s[0] == c then rep else [s[0]]) + ReplaceAll(s[1..], c, rep)
  }

  /** `escapeHtml`: every `&`, then every `<`, then every `>` replaced by its entity. */
  function EscapeHtml(t: string): string
  {
    ReplaceAll(ReplaceAll(ReplaceAll(t, '&', "&amp;"), '<', "&lt;"), '>', "&gt;")
  }

  /** The entity of one character. */
  function EscapeChar(c: char): string
  {
    if c == '&' then "&amp;" else if c == '<' then "&lt;" else if c == '>' then "&gt;" else [c]
  }

  /** Escaping each character on its own; this is what the three passes amount to. */
  function EscapeEach(t: string): (r: string)
    ensures |r| >= |t|
    ensures '<' !in r && '>' !in r
  {
    if |t| == 0 then "" else EscapeChar(t[0]) + EscapeEach(t[1..])
  }

  /** Reading the three entities back. */
  function Unescape(s: string): string
    decreases |s|
  {
    if |s| == 0 then ""
    else if StartsWith(s, "&amp;") then "&" + Unescape(s[5..])
    else if StartsWith(s, "&lt;") then "<" + Unescape(s[4..])
    else if StartsWith(s, "&gt;") then ">" + Unescape(s[4..])
    else [s[0]] + Unescape(s[1..])
  }

  lemma {:induction false} ReplaceAllAppend(a: string, b: string, c: char, rep: string)
    ensures ReplaceAll(a + b, c, rep) == ReplaceAll(a, c, rep) + ReplaceAll(b, c, rep)
  {
    if |a| == 0 {
      assert a + b == b;
    } else {
      ReplaceAllAppend(a[1..], b, c, rep);
      var head := if a[0] == c then rep else [a[0]];
      assert (a + b)[0] == a[0] && (a + b)[1..] == a[1..] + b;
      assert ReplaceAll(a + b, c, rep) == head + ReplaceAll(a[1..] + b, c, rep);
    }
  }

  lemma {:induction false} ReplaceAllAbsent(s: string, c: char, rep: string)
    requires c !in s
    ensures ReplaceAll(s, c, rep) == s
  {
    if |s| > 0 {
      ReplaceAllAbsent(s[1..], c, rep);
      assert s == [s[0]] + s[1..];
    }
  }

  lemma ReplaceAllSingle(x: char, c: char, rep: string)
    ensures ReplaceAll([x], c, rep) == if x == c then rep else [x]
  {
    assert [x][1..] == [];
  }

  /** The three passes distribute over concatenation. */
  lemma EscapeHtmlAppend(a: string, b: string)
    ensures EscapeHtml(a + b) == EscapeHtml(a) + EscapeHtml(b)
  {
    var a1, b1 := ReplaceAll(a, '&', "&amp;"), ReplaceAll(b, '&', "&amp;");
    var a2, b2 := ReplaceAll(a1, '<', "&lt;"), ReplaceAll(b1, '<', "&lt;");
    ReplaceAllAppend(a, b, '&', "&amp;");
    ReplaceAllAppend(a1, b1, '<', "&lt;");
    ReplaceAllAppend(a2, b2, '>', "&gt;");
  }

  /** On one character the three passes give its entity: a later pass never touches an earlier entity. */
  lemma EscapeHtmlChar(c: char)
    ensures EscapeHtml([c]) == EscapeChar(c)
  {
    ReplaceAllSingle(c, '&', "&amp;");
    if c == '&' {
      ReplaceAllAbsent("&amp;", '<', "&lt;");
      ReplaceAllAbsent("&amp;", '>', "&gt;");
    } else {
      ReplaceAllSingle(c, '<', "&lt;");
      if c == '<' {
        ReplaceAllAbsent("&lt;", '>', "&gt;");
      } else {
        ReplaceAllSingle(c, '>', "&gt;");
      }
    }
  }

  /**
   * Because `&` is replaced first, no entity made by a later pass is escaped
   * again: the three passes escape each character on its own.
   */
  lemma {:induction false} EscapeHtmlIsEscapeEach(t: string)
    ensures EscapeHtml(t) == EscapeEach(t)
  {
    if |t| > 0 {
      assert t == [t[0]] + t[1..];
      EscapeHtmlAppend([t[0]], t[1..]);
      EscapeHtmlChar(t[0]);
      EscapeHtmlIsEscapeEach(t[1..]);
    }
  }

  lemma {:induction false} UnescapeEscapeEach(t: string)
    ensures Unescape(EscapeEach(t)) == t
  {
    if |t| > 0 {
      UnescapeEscapeEach(t[1..]);
      UnescapeEscapeChar(t[0], EscapeEach(t[1..]));
      assert t == [t[0]] + t[1..];
    }
  }

  /** Reading back the entity of one character, whatever follows it. */
  lemma UnescapeEscapeChar(c: char, e: string)
    ensures Unescape(EscapeChar(c) + e) == [c] + Unescape(e)
  {
    if c == '&' {
      UnescapeAmp(e);
    } else if c == '<' {
      UnescapeLt(e);
    } else if c == '>' {
      UnescapeGt(e);
    } else {
      var s := [c] + e;
      assert s[0] == c && s[1..] == e;
    }
  }

  lemma UnescapeAmp(e: string)
    ensures Unescape("&amp;" + e) == "&" + Unescape(e)
  {
    var s := "&amp;" + e;
    assert s[..5] == "&amp;" && s[5..] == e;
  }

  lemma UnescapeLt(e: string)
    ensures Unescape("&lt;" + e) == "<" + Unescape(e)
  {
    var s := "&lt;" + e;
    assert !StartsWith(s, "&amp;") by { assert |s| < 5 || s[..5][1] != "&amp;"[1]; }
    assert s[..4] == "&lt;" && s[4..] == e;
  }

  lemma UnescapeGt(e: string)
    ensures Unescape("&gt;" + e) == ">" + Unescape(e)
  {
    var s := "&gt;" + e;
    assert !StartsWith(s, "&amp;") by { assert |s| < 5 || s[..5][1] != "&amp;"[1]; }
    assert !StartsWith(s, "&lt;") by { assert s[..4][1] != "&lt;"[1]; }
    assert s[..4] == "&gt;" && s[4..] == e;
  }

  /**
   * The escaped text has no `<` or `>`, is at least as long as the text, and
   * reads back to the text: each `&` became exactly `&amp;`.
   */
  lemma EscapeHtmlProperties(t: string)
    ensures '<' !in EscapeHtml(t) && '>' !in EscapeHtml(t)
    ensures |EscapeHtml(t)| >= |t|
    ensures Unescape(EscapeHtml(t)) == t
  {
    EscapeHtmlIsEscapeEach(t);
    UnescapeEscapeEach(t);
  }

  /** Text without `&`, `<` or `>` is left as it is. */
  lemma EscapeHtmlPlain(t: string)
    requires '&' !in t && '<' !in t && '>' !in t
    ensures EscapeHtml(t) == t
  {
    ReplaceAllAbsent(t, '&', "&amp;");
    ReplaceAllAbsent(t, '<', "&lt;");
    ReplaceAllAbsent(t, '>', "&gt;");
  }

  /* ---------- mark wrapping of one text run ---------- */

  /** One optional wrapper: `open + t + close` when the mark is on, `t` unchanged otherwise. */
  function Tag(on: bool, open: string, t: string, close: string): string
  {
    if on then open + t + close else t
  }

  lemma TagAvoids(on: bool, open: string, t: string, close: string, c: char)
    requires c !in open && c !in t && c !in close
    ensures c !in Tag(on, open, t, close)
  {
  }

  /**
   * The Markdown of a text run: nothing for empty text whatever its marks,
   * otherwise bold innermost, then italic, then underline outermost.
   */
  function MarkdownRun(text: string, bold: bool, italic: bool, underline: bool): string
  {
    if text == "" then ""
    else Tag(underline, "<u>", Tag(italic, "_", Tag(bold, "**", text, "**"), "_"), "</u>")
  }

  /** The opening tag of a color span. */
  function SpanOpen(color: string): string
  {
    "<span style=\"color:" + color + "\">"
  }

  /**
   * Already escaped text wrapped for HTML: `<strong>` innermost, then `<em>`,
   * then `<u>`, and a span carrying a truthy color outermost.
   */
  function HtmlWrap(escaped: string, bold: bool, italic: bool, underline: bool, color: Option<string>): string
  {
    var t := Tag(underline, "<u>", Tag(italic, "<em>", Tag(bold, "<strong>", escaped, "</strong>"), "</em>"), "</u>");
    if Truthy(color) then Tag(true, SpanOpen(color.value), t, "</span>") else t
  }

  /** The HTML of a text run: the escaped text inside its wrappers. */
  function HtmlRun(text: string, bold: bool, italic: bool, underline: bool, color: Option<string>): string
  {
    HtmlWrap(EscapeHtml(text), bold, italic, underline, color)
  }

  /** Bold and italic `x` gives `_**x**_`; underline is always outermost. */
  lemma MarkdownWrapOrder(text: string, bold: bool, italic: bool)
    requires text != ""
    ensures MarkdownRun("x", true, true, false) == "_**x**_"
    ensures MarkdownRun(text, bold, italic, true) == "<u>" + MarkdownRun(text, bold, italic, false) + "</u>"
  {
  }

  /**
   * A truthy color is the outermost wrapper, around the run as it would be
   * without a color; any other color leaves no trace.
   */
  lemma HtmlColorOutermost(text: string, bold: bool, italic: bool, underline: bool, color: Option<string>)
    ensures Truthy(color) ==>
      HtmlRun(text, bold, italic, underline, color)
        == SpanOpen(color.value) + HtmlRun(text, bold, italic, underline, None) + "</span>"
    ensures !Truthy(color) ==> HtmlRun(text, bold, italic, underline, color) == HtmlRun(text, bold, italic, underline, None)
  {
  }

  /** With every mark on, the run reads `<span ...><u><em><strong>text</strong></em></u></span>`. */
  lemma HtmlNesting(e: string, color: string)
    requires color != ""
    ensures HtmlWrap(e, true, true, true, Some(color))
      == SpanOpen(color) + "<u><em><strong>" + e + "</strong></em></u></span>"
  {
  }

  /* ---------- legacy leaves ---------- */

  /**
   * The rebinding `leafToMd` and the doc-branch Markdown renderer share: the
   * text wrapped once per mark, bold first, underline last.
   */
  method WrapMarkdown(text: string, bold: bool, italic: bool, underline: bool) returns (t: string)
    ensures t == MarkdownRun(text, bold, italic, underline)
  {
    t := text;
    if t == "" {
      return "";
    }
    if bold {
      t := "**" + t + "**";
    }
    if italic {
      t := "_" + t + "_";
    }
    if underline {
      t := "<u>" + t + "</u>";
    }
  }

  /**
   * The rebinding `leafToHtml` and the doc-branch HTML renderer share: the
   * escaped text wrapped once per mark, bold first, a truthy color last.
   */
  method WrapHtml(escaped: string, bold: bool, italic: bool, underline: bool, color: Option<string>)
    returns (t: string)
    ensures t == HtmlWrap(escaped, bold, italic, underline, color)
  {
    t := escaped;
    if bold {
      t := "<strong>" + t + "</strong>";
    }
    if italic {
      t := "<em>" + t + "</em>";
    }
    if underline {
      t := "<u>" + t + "</u>";
    }
    if Truthy(color) {
      t := "<span style=\"color:" + color.value + "\">" + t + "</span>";
    }
  }

  /** `leafToMd` as a value: the wrapped text of a leaf, nothing for a node without text. */
  function LeafMarkdown(leaf: LegacyNode): string
  {
    match leaf
    case Leaf(text, bold, italic, underline, _) => MarkdownRun(text, bold, italic, underline)
    case Element(_, _) => ""
  }

  /** `leafToMd`. */
  method LeafToMd(leaf: LegacyNode) returns (t: string)
    ensures t == LeafMarkdown(leaf)
  {
    if leaf.Leaf? {
      t := WrapMarkdown(leaf.text, leaf.bold, leaf.italic, leaf.underline);
    } else {
      t := "";
    }
  }

  /** `leafToHtml` as a value. */
  function LeafHtml(leaf: LegacyNode): string
  {
    match leaf
    case Leaf(text, bold, italic, underline, color) => HtmlRun(text, bold, italic, underline, color)
    case Element(_, _) => ""
  }

  /** `leafToHtml`. */
  method LeafToHtml(leaf: LegacyNode) returns (t: string)
    ensures t == LeafHtml(leaf)
  {
    if leaf.Leaf? {
      t := WrapHtml(EscapeHtml(leaf.text), leaf.bold, leaf.italic, leaf.underline, leaf.color);
    } else {
      t := "";
    }
  }

  /** Color never shows in a leaf's Markdown. */
  lemma LeafMarkdownIgnoresColor(text: string, bold: bool, italic: bool, underline: bool, c1: Option<string>, c2: Option<string>)
    ensures LeafMarkdown(Leaf(text, bold, italic, underline, c1)) == LeafMarkdown(Leaf(text, bold, italic, underline, c2))
    ensures LeafMarkdown(Leaf("", bold, italic, underline, c1)) == ""
  {
  }

  /** A leaf with no marks renders as its escaped text. */
  lemma LeafHtmlUnmarked(text: string, color: Option<string>)
    requires !Truthy(color)
    ensures LeafHtml(Leaf(text, false, false, false, color)) == EscapeHtml(text)
  {
  }

  /** `childrenToMd`: the children's Markdown, elements rendered through their own children. */
  function ChildrenToMd(children: seq<LegacyNode>): string
    decreases children, 1
  {
    if |children| == 0 then "" else ChildToMd(children[0]) + ChildrenToMd(children[1..])
  }

  function ChildToMd(c: LegacyNode): string
    decreases c, 0
  {
    match c
    case Leaf(_, _, _, _, _) => LeafMarkdown(c)
    case Element(_, Present(cs)) => ChildrenToMd(cs)
    case Element(_, Absent) => ""
  }

  /** `childrenToHtml`. */
  function ChildrenToHtml(children: seq<LegacyNode>): string
    decreases children, 1
  {
    if |children| == 0 then "" else ChildToHtml(children[0]) + ChildrenToHtml(children[1..])
  }

  function ChildToHtml(c: LegacyNode): string
    decreases c, 0
  {
    match c
    case Leaf(_, _, _, _, _) => LeafHtml(c)
    case Element(_, Present(cs)) => ChildrenToHtml(cs)
    case Element(_, Absent) => ""
  }

  /** The Markdown of each of a list of leaves. */
  function LeafMarkdowns(cs: seq<LegacyNode>): (r: seq<string>)
    ensures |r| == |cs|
    ensures forall i :: 0 <= i < |r| ==> r[i] == LeafMarkdown(cs[i])
  {
    seq(|cs|, i requires 0 <= i < |cs| => LeafMarkdown(cs[i]))
  }

  function LeafHtmls(cs: seq<LegacyNode>): (r: seq<string>)
    ensures |r| == |cs|
    ensures forall i :: 0 <= i < |r| ==> r[i] == LeafHtml(cs[i])
  {
    seq(|cs|, i requires 0 <= i < |cs| => LeafHtml(cs[i]))
  }

  /** The children of one level that are all leaves render as their concatenated leaf renderings. */
  lemma {:induction false} LeafChildrenMarkdown(cs: seq<LegacyNode>)
    requires forall i :: 0 <= i < |cs| ==> cs[i].Leaf?
    ensures ChildrenToMd(cs) == Concat(LeafMarkdowns(cs))
    ensures ChildrenToHtml(cs) == Concat(LeafHtmls(cs))
  {
    if |cs| > 0 {
      LeafChildrenMarkdown(cs[1..]);
      ConcatCons(LeafMarkdowns(cs));
      ConcatCons(LeafHtmls(cs));
      assert LeafMarkdowns(cs)[1..] == LeafMarkdowns(cs[1..]);
      assert LeafHtmls(cs)[1..] == LeafHtmls(cs[1..]);
    }
  }

  /* ---------- current-schema inline nodes ---------- */

  /** The position of the first `"textStyle"` mark, or the length when there is none. */
  function TextStyleIndex(ms: seq<Mark>): (i: nat)
    ensures i <= |ms|
    ensures forall j :: 0 <= j < i ==> ms[j].kind != "textStyle"
    ensures i < |ms| ==> ms[i].kind == "textStyle"
  {
    if |ms| == 0 then 0
    else if ms[0].kind == "textStyle" then 0
    else 1 + TextStyleIndex(ms[1..])
  }

  /** `c.marks?.find(m => m.type === "textStyle")`: the first color mark. */
  function FirstTextStyle(ms: seq<Mark>): Option<Mark>
  {
    var i := TextStyleIndex(ms);
    if i < |ms| then Some(ms[i]) else None
  }

  /** `colorMark?.attrs?.color` of an inline node. */
  function TextStyleColor(c: Inline): Option<string>
  {
    match FirstTextStyle(MarksOf(c))
    case Some(m) => m.color
    case None => None
  }

  /** The doc-branch Markdown of an inline node. */
  function InlineMarkdown(c: Inline): string
  {
    MarkdownRun(c.text, HasMark(c, "bold"), HasMark(c, "italic"), HasMark(c, "underline"))
  }

  /** The doc-branch Markdown renderer of an inline node. */
  method InlineToMd(c: Inline) returns (t: string)
    ensures t == InlineMarkdown(c)
  {
    t := WrapMarkdown(c.text, HasMark(c, "bold"), HasMark(c, "italic"), HasMark(c, "underline"));
  }

  /** The doc-branch HTML of an inline node. */
  function InlineHtml(c: Inline): string
  {
    HtmlRun(c.text, HasMark(c, "bold"), HasMark(c, "italic"), HasMark(c, "underline"), TextStyleColor(c))
  }

  /** The doc-branch HTML renderer of an inline node; the color is that of the first color mark. */
  method InlineToHtml(c: Inline) returns (t: string)
    ensures t == InlineHtml(c)
  {
    var colorMark := FirstTextStyle(MarksOf(c));
    var color := if colorMark.Some? then colorMark.value.color else None;
    t := WrapHtml(EscapeHtml(c.text), HasMark(c, "bold"), HasMark(c, "italic"), HasMark(c, "underline"), color);
  }

  /** The marks of a list other than its color marks, in order. */
  function WithoutColor(ms: seq<Mark>): (r: seq<Mark>)
    ensures forall i :: 0 <= i < |r| ==> r[i].kind != "textStyle"
  {
    if |ms| == 0 then []
    else
      var rest := WithoutColor(ms[..|ms| - 1]);
      if ms[|ms| - 1].kind == "textStyle" then rest else rest + [ms[|ms| - 1]]
  }

  /** Dropping the color marks keeps every other kind, and only those. */
  lemma {:induction false} HasKindWithoutColor(ms: seq<Mark>, kind: string)
    requires kind != "textStyle"
    ensures HasKind(WithoutColor(ms), kind) <==> HasKind(ms, kind)
  {
    if |ms| > 0 {
      var front, m := ms[..|ms| - 1], ms[|ms| - 1];
      assert ms == front + [m];
      HasKindWithoutColor(front, kind);
      HasKindAppend(front, m, kind);
      if m.kind != "textStyle" {
        HasKindAppend(WithoutColor(front), m, kind);
      }
    }
  }

  /**
   * Color marks never show in an inline node's Markdown: two nodes with the
   * same text whose marks agree once color marks are dropped render alike.
   */
  lemma InlineMarkdownIgnoresColor(c1: Inline, c2: Inline)
    requires c1.text == c2.text
    requires WithoutColor(MarksOf(c1)) == WithoutColor(MarksOf(c2))
    ensures InlineMarkdown(c1) == InlineMarkdown(c2)
  {
    HasKindWithoutColor(MarksOf(c1), "bold");
    HasKindWithoutColor(MarksOf(c2), "bold");
    HasKindWithoutColor(MarksOf(c1), "italic");
    HasKindWithoutColor(MarksOf(c2), "italic");
    HasKindWithoutColor(MarksOf(c1), "underline");
    HasKindWithoutColor(MarksOf(c2), "underline");
  }

  /** In particular, adding a color mark to a node's marks leaves its Markdown as it was. */
  lemma InlineColorMarkAdded(text: string, ms: seq<Mark>, color: Option<string>)
    ensures InlineMarkdown(Inline(text, Some(ms + [Mark("textStyle", color)]))) == InlineMarkdown(Inline(text, Some(ms)))
  {
    assert (ms + [Mark("textStyle", color)])[..|ms|] == ms;
    InlineMarkdownIgnoresColor(Inline(text, Some(ms + [Mark("textStyle", color)])), Inline(text, Some(ms)));
  }

  /** An inline node without marks renders as its escaped text, and as its text in Markdown. */
  lemma InlineUnmarked(c: Inline)
    requires |MarksOf(c)| == 0
    ensures InlineHtml(c) == EscapeHtml(c.text)
    ensures InlineMarkdown(c) == c.text
  {
  }

  /* ---------- blocks ---------- */

  /** `attrs?.level || 1`: a missing or zero level is level one. */
  function LevelOrOne(level: Option<nat>): (l: nat)
    ensures l >= 1
    ensures level.Some? && level.value > 0 ==> l == level.value
  {
    if level.None? || level.value == 0 then 1 else level.value
  }

  /** The doc-branch Markdown of each of a block's inline nodes. */
  function InlineMarkdowns(content: seq<Inline>): (r: seq<string>)
    ensures |r| == |content|
    ensures forall j :: 0 <= j < |r| ==> r[j] == InlineMarkdown(content[j])
  {
    seq(|content|, j requires 0 <= j < |content| => InlineMarkdown(content[j]))
  }

  /** The doc-branch Markdown of a block's inline nodes, run together. */
  function InlinesMarkdown(content: seq<Inline>): string
  {
    Concat(InlineMarkdowns(content))
  }

  function InlineHtmls(content: seq<Inline>): (r: seq<string>)
    ensures |r| == |content|
    ensures forall j :: 0 <= j < |r| ==> r[j] == InlineHtml(content[j])
  {
    seq(|content|, j requires 0 <= j < |content| => InlineHtml(content[j]))
  }

  function InlinesHtml(content: seq<Inline>): string
  {
    Concat(InlineHtmls(content))
  }

  /** The doc-branch Markdown of a block: a heading behind `#`s and a space. */
  function BlockMarkdown(b: Block): string
  {
    var c := InlinesMarkdown(b.content);
    if b.kind == "heading" then Repeat('#', LevelOrOne(b.level)) + " " + c else c
  }

  /** The doc-branch HTML of a block: `<hN>` for a heading, `<p>` for anything else. */
  function BlockHtml(b: Block): string
  {
    var c := InlinesHtml(b.content);
    if b.kind == "heading" then
      var l := NatToString(LevelOrOne(b.level));
      ("<h" + l + ">") + c + ("</h" + l + ">")
    else "<p>" + c + "</p>"
  }

  /** The legacy-branch Markdown of a node: `#`, `##`, `###` for the three heading tags. */
  function LegacyBlockMarkdown(n: LegacyNode): string
  {
    var c := ChildrenToMd(ChildNodes(n));
    var kind := KindOf(n);
    if kind == Some("heading-one") then "# " + c
    else if kind == Some("heading-two") then "## " + c
    else if kind == Some("heading-three") then "### " + c
    else c
  }

  /** The legacy-branch HTML of a node, with `heading-three` rendered as Markdown `### `. */
  function LegacyBlockHtml(n: LegacyNode): string
  {
    var c := ChildrenToHtml(ChildNodes(n));
    var kind := KindOf(n);
    if kind == Some("heading-one") then "<h1>" + c + "</h1>"
    else if kind == Some("heading-two") then "<h2>" + c + "</h2>"
    else if kind == Some("heading-three") then "### " + c
    else "<p>" + c + "</p>"
  }

  /** A legacy node with none of the three heading tags renders as its children, in a `<p>` for HTML. */
  lemma LegacyBlockPlain(n: LegacyNode)
    requires KindOf(n) != Some("heading-one") && KindOf(n) != Some("heading-two") && KindOf(n) != Some("heading-three")
    ensures LegacyBlockMarkdown(n) == ChildrenToMd(ChildNodes(n))
    ensures LegacyBlockHtml(n) == "<p>" + ChildrenToHtml(ChildNodes(n)) + "</p>"
    ensures LegacyBlockHtmlFixed(n) == "<p>" + ChildrenToHtml(ChildNodes(n)) + "</p>"
  {
  }

  /** A legacy heading tag renders as its `#` prefix in Markdown and as `<hN>` in the corrected HTML. */
  lemma LegacyHeadingRendering(n: LegacyNode)
    ensures var md, html := ChildrenToMd(ChildNodes(n)), ChildrenToHtml(ChildNodes(n));
      && (KindOf(n) == Some("heading-one") ==>
        LegacyBlockMarkdown(n) == "# " + md && LegacyBlockHtmlFixed(n) == "<h1>" + html + "</h1>")
      && (KindOf(n) == Some("heading-two") ==>
        LegacyBlockMarkdown(n) == "## " + md && LegacyBlockHtmlFixed(n) == "<h2>" + html + "</h2>")
      && (KindOf(n) == Some("heading-three") ==>
        LegacyBlockMarkdown(n) == "### " + md && LegacyBlockHtmlFixed(n) == "<h3>" + html + "</h3>")
  {
  }

  /** A doc heading renders as its `#`s and a space, and between its `<hN>` tags. */
  lemma HeadingAt(b: Block, l: nat, hashes: string, digits: string)
    requires b.kind == "heading" && b.level == Some(l) && l >= 1
    requires Repeat('#', l) == hashes && NatToString(l) == digits
    ensures BlockMarkdown(b) == hashes + " " + InlinesMarkdown(b.content)
    ensures BlockHtml(b) == ("<h" + digits + ">") + InlinesHtml(b.content) + ("</h" + digits + ">")
  {
  }

  /** The `#`s, digits and tags of levels one to three. */
  lemma SmallLevels()
    ensures Repeat('#', 1) == "#" && NatToString(1) == "1"
    ensures Repeat('#', 2) == "##" && NatToString(2) == "2"
    ensures Repeat('#', 3) == "###" && NatToString(3) == "3"
    ensures "#" + " " == "# " && "##" + " " == "## " && "###" + " " == "### "
    ensures "<h" + "1" + ">" == "<h1>" && "</h" + "1" + ">" == "</h1>"
    ensures "<h" + "2" + ">" == "<h2>" && "</h" + "2" + ">" == "</h2>"
    ensures "<h" + "3" + ">" == "<h3>" && "</h" + "3" + ">" == "</h3>"
  {
  }

  /** A doc heading of level one to three renders with that many `#`s, and as `<hN>`. */
  lemma HeadingRendering(b: Block)
    requires b.kind == "heading"
    ensures var md, html := InlinesMarkdown(b.content), InlinesHtml(b.content);
      && (b.level == Some(1) ==> BlockMarkdown(b) == "# " + md && BlockHtml(b) == "<h1>" + html + "</h1>")
      && (b.level == Some(2) ==> BlockMarkdown(b) == "## " + md && BlockHtml(b) == "<h2>" + html + "</h2>")
      && (b.level == Some(3) ==> BlockMarkdown(b) == "### " + md && BlockHtml(b) == "<h3>" + html + "</h3>")
  {
    SmallLevels();
    if b.level == Some(1) {
      HeadingAt(b, 1, "#", "1");
    } else if b.level == Some(2) {
      HeadingAt(b, 2, "##", "2");
    } else if b.level == Some(3) {
      HeadingAt(b, 3, "###", "3");
    }
  }

  /** The renderings of each block of a doc, in order. */
  function DocBlocksMarkdown(d: Doc): (r: seq<string>)
    ensures |r| == |d.content|
    ensures forall i :: 0 <= i < |r| ==> r[i] == BlockMarkdown(d.content[i])
  {
    seq(|d.content|, i requires 0 <= i < |d.content| => BlockMarkdown(d.content[i]))
  }

  /** The renderings of each node of a legacy array, in order. */
  function LegacyBlocksMarkdown(nodes: seq<LegacyNode>): (r: seq<string>)
    ensures |r| == |nodes|
    ensures forall i :: 0 <= i < |r| ==> r[i] == LegacyBlockMarkdown(nodes[i])
  {
    seq(|nodes|, i requires 0 <= i < |nodes| => LegacyBlockMarkdown(nodes[i]))
  }

  /** `toMarkdown`: the block renderings joined by newlines; anything but a doc or an array is empty. */
  function ToMarkdown(t: Tree): string
  {
    match t
    case DocTree(d) => Join(DocBlocksMarkdown(d), "\n")
    case LegacyTree(nodes) => Join(LegacyBlocksMarkdown(nodes), "\n")
    case Other => ""
  }

  /** A heading without a level, or with level zero, renders as level one. */
  lemma HeadingLevelDefault(content: seq<Inline>)
    ensures BlockMarkdown(Block("heading", None, content)) == "# " + InlinesMarkdown(content)
    ensures BlockMarkdown(Block("heading", Some(0), content)) == "# " + InlinesMarkdown(content)
    ensures BlockHtml(Block("heading", None, content)) == "<h1>" + InlinesHtml(content) + "</h1>"
  {
    assert Repeat('#', 1) == "#";
  }

  /** A heading of positive level `l` renders as `l` hashes, a space and its inline Markdown. */
  lemma HeadingMarkdown(b: Block, l: nat)
    requires b.kind == "heading" && b.level == Some(l) && l > 0
    ensures var r := BlockMarkdown(b);
      && |r| == l + 1 + |InlinesMarkdown(b.content)|
      && (forall i :: 0 <= i < l ==> r[i] == '#')
      && r[l] == ' ' && r[l + 1..] == InlinesMarkdown(b.content)
  {
  }

  /**
   * When no inline text holds a newline, the Markdown of a non-empty doc has
   * exactly one line per block, each that block's rendering.
   */
  lemma MarkdownLines(d: Doc)
    requires |d.content| > 0
    requires forall i, j :: 0 <= i < |d.content| && 0 <= j < |d.content[i].content| ==>
      '\n' !in d.content[i].content[j].text
    ensures Split(ToMarkdown(DocTree(d)), '\n') == DocBlocksMarkdown(d)
  {
    var blocks := DocBlocksMarkdown(d);
    forall i | 0 <= i < |blocks| ensures '\n' !in blocks[i] {
      BlockMarkdownOneLine(d.content[i]);
    }
    SplitJoin(blocks, '\n');
  }

  lemma BlockMarkdownOneLine(b: Block)
    requires forall j :: 0 <= j < |b.content| ==> '\n' !in b.content[j].text
    ensures '\n' !in BlockMarkdown(b)
  {
    var runs := InlineMarkdowns(b.content);
    forall j | 0 <= j < |runs| ensures '\n' !in runs[j] {
      var c := b.content[j];
      var bo, it, un := HasMark(c, "bold"), HasMark(c, "italic"), HasMark(c, "underline");
      if c.text != "" {
        TagAvoids(bo, "**", c.text, "**", '\n');
        TagAvoids(it, "_", Tag(bo, "**", c.text, "**"), "_", '\n');
        TagAvoids(un, "<u>", Tag(it, "_", Tag(bo, "**", c.text, "**"), "_"), "</u>", '\n');
      }
    }
    JoinAvoids(runs, "", '\n');
    if b.kind == "heading" {
      assert '\n' !in Repeat('#', LevelOrOne(b.level));
    }
  }

  /** A doc without formatting exports to Markdown as its plain text. */
  lemma PlainDocMarkdown(d: Doc)
    requires !Compression.HasFormatting(DocTree(d))
    ensures ToMarkdown(DocTree(d)) == Compression.ToPlainText(DocTree(d))
  {
    var blocks := DocBlocksMarkdown(d);
    forall i | 0 <= i < |d.content| ensures blocks[i] == Compression.BlockText(d.content[i]) {
      var b := d.content[i];
      assert !Compression.BlockHasFormatting(b);
      var runs := InlineMarkdowns(b.content);
      var texts := Compression.InlineTexts(b.content);
      forall j | 0 <= j < |b.content| ensures runs[j] == texts[j] {
        assert !Compression.HasMarks(b.content[j]);
        InlineUnmarked(b.content[j]);
      }
      assert runs == texts;
    }
    assert blocks == Compression.BlockTexts(d);
  }

  /** Plain text exports to Markdown as itself. */
  lemma PlainTextMarkdown(s: string)
    ensures ToMarkdown(DocTree(Compression.FromPlainText(s))) == s
  {
    Compression.PlainTextHasNoFormatting(s);
    PlainDocMarkdown(Compression.FromPlainText(s));
    Compression.PlainTextRoundTrip(s);
  }

  /* ---------- toHtml ---------- */

  /** The fixed document shell up to and including the opening of the body. */
  const ShellHead: string := Doctype + ShellMeta + BodyOpen

  /** The head of the shell between the doctype and the opening of the body. */
  const ShellMeta: string :=
    "\n<html lang=\"en\">\n<head>\n<meta charset=\"utf-8\">\n"
    + "<title>Share\U{00B7}Pad Export</title>\n"
    + "<style>body{font-family:system-ui,sans-serif;line-height:1.7;max-width:800px;margin:40px auto;padding:0 20px;color:#111}</style>\n"
    + "</head>\n"

  const Doctype: string := "<!DOCTYPE html>"
  const BodyOpen: string := "<body>\n"
  const BodyClose: string := "\n</body>"

  /** The fixed document shell from the close of the body on. */
  const ShellTail: string := BodyClose + "\n</html>"

  /** The body `toHtml` builds: the block renderings joined by newlines, empty for any other value. */
  function HtmlBody(t: Tree): string
  {
    match t
    case DocTree(d) => Join(DocBlocksHtml(d), "\n")
    case LegacyTree(nodes) => Join(LegacyBlocksHtml(nodes), "\n")
    case Other => ""
  }

  function DocBlocksHtml(d: Doc): (r: seq<string>)
    ensures |r| == |d.content|
    ensures forall i :: 0 <= i < |r| ==> r[i] == BlockHtml(d.content[i])
  {
    seq(|d.content|, i requires 0 <= i < |d.content| => BlockHtml(d.content[i]))
  }

  function LegacyBlocksHtml(nodes: seq<LegacyNode>): (r: seq<string>)
    ensures |r| == |nodes|
    ensures forall i :: 0 <= i < |r| ==> r[i] == LegacyBlockHtml(nodes[i])
  {
    seq(|nodes|, i requires 0 <= i < |nodes| => LegacyBlockHtml(nodes[i]))
  }

  /**
   * `toHtml`: `body` assigned by the branch the value takes (left empty for a
   * value that is neither a doc nor an array), then placed in the fixed shell.
   */
  method ToHtml(t: Tree) returns (html: string)
    ensures html == ShellHead + HtmlBody(t) + ShellTail
    ensures StartsWith(html, Doctype)
    ensures html[|ShellHead|..|ShellHead| + |HtmlBody(t)|] == HtmlBody(t)
    ensures html[|ShellHead| + |HtmlBody(t)|..] == ShellTail
    ensures t.Other? ==> html == ShellHead + ShellTail
  {
    var body := "";
    match t {
      case DocTree(d) =>
        body := Join(DocBlocksHtml(d), "\n");
      case LegacyTree(nodes) =>
        body := Join(LegacyBlocksHtml(nodes), "\n");
      case Other =>
    }
    html := ShellHead + body + ShellTail;
    Framed(ShellHead, body, ShellTail);
    Framed(Doctype, ShellMeta, BodyOpen);
    PrefixOfPrefix(html, ShellHead, Doctype);
  }

  /** The parts of `a + b + c` sit where their lengths put them. */
  lemma Framed(a: string, b: string, c: string)
    ensures StartsWith(a + b + c, a)
    ensures (a + b + c)[|a|..|a| + |b|] == b
    ensures (a + b + c)[|a| + |b|..] == c
  {
    assert (a + b + c)[..|a|] == a;
  }

  lemma PrefixOfPrefix(s: string, p: string, q: string)
    requires StartsWith(s, p) && StartsWith(p, q)
    ensures StartsWith(s, q)
  {
    assert s[..|q|] == p[..|q|];
  }

  /** A bold run of plain text exports as `**text**` and `<strong>text</strong>`. */
  lemma BoldRunExports(text: string)
    requires text != "" && '&' !in text && '<' !in text && '>' !in text
    ensures InlineMarkdown(Inline(text, Some([Mark("bold", None)]))) == "**" + text + "**"
    ensures InlineHtml(Inline(text, Some([Mark("bold", None)]))) == "<strong>" + text + "</strong>"
  {
    var c := Inline(text, Some([Mark("bold", None)]));
    assert HasMark(c, "bold") by { assert MarksOf(c)[0].kind == "bold"; }
    assert !HasMark(c, "italic") && !HasMark(c, "underline");
    assert TextStyleIndex(MarksOf(c)) == 1;
    EscapeHtmlPlain(text);
  }

  /** A level-one heading of plain text exports as `# text` and `<h1>text</h1>`. */
  lemma HeadingOneExports(text: string)
    requires '&' !in text && '<' !in text && '>' !in text
    ensures BlockMarkdown(Block("heading", Some(1), [Inline(text, None)])) == "# " + text
    ensures BlockHtml(Block("heading", Some(1), [Inline(text, None)])) == "<h1>" + text + "</h1>"
  {
    var content := [Inline(text, None)];
    InlineUnmarked(content[0]);
    EscapeHtmlPlain(text);
    assert InlineMarkdowns(content) == [text];
    assert InlineHtmls(content) == [text];
    HeadingRendering(Block("heading", Some(1), content));
  }

  /* ---------- corrected legacy HTML ---------- */

  /** The legacy `heading-three` renders as Markdown, not as an HTML heading. */
  lemma LegacyHeadingThreeHtml(children: Children)
    ensures var r := LegacyBlockHtml(Element(Some("heading-three"), children));
      r == "### " + ChildrenToHtml(ChildrenOr(children)) && !StartsWith(r, "<h3>")
  {
  }

  /** The legacy-branch HTML of a node with `heading-three` rendered as `<h3>`. */
  function LegacyBlockHtmlFixed(n: LegacyNode): string
  {
    var c := ChildrenToHtml(ChildNodes(n));
    var kind := KindOf(n);
    if kind == Some("heading-one") then "<h1>" + c + "</h1>"
    else if kind == Some("heading-two") then "<h2>" + c + "</h2>"
    else if kind == Some("heading-three") then "<h3>" + c + "</h3>"
    else "<p>" + c + "</p>"
  }

  /**
   * The corrected legacy branch renders `heading-three` as `<h3>` and agrees
   * with the branch as written on every other node.
   */
  lemma LegacyHeadingsHtmlFixed(n: LegacyNode)
    ensures KindOf(n) == Some("heading-three") ==>
      LegacyBlockHtmlFixed(n) == "<h3>" + ChildrenToHtml(ChildNodes(n)) + "</h3>"
    ensures KindOf(n) != Some("heading-three") ==> LegacyBlockHtmlFixed(n) == LegacyBlockHtml(n)
  {
  }

  /** The corrected legacy body. */
  function LegacyHtmlBodyFixed(nodes: seq<LegacyNode>): string
  {
    Join(LegacyBlocksHtmlFixed(nodes), "\n")
  }

  function LegacyBlocksHtmlFixed(nodes: seq<LegacyNode>): (r: seq<string>)
    ensures |r| == |nodes|
    ensures forall i :: 0 <= i < |r| ==> r[i] == LegacyBlockHtmlFixed(nodes[i])
  {
    seq(|nodes|, i requires 0 <= i < |nodes| => LegacyBlockHtmlFixed(nodes[i]))
  }
}
