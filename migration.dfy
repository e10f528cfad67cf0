/**
 * The schema migrator of app/lib/tiptap-migration.ts: a legacy (Slate) array
 * of elements with leaf children becomes a current-schema (Tiptap) `doc` with
 * one block per element, each leaf becoming one inline text node whose marks
 * are collected in the fixed order bold, italic, underline, color.
 */
module Migration {
  import opened Wrappers
  import opened Seqs
  import opened Schema
  import Compression
  import Export

  /* ---------- convertLeaf ---------- */

  /** `if (on) marks.push(m)`, on a list value. */
  function Push(ms: seq<Mark>, on: bool, m: Mark): seq<Mark>
  {
    if on then ms + [m] else ms
  }

  /** The marks `convertLeaf` pushes for a leaf, in push order; a node without text has none. */
  function LeafMarks(leaf: LegacyNode): seq<Mark>
  {
    match leaf
    case Leaf(_, bold, italic, underline, color) =>
      var marks := Push([], bold, Mark("bold", None));
      var marks := Push(marks, italic, Mark("italic", None));
      var marks := Push(marks, underline, Mark("underline", None));
      Push(marks, Truthy(color), Mark("textStyle", color))
    case Element(_, _) => []
  }

  /**
   * `convertLeaf` as a value: a node without `text` becomes an empty text
   * node, a leaf keeps its text, and the `marks` field is there only when the
   * list is not empty.
   */
  function ConvertedLeaf(leaf: LegacyNode): Inline
  {
    match leaf
    case Element(_, _) => Inline("", None)
    case Leaf(text, _, _, _, _) =>
      var marks := LeafMarks(leaf);
      Inline(text, if |marks| > 0 then Some(marks) else None)
  }

  /** `convertLeaf`, pushing onto the local `marks` list one flag at a time. */
  method ConvertLeaf(leaf: LegacyNode) returns (r: Inline)
    ensures r == ConvertedLeaf(leaf)
  {
    if leaf.Element? {
      return Inline("", None);
    }
    var marks: seq<Mark> := [];
    if leaf.bold {
      marks := marks + [Mark("bold", None)];
    }
    assert marks == (if leaf.bold then [Mark("bold", None)] else []);
    if leaf.italic {
      marks := marks + [Mark("italic", None)];
    }
    if leaf.underline {
      marks := marks + [Mark("underline", None)];
    }
    if Truthy(leaf.color) {
      marks := marks + [Mark("textStyle", leaf.color)];
    }
    assert marks == LeafMarks(leaf);
    r := Inline(leaf.text, if |marks| > 0 then Some(marks) else None);
  }

  /** The position of a mark kind in the fixed push order. */
  function MarkRank(kind: string): nat
  {
    if kind == "bold" then 0 else if kind == "italic" then 1 else if kind == "underline" then 2 else 3
  }

  /**
   * Mark kinds in strictly increasing push order, every rank below `bound`:
   * the last mark ranks below `bound` and the marks before it below the last.
   */
  predicate RankedBelow(ms: seq<Mark>, bound: nat)
  {
    |ms| == 0
    || (var r := MarkRank(ms[|ms| - 1].kind); r < bound && RankedBelow(ms[..|ms| - 1], r))
  }

  /** Pushing a mark of rank `bound`, or nothing, keeps the marks ranked, below the next rank. */
  lemma RankedPush(ms: seq<Mark>, bound: nat, on: bool, m: Mark)
    requires RankedBelow(ms, bound) && MarkRank(m.kind) == bound
    ensures RankedBelow(Push(ms, on, m), bound + 1)
  {
    if on {
      assert (ms + [m])[..|ms|] == ms;
    }
  }

  /** Ranked marks have every rank below the bound, each below the ranks after it. */
  lemma {:induction false} RankedOrdered(ms: seq<Mark>, bound: nat)
    requires RankedBelow(ms, bound)
    ensures forall i :: 0 <= i < |ms| ==> MarkRank(ms[i].kind) < bound
    ensures forall i, j :: 0 <= i < j < |ms| ==> MarkRank(ms[i].kind) < MarkRank(ms[j].kind)
  {
    if |ms| > 0 {
      var front, r := ms[..|ms| - 1], MarkRank(ms[|ms| - 1].kind);
      RankedOrdered(front, r);
      assert forall i :: 0 <= i < |front| ==> ms[i] == front[i];
    }
  }

  /** The marks of a leaf rank strictly increasing in push order. */
  lemma LeafMarksRanked(leaf: LegacyNode)
    requires leaf.Leaf?
    ensures RankedBelow(LeafMarks(leaf), 4)
  {
    assert MarkRank("italic") == 1 && MarkRank("underline") == 2 && MarkRank("textStyle") == 3;
    var m1 := Push([], leaf.bold, Mark("bold", None));
    var m2 := Push(m1, leaf.italic, Mark("italic", None));
    var m3 := Push(m2, leaf.underline, Mark("underline", None));
    RankedPush([], 0, leaf.bold, Mark("bold", None));
    RankedPush(m1, 1, leaf.italic, Mark("italic", None));
    RankedPush(m2, 2, leaf.underline, Mark("underline", None));
    RankedPush(m3, 3, Truthy(leaf.color), Mark("textStyle", leaf.color));
  }

  /** Marks of strictly increasing rank have pairwise distinct kinds. */
  lemma RankedDistinct(ms: seq<Mark>, bound: nat)
    requires RankedBelow(ms, bound)
    ensures forall i, j :: 0 <= i < |ms| && 0 <= j < |ms| && ms[i].kind == ms[j].kind ==> i == j
  {
    RankedOrdered(ms, bound);
  }

  /** A pushed list has a kind exactly when the list had it or the pushed mark is of it. */
  lemma PushHas(ms: seq<Mark>, on: bool, m: Mark, kind: string)
    ensures HasKind(Push(ms, on, m), kind) <==> HasKind(ms, kind) || (on && m.kind == kind)
  {
    if on {
      HasKindAppend(ms, m, kind);
    }
  }

  /** A leaf's marks hold a kind exactly when the flag, or for `textStyle` the color, pushing it is truthy. */
  lemma LeafKinds(leaf: LegacyNode, kind: string)
    requires leaf.Leaf?
    ensures HasKind(LeafMarks(leaf), kind) <==>
      (leaf.bold && kind == "bold") || (leaf.italic && kind == "italic")
      || (leaf.underline && kind == "underline") || (Truthy(leaf.color) && kind == "textStyle")
  {
    var m1 := Push([], leaf.bold, Mark("bold", None));
    var m2 := Push(m1, leaf.italic, Mark("italic", None));
    var m3 := Push(m2, leaf.underline, Mark("underline", None));
    assert !HasKind([], kind);
    PushHas([], leaf.bold, Mark("bold", None), kind);
    PushHas(m1, leaf.italic, Mark("italic", None), kind);
    PushHas(m2, leaf.underline, Mark("underline", None), kind);
    PushHas(m3, Truthy(leaf.color), Mark("textStyle", leaf.color), kind);
  }

  /** The only color mark of a leaf is its last, pushed for a truthy color and carrying it. */
  lemma LeafMarksColor(leaf: LegacyNode)
    requires leaf.Leaf?
    ensures var ms := LeafMarks(leaf);
      forall k :: 0 <= k < |ms| && ms[k].kind == "textStyle" ==> ms[k].color == leaf.color && Truthy(leaf.color)
  {
    var m1 := Push([], leaf.bold, Mark("bold", None));
    var m2 := Push(m1, leaf.italic, Mark("italic", None));
    var m3 := Push(m2, leaf.underline, Mark("underline", None));
    assert !HasKind([], "textStyle");
    PushHas([], leaf.bold, Mark("bold", None), "textStyle");
    PushHas(m1, leaf.italic, Mark("italic", None), "textStyle");
    PushHas(m2, leaf.underline, Mark("underline", None), "textStyle");
    var ms := LeafMarks(leaf);
    assert ms == Push(m3, Truthy(leaf.color), Mark("textStyle", leaf.color));
  }

  /**
   * The marks of a converted leaf come in the order bold, italic, underline,
   * textStyle, so no kind appears twice; a color mark carries the leaf's color.
   */
  lemma ConvertedMarksOrdered(leaf: LegacyNode)
    ensures var ms := MarksOf(ConvertedLeaf(leaf));
      forall i, j :: 0 <= i < j < |ms| ==> MarkRank(ms[i].kind) < MarkRank(ms[j].kind)
    ensures var ms := MarksOf(ConvertedLeaf(leaf));
      forall i, j :: 0 <= i < |ms| && 0 <= j < |ms| && ms[i].kind == ms[j].kind ==> i == j
    ensures var ms := MarksOf(ConvertedLeaf(leaf));
      forall i :: 0 <= i < |ms| && ms[i].kind == "textStyle" ==> ms[i].color == leaf.color && Truthy(leaf.color)
  {
    var ms := MarksOf(ConvertedLeaf(leaf));
    assert ms == LeafMarks(leaf);
    if leaf.Leaf? {
      LeafMarksRanked(leaf);
      LeafMarksColor(leaf);
    }
    RankedOrdered(ms, 4);
    RankedDistinct(ms, 4);
  }

  /** Each mark is present exactly when its flag, or for a color mark the color, is truthy. */
  lemma ConvertedMarkFlags(leaf: LegacyNode)
    ensures var r := ConvertedLeaf(leaf);
      (HasMark(r, "bold") <==> leaf.Leaf? && leaf.bold)
      && (HasMark(r, "italic") <==> leaf.Leaf? && leaf.italic)
      && (HasMark(r, "underline") <==> leaf.Leaf? && leaf.underline)
      && (HasMark(r, "textStyle") <==> leaf.Leaf? && Truthy(leaf.color))
  {
    var r := ConvertedLeaf(leaf);
    assert MarksOf(r) == LeafMarks(leaf);
    if leaf.Leaf? {
      LeafKinds(leaf, "bold");
      LeafKinds(leaf, "italic");
      LeafKinds(leaf, "underline");
      LeafKinds(leaf, "textStyle");
    }
  }

  /**
   * A converted leaf keeps its text; its `marks` field is absent exactly when
   * the leaf has no formatting of its own, and never present but empty.
   */
  lemma ConvertedLeafShape(leaf: LegacyNode)
    ensures var r := ConvertedLeaf(leaf);
      (leaf.Leaf? ==> r.text == leaf.text)
      && (leaf.Element? ==> r == Inline("", None))
      && (r.marks.None? <==> !(leaf.Leaf? && Compression.OwnFormatting(leaf)))
      && (r.marks.Some? ==> |r.marks.value| > 0)
  {
  }

  /** The color `toHtml` reads off a converted leaf is the leaf's color when that is truthy. */
  lemma ConvertedLeafColor(leaf: LegacyNode)
    requires leaf.Leaf?
    ensures Truthy(leaf.color) ==> Export.TextStyleColor(ConvertedLeaf(leaf)) == leaf.color
    ensures !Truthy(leaf.color) ==> Export.TextStyleColor(ConvertedLeaf(leaf)) == None
  {
    var ms := MarksOf(ConvertedLeaf(leaf));
    ConvertedMarksOrdered(leaf);
    ConvertedMarkFlags(leaf);
    var i := Export.TextStyleIndex(ms);
    if Truthy(leaf.color) {
      var k :| 0 <= k < |ms| && ms[k].kind == "textStyle";
      assert i <= k;
      assert ms[i].kind == "textStyle";
    } else {
      assert !HasMark(ConvertedLeaf(leaf), "textStyle");
      assert !(i < |ms|);
    }
  }

  /**
   * Migrating a leaf does not change how it exports: its doc-branch Markdown
   * and HTML are its legacy-branch Markdown and HTML.
   */
  lemma ConvertedLeafExports(leaf: LegacyNode)
    ensures Export.InlineMarkdown(ConvertedLeaf(leaf)) == Export.LeafMarkdown(leaf)
    ensures Export.InlineHtml(ConvertedLeaf(leaf)) == Export.LeafHtml(leaf)
  {
    ConvertedMarkFlags(leaf);
    if leaf.Leaf? {
      ConvertedLeafColor(leaf);
      Export.HtmlColorOutermost(leaf.text, leaf.bold, leaf.italic, leaf.underline, leaf.color);
    } else {
      assert Export.EscapeHtml("") == "";
    }
  }

  /* ---------- convertSlateToTiptap ---------- */

  /** `node.children?.map(convertLeaf) || []`. */
  function ConvertChildren(children: seq<LegacyNode>): (r: seq<Inline>)
    ensures |r| == |children|
    ensures forall i :: 0 <= i < |r| ==> r[i] == ConvertedLeaf(children[i])
  {
    seq(|children|, i requires 0 <= i < |children| => ConvertedLeaf(children[i]))
  }

  /**
   * `parseInt(kind.split("-")[1]) || 1`: the leading digits of the segment
   * after the first `-`, with no digits, or zero, read as level one.
   */
  function HeadingLevel(kind: string): (l: nat)
    ensures l >= 1
  {
    var parts := Split(kind, '-');
    var segment := if |parts| >= 2 then parts[1] else "";
    match ParseInt(segment)
    case Some(v) => if v == 0 then 1 else v
    case None => 1
  }

  /** One block for one legacy node, as the `map` callback of `convertSlateToTiptap` builds it. */
  function ConvertNode(n: LegacyNode): Block
  {
    var content := ConvertChildren(ChildNodes(n));
    var kind := KindOf(n);
    if !Truthy(kind) || kind.value == "paragraph" then Block("paragraph", None, content)
    else if StartsWith(kind.value, "heading-") then Block("heading", Some(HeadingLevel(kind.value)), content)
    else Block("paragraph", None, content)
  }

  function ConvertNodes(nodes: seq<LegacyNode>): (r: seq<Block>)
    ensures |r| == |nodes|
    ensures forall i :: 0 <= i < |r| ==> r[i] == ConvertNode(nodes[i])
  {
    seq(|nodes|, i requires 0 <= i < |nodes| => ConvertNode(nodes[i]))
  }

  /** `convertSlateToTiptap`: nothing for a value that is not an array. */
  function ConvertSlateToTiptap(t: Tree): Option<Doc>
  {
    match t
    case LegacyTree(nodes) => Some(Doc(ConvertNodes(nodes)))
    case _ => None
  }

  /** A type tag `convertSlateToTiptap` turns into a heading. */
  predicate IsHeadingTag(kind: Option<string>)
  {
    Truthy(kind) && kind.value != "paragraph" && StartsWith(kind.value, "heading-")
  }

  /**
   * The result is a doc exactly for an array, with one block per node in the
   * same order; the block is a heading exactly for a `heading-` tag, its level
   * at least one, and otherwise a paragraph without a level; its content is
   * the node's children converted one by one.
   */
  lemma ConvertShape(t: Tree)
    ensures ConvertSlateToTiptap(t).Some? <==> t.LegacyTree?
    ensures t.LegacyTree? ==> |ConvertSlateToTiptap(t).value.content| == |t.nodes|
    ensures t.LegacyTree? ==> forall i :: 0 <= i < |t.nodes| ==>
      var b, n := ConvertSlateToTiptap(t).value.content[i], t.nodes[i];
      (b.kind == "heading" <==> IsHeadingTag(KindOf(n)))
      && (b.kind == "heading" ==> b.level.Some? && b.level.value >= 1)
      && (b.kind != "heading" ==> b.kind == "paragraph" && b.level.None?)
      && |b.content| == |ChildNodes(n)|
      && (forall j :: 0 <= j < |b.content| ==> b.content[j] == ConvertedLeaf(ChildNodes(n)[j]))
  {
  }

  /* ---------- heading levels ---------- */

  /** `"heading-" + word` splits into `"heading"`, then the pieces of `word`. */
  lemma HeadingSegment(word: string)
    ensures Split("heading-" + word, '-') == ["heading"] + Split(word, '-')
  {
    assert "heading-" + word == "heading" + ['-'] + word;
    SplitAppend("heading", word, '-');
  }

  /** A tag whose segment has no leading digit, or reads as zero, is level one. */
  lemma HeadingLevelWord(word: string)
    requires '-' !in word
    requires |word| == 0 || !IsDigit(word[0])
    ensures HeadingLevel("heading-" + word) == 1
  {
    HeadingSegment(word);
    SplitNoSeparator(word, '-');
  }

  /** The three legacy heading tags: `heading-` tags, told apart from each other and from `paragraph`. */
  lemma LegacyTagFacts()
    ensures "heading-one" == "heading-" + "one" && StartsWith("heading-one", "heading-")
    ensures "heading-two" == "heading-" + "two" && StartsWith("heading-two", "heading-")
    ensures "heading-three" == "heading-" + "three" && StartsWith("heading-three", "heading-")
    ensures "heading-one" != "heading-two" && "heading-one" != "heading-three" && "heading-two" != "heading-three"
    ensures "heading-one" != "paragraph" && "heading-two" != "paragraph" && "heading-three" != "paragraph"
  {
    assert "heading-one"[8] != "heading-two"[8];
  }

  /** The three legacy heading tags, whose segments are words, all migrate to level one. */
  lemma LegacyTagsLevelOne(tag: string)
    requires tag in {"heading-one", "heading-two", "heading-three"}
    ensures HeadingLevel(tag) == 1
  {
    LegacyTagFacts();
    var w := if tag == "heading-one" then "one" else if tag == "heading-two" then "two" else "three";
    assert tag == "heading-" + w;
    HeadingLevelWord(w);
  }

  /** So a node with one of them becomes a level-one heading over its converted children. */
  lemma LegacyTagsConvert(n: LegacyNode)
    requires KindOf(n) in {Some("heading-one"), Some("heading-two"), Some("heading-three")}
    ensures ConvertNode(n) == Block("heading", Some(1), ConvertChildren(ChildNodes(n)))
  {
    LegacyTagFacts();
    LegacyTagsLevelOne(KindOf(n).value);
    ConvertHeading(n, 1);
  }

  /** A node with a `heading-` tag becomes a heading at that tag's level. */
  lemma ConvertHeading(n: LegacyNode, l: nat)
    requires IsHeadingTag(KindOf(n)) && HeadingLevel(KindOf(n).value) == l
    ensures ConvertNode(n) == Block("heading", Some(l), ConvertChildren(ChildNodes(n)))
  {
  }

  /** A numbered tag keeps its number: `heading-2` is level two. */
  lemma NumberedTagLevel()
    ensures HeadingLevel("heading-2") == 2
  {
    assert "heading-2" == "heading-" + NatToString(2) by {
      assert NatToString(2) == "2";
    }
    HeadingLevelNumber(2);
  }

  /** `heading-N` migrates to level `N` for every positive `N`. */
  lemma HeadingLevelNumber(n: nat)
    requires n >= 1
    ensures HeadingLevel("heading-" + NatToString(n)) == n
  {
    var s := NatToString(n);
    HeadingSegment(s);
    assert '-' !in s by {
      forall k | 0 <= k < |s| ensures s[k] != '-' {
        assert IsDigit(s[k]);
      }
    }
    SplitNoSeparator(s, '-');
    ParseIntNatToString(n, "");
    assert s + "" == s;
  }

  /* ---------- what migration keeps ---------- */

  /** A node whose children are all leaves. */
  predicate LeafChildren(n: LegacyNode)
  {
    forall j :: 0 <= j < |ChildNodes(n)| ==> ChildNodes(n)[j].Leaf?
  }

  /** The inline text rendered from converted leaf children is the legacy children rendering. */
  lemma ConvertedChildrenExports(cs: seq<LegacyNode>)
    requires forall j :: 0 <= j < |cs| ==> cs[j].Leaf?
    ensures Export.InlinesMarkdown(ConvertChildren(cs)) == Export.ChildrenToMd(cs)
    ensures Export.InlinesHtml(ConvertChildren(cs)) == Export.ChildrenToHtml(cs)
  {
    var content := ConvertChildren(cs);
    Export.LeafChildrenMarkdown(cs);
    var md, html := Export.LeafMarkdowns(cs), Export.LeafHtmls(cs);
    forall j | 0 <= j < |cs|
      ensures Export.InlineMarkdowns(content)[j] == md[j] && Export.InlineHtmls(content)[j] == html[j]
    {
      ConvertedLeafExports(cs[j]);
    }
    assert Export.InlineMarkdowns(content) == md;
    assert Export.InlineHtmls(content) == html;
  }

  /**
   * Migration never adds formatting: a migrated doc with a heading or a mark
   * comes from a legacy array with formatting.
   */
  lemma {:induction false} MigrationAddsNoFormatting(nodes: seq<LegacyNode>)
    ensures Compression.HasFormatting(DocTree(Doc(ConvertNodes(nodes)))) ==> Compression.HasFormatting(LegacyTree(nodes))
  {
    var d := Doc(ConvertNodes(nodes));
    Compression.DocHasFormattingIff(d);
    if Compression.HasFormatting(DocTree(d)) {
      var i :| 0 <= i < |d.content| && Compression.BlockHasFormatting(d.content[i]);
      assert Compression.NodeHasFormatting(nodes[i]) by {
        NodeFormattingKept(nodes[i]);
      }
    }
  }

  /** A formatted block comes from a formatted node. */
  lemma NodeFormattingKept(n: LegacyNode)
    ensures Compression.BlockHasFormatting(ConvertNode(n)) ==> Compression.NodeHasFormatting(n)
  {
    var b := ConvertNode(n);
    if Compression.BlockHasFormatting(b) && b.kind == "paragraph" {
      var j :| 0 <= j < |b.content| && Compression.HasMarks(b.content[j]);
      var c := ChildNodes(n)[j];
      ConvertedLeafShape(c);
      assert c.Leaf? && Compression.OwnFormatting(c);
      assert Compression.NodeHasFormatting(c);
      assert Compression.LegacyHasFormatting(ChildNodes(n));
    }
  }

  /**
   * For an array of elements whose tags are missing, `paragraph` or
   * `heading-` tags and whose children are all leaves, migration keeps
   * `hasFormatting` exactly.
   */
  lemma MigrationKeepsFormatting(nodes: seq<LegacyNode>)
    requires forall i :: 0 <= i < |nodes| ==> nodes[i].Element? && LeafChildren(nodes[i])
    requires forall i :: 0 <= i < |nodes| ==>
      !Truthy(KindOf(nodes[i])) || KindOf(nodes[i]) == Some("paragraph") || StartsWith(KindOf(nodes[i]).value, "heading-")
    ensures Compression.HasFormatting(DocTree(Doc(ConvertNodes(nodes)))) <==> Compression.HasFormatting(LegacyTree(nodes))
  {
    MigrationAddsNoFormatting(nodes);
    var d := Doc(ConvertNodes(nodes));
    Compression.DocHasFormattingIff(d);
    if Compression.HasFormatting(LegacyTree(nodes)) {
      var i :| 0 <= i < |nodes| && Compression.NodeHasFormatting(nodes[i]);
      NodeFormattingFound(nodes[i]);
      assert Compression.BlockHasFormatting(d.content[i]);
    }
  }

  /** A formatted element with leaf children and a tag the migrator knows gives a formatted block. */
  lemma NodeFormattingFound(n: LegacyNode)
    requires n.Element? && LeafChildren(n)
    requires !Truthy(n.kind) || n.kind == Some("paragraph") || StartsWith(n.kind.value, "heading-")
    requires Compression.NodeHasFormatting(n)
    ensures Compression.BlockHasFormatting(ConvertNode(n))
  {
    var b := ConvertNode(n);
    if !Compression.OwnFormatting(n) {
      var cs := ChildNodes(n);
      assert n.children.Present? && Compression.LegacyHasFormatting(cs);
      var j :| 0 <= j < |cs| && Compression.NodeHasFormatting(cs[j]);
      ConvertedLeafShape(cs[j]);
      assert Compression.HasMarks(b.content[j]);
    }
  }

  /** A node the migrator keeps rendering alike: not a `heading-` tag, or `heading-one`. */
  predicate MarkdownStable(n: LegacyNode)
  {
    !(Truthy(KindOf(n)) && StartsWith(KindOf(n).value, "heading-")) || KindOf(n) == Some("heading-one")
  }

  /** Migrating such a node keeps its Markdown export; the heading level is what tells. */
  lemma NodeMarkdownKept(n: LegacyNode)
    requires LeafChildren(n) && MarkdownStable(n)
    ensures Export.BlockMarkdown(ConvertNode(n)) == Export.LegacyBlockMarkdown(n)
  {
    var cs, b := ChildNodes(n), ConvertNode(n);
    ConvertedChildrenExports(cs);
    LegacyTagFacts();
    if KindOf(n) == Some("heading-one") {
      LegacyTagsConvert(n);
      Export.HeadingRendering(b);
      Export.LegacyHeadingRendering(n);
    } else {
      assert !IsHeadingTag(KindOf(n));
      assert b == Block("paragraph", None, ConvertChildren(cs));
      Export.LegacyBlockPlain(n);
    }
  }

  /**
   * For an array of such nodes the whole Markdown export is kept, the
   * block renderings joined by newlines on both sides.
   */
  lemma MigrationKeepsMarkdown(nodes: seq<LegacyNode>)
    requires forall i :: 0 <= i < |nodes| ==> LeafChildren(nodes[i]) && MarkdownStable(nodes[i])
    ensures Export.ToMarkdown(DocTree(Doc(ConvertNodes(nodes)))) == Export.ToMarkdown(LegacyTree(nodes))
  {
    var d := Doc(ConvertNodes(nodes));
    forall i | 0 <= i < |nodes|
      ensures Export.DocBlocksMarkdown(d)[i] == Export.LegacyBlocksMarkdown(nodes)[i]
    {
      NodeMarkdownKept(nodes[i]);
    }
    assert Export.DocBlocksMarkdown(d) == Export.LegacyBlocksMarkdown(nodes);
  }

  /**
   * The level `heading-two` migrates to is one, so its Markdown export
   * changes from `## ` to `# `.
   */
  lemma HeadingTwoLosesLevel(n: LegacyNode)
    requires KindOf(n) == Some("heading-two") && LeafChildren(n)
    ensures var md := Export.ChildrenToMd(ChildNodes(n));
      && ConvertNode(n).level == Some(1)
      && Export.LegacyBlockMarkdown(n) == "## " + md
      && Export.BlockMarkdown(ConvertNode(n)) == "# " + md
      && Export.BlockMarkdown(ConvertNode(n)) != Export.LegacyBlockMarkdown(n)
  {
    var cs, b := ChildNodes(n), ConvertNode(n);
    LegacyTagsConvert(n);
    ConvertedChildrenExports(cs);
    Export.HeadingRendering(b);
    Export.LegacyHeadingRendering(n);
    var md := Export.ChildrenToMd(cs);
    assert ("# " + md)[1] != ("## " + md)[1];
  }

  /* ---------- corrected heading levels ---------- */

  /**
   * The level a tag evidently means: the word segments `one`, `two`, `three`
   * of the legacy tags read as 1, 2, 3; any other tag as written.
   */
  function HeadingLevelFixed(kind: string): (l: nat)
    ensures l >= 1
  {
    if kind == "heading-one" then 1
    else if kind == "heading-two" then 2
    else if kind == "heading-three" then 3
    else HeadingLevel(kind)
  }

  function ConvertNodeFixed(n: LegacyNode): Block
  {
    var content := ConvertChildren(ChildNodes(n));
    var kind := KindOf(n);
    if !Truthy(kind) || kind.value == "paragraph" then Block("paragraph", None, content)
    else if StartsWith(kind.value, "heading-") then Block("heading", Some(HeadingLevelFixed(kind.value)), content)
    else Block("paragraph", None, content)
  }

  function ConvertNodesFixed(nodes: seq<LegacyNode>): (r: seq<Block>)
    ensures |r| == |nodes|
    ensures forall i :: 0 <= i < |r| ==> r[i] == ConvertNodeFixed(nodes[i])
  {
    seq(|nodes|, i requires 0 <= i < |nodes| => ConvertNodeFixed(nodes[i]))
  }

  /** `convertSlateToTiptap` with the word tags read as their levels. */
  function ConvertSlateToTiptapFixed(t: Tree): Option<Doc>
  {
    match t
    case LegacyTree(nodes) => Some(Doc(ConvertNodesFixed(nodes)))
    case _ => None
  }

  /** The corrected migration differs from the one as written only on `heading-two` and `heading-three`. */
  lemma ConvertFixedAgrees(n: LegacyNode)
    ensures KindOf(n) != Some("heading-two") && KindOf(n) != Some("heading-three") ==> ConvertNodeFixed(n) == ConvertNode(n)
  {
    if KindOf(n) == Some("heading-one") {
      LegacyTagsConvert(n);
    }
  }

  /** The corrected migration gives the three legacy heading tags levels one, two and three. */
  lemma FixedTagLevels(children: Children)
    ensures ConvertNodeFixed(Element(Some("heading-one"), children)).level == Some(1)
    ensures ConvertNodeFixed(Element(Some("heading-two"), children)).level == Some(2)
    ensures ConvertNodeFixed(Element(Some("heading-three"), children)).level == Some(3)
  {
    LegacyTagFacts();
  }

  /** A node the corrected migrator keeps rendering alike: any tag but a `heading-` tag outside the three legacy ones. */
  predicate FixedStable(n: LegacyNode)
  {
    !(Truthy(KindOf(n)) && StartsWith(KindOf(n).value, "heading-"))
    || KindOf(n) in {Some("heading-one"), Some("heading-two"), Some("heading-three")}
  }

  /** The corrected migration keeps a node's Markdown and its corrected HTML export. */
  lemma NodeExportsKeptFixed(n: LegacyNode)
    requires LeafChildren(n) && FixedStable(n)
    ensures Export.BlockMarkdown(ConvertNodeFixed(n)) == Export.LegacyBlockMarkdown(n)
    ensures Export.BlockHtml(ConvertNodeFixed(n)) == Export.LegacyBlockHtmlFixed(n)
  {
    var cs, b, k := ChildNodes(n), ConvertNodeFixed(n), KindOf(n);
    ConvertedChildrenExports(cs);
    LegacyTagFacts();
    if k == Some("heading-one") || k == Some("heading-two") || k == Some("heading-three") {
      assert b == Block("heading", Some(HeadingLevelFixed(k.value)), ConvertChildren(cs));
      Export.HeadingRendering(b);
      Export.LegacyHeadingRendering(n);
    } else {
      assert !IsHeadingTag(k);
      assert b == Block("paragraph", None, ConvertChildren(cs));
      Export.LegacyBlockPlain(n);
    }
  }

  /**
   * The corrected migration keeps the whole Markdown export and the whole
   * corrected HTML body of an array of such nodes.
   */
  lemma MigrationKeepsExportsFixed(nodes: seq<LegacyNode>)
    requires forall i :: 0 <= i < |nodes| ==> LeafChildren(nodes[i]) && FixedStable(nodes[i])
    ensures Export.ToMarkdown(DocTree(Doc(ConvertNodesFixed(nodes)))) == Export.ToMarkdown(LegacyTree(nodes))
    ensures Export.HtmlBody(DocTree(Doc(ConvertNodesFixed(nodes)))) == Export.LegacyHtmlBodyFixed(nodes)
  {
    var d := Doc(ConvertNodesFixed(nodes));
    forall i | 0 <= i < |nodes|
      ensures Export.DocBlocksMarkdown(d)[i] == Export.LegacyBlocksMarkdown(nodes)[i]
      ensures Export.DocBlocksHtml(d)[i] == Export.LegacyBlocksHtmlFixed(nodes)[i]
    {
      NodeExportsKeptFixed(nodes[i]);
    }
    assert Export.DocBlocksMarkdown(d) == Export.LegacyBlocksMarkdown(nodes);
    assert Export.DocBlocksHtml(d) == Export.LegacyBlocksHtmlFixed(nodes);
  }
}
