/**
 * The URL serializer of app/lib/compression.ts: the formatting test that picks
 * the payload kind, the plain-text mapping in both directions, and the
 * serializer and deserializer around the compression codec.
 */
module Compression {
  import opened Wrappers
  import opened Seqs
  import opened Schema

  /**
   * The LZString pair `compressToEncodedURIComponent` and
   * `decompressFromEncodedURIComponent`, handed in as parameters; decompression
   * may fail.
   */
  datatype Codec = Codec(compress: string -> string, decompress: string -> Option<string>)

  /** The codec's promise: decompression undoes compression. */
  ghost predicate CodecRoundTrips(c: Codec)
  {
    forall s :: c.decompress(c.compress(s)) == Some(s)
  }

  /** `JSON.stringify` and `JSON.parse` over tree values; parsing may throw (`None`). */
  datatype Json = Json(stringify: Tree -> string, parse: string -> Option<Tree>)

  /** JSON's promise: parsing undoes stringifying. */
  ghost predicate JsonRoundTrips(j: Json)
  {
    forall t :: j.parse(j.stringify(t)) == Some(t)
  }

  /** The two-character prefix that marks a rich payload. */
  const RichPrefix: string := "r:"

  /* ---------- hasFormatting ---------- */

  /** Whether `hasFormatting` asks for the rich payload. */
  predicate HasFormatting(t: Tree)
  {
    match t
    case DocTree(d) => DocHasFormatting(d)
    case LegacyTree(nodes) => LegacyHasFormatting(nodes)
    case Other => false
  }

  /** A current-schema inline node carries a non-empty marks list. */
  predicate HasMarks(c: Inline)
  {
    |MarksOf(c)| > 0
  }

  /** A current-schema block is not a paragraph, or one of its inline nodes has marks. */
  predicate BlockHasFormatting(b: Block)
  {
    b.kind != "paragraph" || Any(b.content, HasMarks)
  }

  predicate DocHasFormatting(d: Doc)
  {
    Any(d.content, BlockHasFormatting)
  }

  /**
   * The `for ... of` loop over a legacy array: it returns true at the first node
   * that has formatting of its own or, for an element, among its children.
   */
  predicate LegacyHasFormatting(nodes: seq<LegacyNode>)
    ensures LegacyHasFormatting(nodes) <==> exists i :: 0 <= i < |nodes| && NodeHasFormatting(nodes[i])
    decreases nodes, 1
  {
    if |nodes| == 0 then false
    else NodeHasFormatting(nodes[0]) || LegacyHasFormatting(nodes[1..])
  }

  predicate NodeHasFormatting(n: LegacyNode)
    decreases n, 0
  {
    match n
    case Leaf(_, _, _, _, _) => OwnFormatting(n)
    case Element(_, children) => OwnFormatting(n) || (children.Present? && LegacyHasFormatting(children.nodes))
  }

  /**
   * Formatting a legacy node carries itself: a truthy bold, italic, underline or
   * color on a leaf; a present type other than `"paragraph"` on an element.
   */
  predicate OwnFormatting(n: LegacyNode)
  {
    match n
    case Leaf(_, bold, italic, underline, color) => bold || italic || underline || Truthy(color)
    case Element(kind, _) => Truthy(kind) && kind.value != "paragraph"
  }

  /** Every node of a legacy forest at every depth, each before its children. */
  function Descendants(nodes: seq<LegacyNode>): seq<LegacyNode>
    decreases nodes, 1
  {
    if |nodes| == 0 then [] else NodeDescendants(nodes[0]) + Descendants(nodes[1..])
  }

  /** A legacy node followed by all the nodes below it. */
  function NodeDescendants(n: LegacyNode): (r: seq<LegacyNode>)
    ensures |r| > 0 && r[0] == n
    decreases n, 0
  {
    match n
    case Element(_, Present(cs)) => [n] + Descendants(cs)
    case _ => [n]
  }

  /** Some element of a sequence of legacy nodes has formatting of its own. */
  predicate SomeOwnFormatting(s: seq<LegacyNode>)
  {
    exists k :: 0 <= k < |s| && OwnFormatting(s[k])
  }

  /** On a doc tree: some block is not a paragraph, or some inline node has marks. */
  lemma DocHasFormattingIff(d: Doc)
    ensures HasFormatting(DocTree(d)) <==>
      (exists i :: 0 <= i < |d.content| && d.content[i].kind != "paragraph") ||
      (exists i, j :: 0 <= i < |d.content| && 0 <= j < |d.content[i].content| &&
                      |MarksOf(d.content[i].content[j])| > 0)
  {
    if HasFormatting(DocTree(d)) {
      var i :| 0 <= i < |d.content| && BlockHasFormatting(d.content[i]);
      if d.content[i].kind == "paragraph" {
        var j :| 0 <= j < |d.content[i].content| && HasMarks(d.content[i].content[j]);
      }
    } else {
      forall i, j | 0 <= i < |d.content| && 0 <= j < |d.content[i].content|
        ensures |MarksOf(d.content[i].content[j])| == 0
      {
        assert !BlockHasFormatting(d.content[i]);
      }
    }
  }

  /** On a legacy array: some node at some depth has formatting of its own. */
  lemma LegacyHasFormattingIff(nodes: seq<LegacyNode>)
    ensures HasFormatting(LegacyTree(nodes)) <==> SomeOwnFormatting(Descendants(nodes))
  {
    ForestFormattingIff(nodes);
  }

  lemma {:induction false} ForestFormattingIff(nodes: seq<LegacyNode>)
    ensures LegacyHasFormatting(nodes) <==> SomeOwnFormatting(Descendants(nodes))
    decreases nodes, 1
  {
    if |nodes| > 0 {
      NodeFormattingIff(nodes[0]);
      ForestFormattingIff(nodes[1..]);
      SomeOwnFormattingConcat(NodeDescendants(nodes[0]), Descendants(nodes[1..]));
    }
  }

  lemma {:induction false} NodeFormattingIff(n: LegacyNode)
    ensures NodeHasFormatting(n) <==> SomeOwnFormatting(NodeDescendants(n))
    decreases n, 0
  {
    assert NodeDescendants(n)[0] == n;
    match n
    case Element(_, Present(cs)) =>
      ForestFormattingIff(cs);
      SomeOwnFormattingConcat([n], Descendants(cs));
    case _ =>
  }

  lemma SomeOwnFormattingConcat(a: seq<LegacyNode>, b: seq<LegacyNode>)
    ensures SomeOwnFormatting(a + b) <==> SomeOwnFormatting(a) || SomeOwnFormatting(b)
  {
    if SomeOwnFormatting(a + b) {
      var k :| 0 <= k < |a + b| && OwnFormatting((a + b)[k]);
      if k >= |a| {
        assert (a + b)[k] == b[k - |a|];
      } else {
        assert (a + b)[k] == a[k];
      }
    }
    if SomeOwnFormatting(a) {
      var k :| 0 <= k < |a| && OwnFormatting(a[k]);
      assert (a + b)[k] == a[k];
    }
    if SomeOwnFormatting(b) {
      var k :| 0 <= k < |b| && OwnFormatting(b[k]);
      assert (a + b)[k + |a|] == b[k];
    }
  }

  /* ---------- plain text ---------- */

  /** The text of a current-schema block: its inline texts, concatenated. */
  function BlockText(b: Block): string
  {
    Concat(InlineTexts(b.content))
  }

  /** `c.text ?? ""` of each inline node. */
  function InlineTexts(content: seq<Inline>): (r: seq<string>)
    ensures |r| == |content|
    ensures forall j :: 0 <= j < |r| ==> r[j] == content[j].text
  {
    seq(|content|, j requires 0 <= j < |content| => content[j].text)
  }

  /** The plain text of each block of a document, in order. */
  function BlockTexts(d: Doc): (r: seq<string>)
    ensures |r| == |d.content|
    ensures forall i :: 0 <= i < |r| ==> r[i] == BlockText(d.content[i])
  {
    seq(|d.content|, i requires 0 <= i < |d.content| => BlockText(d.content[i]))
  }

  /**
   * `toPlainText`: a doc's blocks one per line; a legacy array's nodes one per
   * line, at every depth (so a legacy block's leaves also land on lines of their
   * own); anything else is empty.
   */
  function ToPlainText(t: Tree): string
  {
    match t
    case DocTree(d) => Join(BlockTexts(d), "\n")
    case LegacyTree(nodes) => LegacyText(nodes)
    case Other => ""
  }

  function LegacyText(nodes: seq<LegacyNode>): string
    decreases nodes, 2
  {
    Join(LegacyLines(nodes), "\n")
  }

  /** The lines of a legacy array, one per node. */
  function LegacyLines(nodes: seq<LegacyNode>): (r: seq<string>)
    ensures |r| == |nodes|
    decreases nodes, 1
  {
    if |nodes| == 0 then [] else [NodeLine(nodes[0])] + LegacyLines(nodes[1..])
  }

  /** The line a legacy node contributes: a leaf its text, an element its children's text. */
  function NodeLine(n: LegacyNode): string
    decreases n, 0
  {
    match n
    case Leaf(text, _, _, _, _) => text
    case Element(_, Present(cs)) => LegacyText(cs)
    case Element(_, Absent) => ""
  }

  /** The paragraph `fromPlainText` makes of one line: no inline node for an empty line. */
  function PlainParagraph(line: string): Block
  {
    Block("paragraph", None, if line != "" then [Inline(line, None)] else [])
  }

  /**
   * `fromPlainText`: one paragraph per line of `text`, as many as there are
   * newlines plus one, in order; an empty line gives an empty paragraph,
   * any other line one unmarked text node holding it.
   */
  function FromPlainText(text: string): (d: Doc)
    ensures |d.content| == |Split(text, '\n')| == Occurrences(text, '\n') + 1
    ensures forall i :: 0 <= i < |d.content| ==>
      var line := Split(text, '\n')[i];
      && '\n' !in line
      && d.content[i].kind == "paragraph" && d.content[i].level == None
      && (d.content[i].content == [] <==> line == "")
      && (line != "" ==> d.content[i].content == [Inline(line, None)])
  {
    var lines := Split(text, '\n');
    SplitPieces(text, '\n');
    Doc(seq(|lines|, i requires 0 <= i < |lines| => PlainParagraph(lines[i])))
  }

  /**
   * The legacy branch joins the leaves of one element with newlines too, so a
   * paragraph of two leaves gives two lines, not one.
   */
  lemma LegacyLeavesOnOwnLines(a: string, b: string)
    ensures ToPlainText(LegacyTree([Element(Some("paragraph"),
      Present([Leaf(a, false, false, false, None), Leaf(b, false, false, false, None)]))])) == a + "\n" + b
  {
    var cs := [Leaf(a, false, false, false, None), Leaf(b, false, false, false, None)];
    var e := Element(Some("paragraph"), Present(cs));
    assert LegacyLines(cs[1..]) == [b];
    assert LegacyLines(cs) == [a, b];
    assert [a, b][1..] == [b];
    assert NodeLine(e) == Join([a, b], "\n") == a + "\n" + b;
    assert LegacyLines([e]) == [NodeLine(e)];
  }

  /** Plain text survives the trip through a document: `split` and `join` are inverse. */
  lemma PlainTextRoundTrip(s: string)
    ensures ToPlainText(DocTree(FromPlainText(s))) == s
  {
    var lines := Split(s, '\n');
    var d := FromPlainText(s);
    forall i | 0 <= i < |lines| ensures BlockText(d.content[i]) == lines[i] {
      var b := d.content[i];
      if lines[i] != "" {
        assert b.content == [Inline(lines[i], None)];
        assert InlineTexts(b.content) == [lines[i]];
      } else {
        assert InlineTexts(b.content) == [];
      }
    }
    assert BlockTexts(d) == lines;
    JoinSplit(s, '\n');
  }

  /** A document made from plain text never asks for the rich payload. */
  lemma PlainTextHasNoFormatting(s: string)
    ensures !HasFormatting(DocTree(FromPlainText(s)))
  {
    var d := FromPlainText(s);
    forall i | 0 <= i < |d.content| ensures !BlockHasFormatting(d.content[i]) {
      var b := d.content[i];
      assert forall j :: 0 <= j < |b.content| ==> !HasMarks(b.content[j]);
    }
  }

  /**
   * When no inline text holds a newline, the plain text of a non-empty doc has
   * exactly one line per block, each that block's text.
   */
  lemma PlainTextLines(d: Doc)
    requires |d.content| > 0
    requires forall i, j :: 0 <= i < |d.content| && 0 <= j < |d.content[i].content| ==>
      '\n' !in d.content[i].content[j].text
    ensures Split(ToPlainText(DocTree(d)), '\n') == BlockTexts(d)
  {
    forall i | 0 <= i < |d.content| ensures '\n' !in BlockText(d.content[i]) {
      var b := d.content[i];
      JoinAvoids(InlineTexts(b.content), "", '\n');
    }
    SplitJoin(BlockTexts(d), '\n');
  }

  /* ---------- URL token ---------- */

  /**
   * `serializeToUrl`: the compressed rich payload `"r:" + JSON` when the tree has
   * formatting, otherwise the compressed plain text.
   */
  function SerializeToUrl(codec: Codec, json: Json, t: Tree): string
  {
    if HasFormatting(t) then codec.compress(RichPrefix + json.stringify(t))
    else codec.compress(ToPlainText(t))
  }

  /**
   * `deserializeFromUrl`: `None` when decompression fails or gives the empty
   * string; the parsed JSON after a `"r:"` prefix (`None` when parsing throws);
   * otherwise the document of the plain text. The result is never migrated.
   */
  function DeserializeFromUrl(codec: Codec, json: Json, hash: string): Option<Tree>
  {
    match codec.decompress(hash)
    case None => None
    case Some(raw) =>
      if raw == "" then None
      else if StartsWith(raw, RichPrefix) then json.parse(raw[|RichPrefix|..])
      else Some(DocTree(FromPlainText(raw)))
  }

  /** Failure and an empty payload both read as no document. */
  lemma DeserializeRejects(codec: Codec, json: Json, hash: string)
    requires codec.decompress(hash) == None || codec.decompress(hash) == Some("")
    ensures DeserializeFromUrl(codec, json, hash) == None
  {
  }

  /** A payload that parses as rich is whatever JSON makes of the rest: never a migrated tree. */
  lemma DeserializeRichIsParse(codec: Codec, json: Json, hash: string)
    requires codec.decompress(hash).Some? && StartsWith(codec.decompress(hash).value, RichPrefix)
    ensures DeserializeFromUrl(codec, json, hash) == json.parse(codec.decompress(hash).value[2..])
  {
  }

  /** A formatted tree is carried by a payload that begins with `"r:"`. */
  lemma FormattedTakesRichBranch(codec: Codec, json: Json, t: Tree)
    requires CodecRoundTrips(codec)
    requires HasFormatting(t)
    ensures codec.decompress(SerializeToUrl(codec, json, t)).Some?
    ensures StartsWith(codec.decompress(SerializeToUrl(codec, json, t)).value, RichPrefix)
  {
    assert codec.decompress(codec.compress(RichPrefix + json.stringify(t))) == Some(RichPrefix + json.stringify(t));
  }

  /** An unformatted tree is carried by its plain text, prefix or not. */
  lemma UnformattedTakesPlainBranch(codec: Codec, json: Json, t: Tree)
    requires CodecRoundTrips(codec)
    requires !HasFormatting(t)
    ensures codec.decompress(SerializeToUrl(codec, json, t)) == Some(ToPlainText(t))
  {
    assert codec.decompress(codec.compress(ToPlainText(t))) == Some(ToPlainText(t));
  }

  /** A formatted tree reads back exactly. */
  lemma RichRoundTrip(codec: Codec, json: Json, t: Tree)
    requires CodecRoundTrips(codec) && JsonRoundTrips(json)
    requires HasFormatting(t)
    ensures DeserializeFromUrl(codec, json, SerializeToUrl(codec, json, t)) == Some(t)
  {
    var payload := RichPrefix + json.stringify(t);
    assert codec.decompress(codec.compress(payload)) == Some(payload);
    assert payload[|RichPrefix|..] == json.stringify(t);
    assert json.parse(json.stringify(t)) == Some(t);
  }

  /**
   * A document made from non-empty plain text that does not begin with `"r:"`
   * reads back exactly.
   */
  lemma PlainRoundTrip(codec: Codec, json: Json, s: string)
    requires CodecRoundTrips(codec)
    requires s != "" && !StartsWith(s, RichPrefix)
    ensures DeserializeFromUrl(codec, json, SerializeToUrl(codec, json, DocTree(FromPlainText(s))))
         == Some(DocTree(FromPlainText(s)))
  {
    PlainTextHasNoFormatting(s);
    PlainTextRoundTrip(s);
    assert codec.decompress(codec.compress(s)) == Some(s);
  }

  /** An unformatted tree with no text, such as the empty document, reads back as no document. */
  lemma EmptyDocumentNotRestored(codec: Codec, json: Json, t: Tree)
    requires CodecRoundTrips(codec)
    requires !HasFormatting(t) && ToPlainText(t) == ""
    ensures DeserializeFromUrl(codec, json, SerializeToUrl(codec, json, t)) == None
  {
    assert codec.decompress(codec.compress("")) == Some("");
  }

  /** The empty document of `fromPlainText("")` is one such tree. */
  lemma EmptyPlainDocumentNotRestored(codec: Codec, json: Json)
    requires CodecRoundTrips(codec)
    ensures FromPlainText("").content == [Block("paragraph", None, [])]
    ensures DeserializeFromUrl(codec, json, SerializeToUrl(codec, json, DocTree(FromPlainText("")))) == None
  {
    PlainTextHasNoFormatting("");
    PlainTextRoundTrip("");
    EmptyDocumentNotRestored(codec, json, DocTree(FromPlainText("")));
  }

  /**
   * A plain note whose text is `"r:"` followed by the JSON of some other tree
   * is serialized as plain text and read back as that other tree.
   */
  lemma RichPrefixPlainTextMisread(codec: Codec, json: Json, t: Tree)
    requires CodecRoundTrips(codec) && JsonRoundTrips(json)
    ensures var d := DocTree(FromPlainText(RichPrefix + json.stringify(t)));
      && !HasFormatting(d)
      && DeserializeFromUrl(codec, json, SerializeToUrl(codec, json, d)) == Some(t)
      && (t != d ==> DeserializeFromUrl(codec, json, SerializeToUrl(codec, json, d)) != Some(d))
  {
    var s := RichPrefix + json.stringify(t);
    PlainTextHasNoFormatting(s);
    PlainTextRoundTrip(s);
    assert codec.decompress(codec.compress(s)) == Some(s);
    assert s[|RichPrefix|..] == json.stringify(t);
    assert json.parse(json.stringify(t)) == Some(t);
  }

  /* ---------- corrected serializer and deserializer ---------- */

  /**
   * The serializer with the prefix collision removed: a tree whose plain text
   * begins with `"r:"` also takes the rich payload.
   */
  function SerializeToUrlFixed(codec: Codec, json: Json, t: Tree): string
  {
    if HasFormatting(t) || StartsWith(ToPlainText(t), RichPrefix) then codec.compress(RichPrefix + json.stringify(t))
    else codec.compress(ToPlainText(t))
  }

  /** The deserializer that reads an empty payload as the empty document. */
  function DeserializeFromUrlFixed(codec: Codec, json: Json, hash: string): Option<Tree>
  {
    match codec.decompress(hash)
    case None => None
    case Some(raw) =>
      if StartsWith(raw, RichPrefix) then json.parse(raw[|RichPrefix|..])
      else Some(DocTree(FromPlainText(raw)))
  }

  /**
   * With the corrections, a tree sent rich reads back exactly and any other
   * tree reads back as the document of its plain text.
   */
  lemma FixedRoundTrip(codec: Codec, json: Json, t: Tree)
    requires CodecRoundTrips(codec) && JsonRoundTrips(json)
    ensures DeserializeFromUrlFixed(codec, json, SerializeToUrlFixed(codec, json, t)) ==
      if HasFormatting(t) || StartsWith(ToPlainText(t), RichPrefix) then Some(t)
      else Some(DocTree(FromPlainText(ToPlainText(t))))
  {
    var payload := RichPrefix + json.stringify(t);
    assert codec.decompress(codec.compress(payload)) == Some(payload);
    assert payload[|RichPrefix|..] == json.stringify(t);
    assert json.parse(json.stringify(t)) == Some(t);
    assert codec.decompress(codec.compress(ToPlainText(t))) == Some(ToPlainText(t));
  }

  /** With the corrections, every document made from plain text reads back exactly, the empty one included. */
  lemma FixedPlainRoundTrip(codec: Codec, json: Json, s: string)
    requires CodecRoundTrips(codec) && JsonRoundTrips(json)
    ensures DeserializeFromUrlFixed(codec, json, SerializeToUrlFixed(codec, json, DocTree(FromPlainText(s))))
         == Some(DocTree(FromPlainText(s)))
  {
    PlainTextRoundTrip(s);
    FixedRoundTrip(codec, json, DocTree(FromPlainText(s)));
  }
}
