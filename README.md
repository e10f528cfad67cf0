# Document serialization and export pipeline

This project is a Dafny model of the document pipeline in `app/lib` of
textarea-share, a browser notepad that keeps the whole note in the page URL.
The model covers three parts:

- **URL token** (`app/lib/compression.ts`). `hasFormatting` decides whether a
  note needs the rich payload. If it does, `serializeToUrl` compresses
  `"r:" + JSON`. Otherwise it compresses the note's plain text.
  `deserializeFromUrl` branches on the `"r:"` prefix. It turns plain text back
  into a document with `fromPlainText`.
- **Exporters** (`app/lib/export.ts`). These are HTML escaping, Markdown and
  HTML mark wrapping of one text run, block rendering for both document
  schemas, and the fixed HTML shell that `toHtml` returns.
- **Schema migrator** (`app/lib/tiptap-migration.ts`). It upgrades a legacy
  Slate array to the Tiptap `doc` schema. `convertLeaf` pushes the marks of a
  leaf in a fixed order.

The dynamically typed values of the source are datatypes in `schema.dfy`:

- `Tree` is a current-schema `doc`, a legacy array, or any other value.
- A legacy node is a `Leaf` (it has `text`) or an `Element` (it has no `text`).
- A field that may be missing is an `Option`. Its default is the one the
  source's `??` or `||` supplies.

LZString and `JSON` are foreign code. Each is a pair of functions passed in as
a parameter (`Compression.Codec`, `Compression.Json`). Their round-trip
promises are the ghost predicates `CodecRoundTrips` and `JsonRoundTrips`. A
lemma that relies on a promise takes it as a precondition.

The source rebinds a local `let t` in `leafToMd`, `leafToHtml` and the
doc-branch inline renderers. Those steps are the methods
`Export.WrapMarkdown` and `Export.WrapHtml`. `toHtml` assigns `let body`; that
is the method `Export.ToHtml`. `convertLeaf` pushes onto a local array; that
is the method `Migration.ConvertLeaf`.

Each method is proved equal to a function. No member calls the methods. The
recursive renderers (`ChildrenToMd`, `BlockMarkdown`, `HtmlBody`, ...) and
`convertSlateToTiptap`'s `map` (`ConvertNode`) use the functions
`MarkdownRun`, `HtmlWrap`, `LeafMarkdown`, `LeafHtml`, `InlineMarkdown`,
`InlineHtml` and `ConvertedLeaf`. The properties are stated about those
functions too.

`export.ts` repeats `toPlainText` from `compression.ts` verbatim. It is
modelled once, as `Compression.ToPlainText`.

Files: `wrappers.dfy` (Option), `seqs.dfy` (`some`, `join`, `split`,
`startsWith`, `repeat`, decimal printing, `parseInt`), `schema.dfy`,
`compression.dfy`, `export.dfy`, `migration.dfy`.

Where the repository's own description of the pipeline and its code
disagree, the model follows the code:

- The description has the deserializer route a decoded legacy array through
  the migrator. `deserializeFromUrl` (app/lib/compression.ts:75-79) returns
  the parsed value unchanged, and `Compression.DeserializeRichIsParse` states
  exactly that.
- The description gives every line of `fromPlainText` exactly one text node.
  The code gives an empty line no inline node at all
  (app/lib/compression.ts:60), and `Compression.FromPlainText` states that.
- The description wraps bold outermost and underline innermost
  (`**_text_**`). The code wraps bold innermost and underline outermost
  (app/lib/export.ts:10-12 and 69-71), as `Export.MarkdownWrapOrder` states
  (`_**x**_`).
- The description makes plain text one line per block, each block's inline
  text joined together. The legacy branch of `toPlainText`
  (app/lib/compression.ts:40-49, repeated in `export.ts`) joins an element's
  leaves with newlines as well. So a paragraph of the leaves `a` and `b` gives
  `a\nb`, two lines for one block, as `Compression.LegacyLeavesOnOwnLines`
  states.
- The description has a `heading-two` node migrate to level 2, and the empty
  document read back as one empty paragraph. The code does neither. Both are
  listed under Findings, with corrected versions proved beside the code as
  written.

## Model

| member | source | states |
|---|---|---|
| Seqs.Any | app/lib/compression.ts:13-16 | `some` is true exactly when some element satisfies the predicate |
| Seqs.SplitPieces | app/lib/compression.ts:58 | `split` on one character gives one more piece than the number of separators, and no piece holds the separator |
| Seqs.JoinSplit | app/lib/compression.ts:35-38 | joining the pieces of a split with the separator gives back the string |
| Seqs.SplitJoin | app/lib/compression.ts:58 | splitting a join of one or more separator-free pieces gives back the pieces |
| Seqs.ParseIntNatToString | app/lib/tiptap-migration.ts:13 | the leading-digits `parseInt` reads back the decimal spelling of any number followed by nothing or by a non-digit |
| Seqs.LeadingDigits | app/lib/tiptap-migration.ts:13 | the result is the longest digit-only prefix: a prefix, all digits, followed by a non-digit or the end |
| Seqs.ParseInt | app/lib/tiptap-migration.ts:13 | the result is `NaN` (`None`) exactly when the string is empty or does not start with a digit |
| Compression.LegacyHasFormatting | app/lib/compression.ts:18-28 | the loop returns true exactly when some node of the array has formatting of its own or among its children |
| Compression.DocHasFormattingIff | app/lib/compression.ts:12-17 | a doc has formatting exactly when some block is not a paragraph or some inline node has a non-empty marks list |
| Compression.LegacyHasFormattingIff | app/lib/compression.ts:18-28 | a legacy array has formatting exactly when some node at any depth has formatting of its own: a truthy bold, italic, underline or color on a leaf, or a present type other than `paragraph` on an element |
| Compression.NodeFormattingIff | app/lib/compression.ts:20-26 | one node has formatting exactly when it or a node below it has formatting of its own |
| Compression.FromPlainText | app/lib/compression.ts:54-63 | the doc has one paragraph per line, as many as the newlines plus one, in line order; a block's content is empty exactly when its line is empty, and is otherwise one unmarked text node holding the line |
| Compression.PlainTextRoundTrip | app/lib/compression.ts:32-39 | `toPlainText(fromPlainText(s)) == s` for every string |
| Compression.LegacyLeavesOnOwnLines | app/lib/compression.ts:40-49 | a legacy paragraph of two leaves `a` and `b` has the plain text `a`, a newline, then `b` |
| Compression.PlainTextHasNoFormatting | app/lib/compression.ts:11-17 | a document made from plain text never has formatting |
| Compression.PlainTextLines | app/lib/compression.ts:33-38 | when no inline text holds a newline, splitting the plain text of a non-empty doc gives exactly the block texts |
| Compression.DeserializeRejects | app/lib/compression.ts:72-74 | a failed or empty decompression deserializes to null |
| Compression.DeserializeRichIsParse | app/lib/compression.ts:75-79 | a payload starting with `"r:"` deserializes to whatever `JSON.parse` makes of the rest, and is never migrated |
| Compression.FormattedTakesRichBranch | app/lib/compression.ts:65-68 | given the codec round trip, a formatted tree's token decompresses to a payload starting with `"r:"` |
| Compression.UnformattedTakesPlainBranch | app/lib/compression.ts:65-70 | given the codec round trip, an unformatted tree's token decompresses to its plain text, whatever prefix that text has |
| Compression.RichRoundTrip | app/lib/compression.ts:65-79 | given both round trips, a formatted tree deserializes to itself |
| Compression.PlainRoundTrip | app/lib/compression.ts:65-81 | given the codec round trip, the document of a non-empty plain text that does not start with `"r:"` deserializes to itself |
| Compression.EmptyDocumentNotRestored | app/lib/compression.ts:69-74 | an unformatted tree with empty plain text deserializes to null |
| Compression.EmptyPlainDocumentNotRestored | app/lib/compression.ts:54-74 | `fromPlainText("")` is one empty paragraph, and its token deserializes to null |
| Compression.RichPrefixPlainTextMisread | app/lib/compression.ts:65-80 | a plain note whose text is `"r:"` plus the JSON of another tree takes the plain branch and reads back as that other tree |
| Compression.FixedRoundTrip | app/lib/compression.ts:65-81 | with both corrections, a tree sent rich reads back exactly, and any other tree reads back as the document of its plain text |
| Compression.FixedPlainRoundTrip | app/lib/compression.ts:54-81 | with both corrections, every document made from plain text reads back exactly, the empty one included |
| Export.EscapeEach | app/lib/export.ts:3-5 | escaping each character alone gives text with no `<` or `>`, at least as long as the input |
| Export.EscapeHtmlIsEscapeEach | app/lib/export.ts:3-5 | because `&` is replaced first, the three `replace` passes escape each character on its own |
| Export.EscapeHtmlProperties | app/lib/export.ts:3-5 | the escaped text holds no `<` and no `>`, is at least as long as the input, and unescapes to the input, so each `&` became exactly `&amp;` |
| Export.UnescapeEscapeEach | app/lib/export.ts:3-5 | reading the three entities back undoes the escaping |
| Export.EscapeHtmlPlain | app/lib/export.ts:3-5 | text without `&`, `<` or `>` is left unchanged |
| Export.WrapMarkdown | app/lib/export.ts:8-13 | the rebinding gives the empty string for empty text whatever the marks; otherwise bold is innermost, then italic, then underline |
| Export.WrapHtml | app/lib/export.ts:17-22 | the rebinding wraps the escaped text in `<strong>` innermost, then `<em>`, then `<u>`, then a span for a truthy color outermost |
| Export.LeafToMd | app/lib/export.ts:7-14 | `leafToMd` is the Markdown run of the leaf's text and flags; a node without text gives the empty string |
| Export.LeafToHtml | app/lib/export.ts:16-23 | `leafToHtml` is the HTML run of the leaf's escaped text, flags and color |
| Export.MarkdownWrapOrder | app/lib/export.ts:10-12 | bold and italic `x` gives `_**x**_`, and underline is always the outermost wrapper |
| Export.HtmlColorOutermost | app/lib/export.ts:17-21 | a truthy color is one span around the run as it would be without color; any other color changes nothing |
| Export.HtmlNesting | app/lib/export.ts:18-21 | with every mark on, a run reads `<span …><u><em><strong>text</strong></em></u></span>` |
| Export.LeafMarkdownIgnoresColor | app/lib/export.ts:7-14 | color never changes a leaf's Markdown, and an empty leaf renders as the empty string |
| Export.LeafHtmlUnmarked | app/lib/export.ts:16-23 | a leaf with no marks and no truthy color renders as its escaped text |
| Export.LeafChildrenMarkdown | app/lib/export.ts:25-35 | children that are all leaves render as the concatenation of their leaf renderings, in Markdown and in HTML |
| Export.TextStyleIndex | app/lib/export.ts:112 | `find` locates the first `textStyle` mark: no earlier mark has that kind |
| Export.InlineToMd | app/lib/export.ts:66-73 | the doc-branch Markdown renderer reads the bold, italic and underline flags off the marks and wraps the text like `leafToMd` |
| Export.InlineToHtml | app/lib/export.ts:107-115 | the doc-branch HTML renderer wraps like `leafToHtml`, with the color taken from the first `textStyle` mark |
| Export.InlineMarkdownIgnoresColor | app/lib/export.ts:66-73 | two inline nodes with the same text whose marks agree once color marks are dropped have the same Markdown |
| Export.HasKindWithoutColor | app/lib/export.ts:69-71 | dropping the color marks keeps exactly the marks of every other kind |
| Export.InlineColorMarkAdded | app/lib/export.ts:66-73 | adding a color mark to a node's marks never changes its Markdown |
| Export.InlineUnmarked | app/lib/export.ts:66-115 | an inline node without marks renders as its text in Markdown and as its escaped text in HTML |
| Export.LevelOrOne | app/lib/export.ts:77 | `level \|\| 1` is at least one, and is the level itself when that is positive |
| Export.HeadingLevelDefault | app/lib/export.ts:76-121 | a heading with a missing or zero level renders in Markdown behind one `#`, and one with a missing level as `<h1>` |
| Export.HeadingMarkdown | app/lib/export.ts:76-79 | a heading of positive level `l` renders as `l` hashes, a space, then the inline Markdown |
| Export.HeadingRendering | app/lib/export.ts:76-121 | headings of levels one, two and three render as `# `, `## `, `### ` in Markdown and as `<h1>`, `<h2>`, `<h3>` in HTML |
| Export.LegacyHeadingRendering | app/lib/export.ts:89-135 | the legacy heading tags render as `# `, `## `, `### ` in Markdown and, once `heading-three` is corrected, as `<h1>`, `<h2>`, `<h3>` in HTML |
| Export.LegacyBlockPlain | app/lib/export.ts:89-135 | a legacy node with none of the three heading tags renders as its children in Markdown and inside `<p>` in HTML |
| Export.MarkdownLines | app/lib/export.ts:62-83 | when no inline text holds a newline, the Markdown of a non-empty doc splits into exactly its block renderings, in order |
| Export.PlainDocMarkdown | app/lib/export.ts:62-83 | an unformatted doc exports to Markdown as its plain text |
| Export.PlainTextMarkdown | app/lib/export.ts:62-83 | the document of any plain text exports to Markdown as that text |
| Export.ToHtml | app/lib/export.ts:100-151 | the result starts with `<!DOCTYPE html>`, ends with the fixed tail up to `</html>`, and holds the body between the fixed head ending in `<body>\n` and the tail starting with `\n</body>`; the body is empty for a value that is neither a doc nor an array |
| Export.BoldRunExports | app/lib/export.ts:66-115 | a bold run of plain text exports as `**text**` and as `<strong>text</strong>` |
| Export.HeadingOneExports | app/lib/export.ts:76-121 | a level-one heading of plain text exports as `# text` and as `<h1>text</h1>` |
| Export.LegacyHeadingThreeHtml | app/lib/export.ts:133 | as written, legacy `heading-three` renders in HTML as `### ` and not as `<h3>` |
| Export.LegacyHeadingsHtmlFixed | app/lib/export.ts:130-135 | the corrected legacy HTML renders `heading-three` as `<h3>…</h3>` and agrees with the code as written on every other node |
| Migration.ConvertLeaf | app/lib/tiptap-migration.ts:33-52 | the pushes build the mark list of the leaf value; a node without text gives an empty text node with no marks |
| Migration.RankedOrdered | app/lib/tiptap-migration.ts:36-45 | marks built by pushing with increasing ranks have ranks strictly increasing along the list, all below the bound |
| Migration.LeafMarksRanked | app/lib/tiptap-migration.ts:36-45 | the four pushes produce marks in the order bold, italic, underline, textStyle |
| Migration.RankedDistinct | app/lib/tiptap-migration.ts:36-45 | strictly ranked marks have pairwise distinct kinds |
| Migration.PushHas | app/lib/tiptap-migration.ts:36-45 | after a push, a kind is present exactly when it was already present or the pushed mark has that kind |
| Migration.LeafKinds | app/lib/tiptap-migration.ts:36-45 | a leaf's marks hold a kind exactly when the flag, or for `textStyle` the color, that pushes it is truthy |
| Migration.ConvertedMarksOrdered | app/lib/tiptap-migration.ts:36-51 | a converted leaf's marks follow the order bold, italic, underline, textStyle; no kind appears twice; a color mark carries the leaf's color, which is truthy |
| Migration.ConvertedMarkFlags | app/lib/tiptap-migration.ts:36-51 | each mark is present exactly when its flag, or for `textStyle` the color, is truthy |
| Migration.ConvertedLeafShape | app/lib/tiptap-migration.ts:34-51 | the text is kept; a node without text gives the empty text node; the marks field is absent exactly when the leaf has no formatting of its own, and is never present but empty |
| Migration.ConvertedLeafColor | app/lib/tiptap-migration.ts:40-45 | the color `toHtml` reads off a converted leaf is the leaf's color when that is truthy, and none otherwise |
| Migration.ConvertedLeafExports | app/lib/tiptap-migration.ts:33-52 | migrating a leaf keeps its Markdown and HTML export |
| Migration.ConvertChildren | app/lib/tiptap-migration.ts:8 | `children?.map(convertLeaf) \|\| []` has one converted leaf per child, in order |
| Migration.HeadingLevel | app/lib/tiptap-migration.ts:13 | the level read off a tag is at least one |
| Migration.ConvertShape | app/lib/tiptap-migration.ts:1-31 | the result is a doc exactly for an array, with one block per node in order; a block is a heading exactly for a present tag other than `paragraph` that starts with `heading-`, with a level of at least one; any other block is a paragraph without a level; the content is the children converted one by one |
| Migration.HeadingLevelWord | app/lib/tiptap-migration.ts:13 | a tag whose segment after `heading-` has no `-` and does not start with a digit is level one |
| Migration.LegacyTagsLevelOne | app/lib/tiptap-migration.ts:13 | `heading-one`, `heading-two` and `heading-three` all migrate to level one |
| Migration.LegacyTagsConvert | app/lib/tiptap-migration.ts:12-19 | a node with one of the three legacy heading tags becomes a level-one heading over its converted children |
| Migration.ConvertHeading | app/lib/tiptap-migration.ts:12-19 | a node with a `heading-` tag becomes a heading at the level its tag reads as |
| Migration.NumberedTagLevel | app/lib/tiptap-migration.ts:13 | `heading-2` migrates to level two |
| Migration.HeadingLevelNumber | app/lib/tiptap-migration.ts:13 | `heading-N` migrates to level `N` for every positive `N`, with exact integers (see Left out for 2^53 and above) |
| Migration.ConvertedChildrenExports | app/lib/tiptap-migration.ts:8 | converted leaf children render in Markdown and HTML as the legacy children do |
| Migration.MigrationAddsNoFormatting | app/lib/tiptap-migration.ts:1-31 | a migrated doc with formatting comes from a legacy array with formatting |
| Migration.MigrationKeepsFormatting | app/lib/tiptap-migration.ts:1-52 | for an array of elements with leaf children whose tags are missing, `paragraph` or `heading-*`, migration keeps `hasFormatting` exactly |
| Migration.NodeMarkdownKept | app/lib/tiptap-migration.ts:5-24 | migrating a node with leaf children keeps its Markdown when its tag is not a `heading-` tag, or is `heading-one` |
| Migration.MigrationKeepsMarkdown | app/lib/tiptap-migration.ts:1-31 | for an array of such nodes, the whole Markdown export is kept |
| Migration.HeadingTwoLosesLevel | app/lib/tiptap-migration.ts:13 | a `heading-two` node migrates to level one, so its Markdown changes from `## ` to `# ` |
| Migration.HeadingLevelFixed | app/lib/tiptap-migration.ts:13 | the corrected level of a tag is at least one |
| Migration.ConvertFixedAgrees | app/lib/tiptap-migration.ts:5-24 | the corrected migration differs from the one as written only on `heading-two` and `heading-three` |
| Migration.FixedTagLevels | app/lib/tiptap-migration.ts:12-19 | the corrected migration gives `heading-one`, `heading-two` and `heading-three` levels one, two and three |
| Migration.NodeExportsKeptFixed | app/lib/tiptap-migration.ts:5-24 | the corrected migration of a node with leaf children whose tag is one of the three legacy headings, or no `heading-` tag at all, keeps its Markdown and its corrected HTML |
| Migration.MigrationKeepsExportsFixed | app/lib/tiptap-migration.ts:1-31 | for an array of such nodes, the corrected migration keeps the whole Markdown export and the whole corrected HTML body |

## Left out

- LZString (`compress`, `decompress`) and `JSON.stringify` / `JSON.parse` are
  foreign code. They are function parameters with round-trip predicates, not
  definitions. `JSON.parse` yields a tree or fails; the model does not cover
  JSON that parses to some other value.
- `downloadFile` (Blob, object URL, DOM click) is a side effect only.
- The Slate editor shortcuts in `app/lib/markdown-shortcuts.ts`, the React
  components and the page's URL and history effects are UI plumbing.
- Migration.HeadingLevel: `parseInt` is modelled as leading decimal digits
  only. It skips no leading whitespace, reads no sign and detects no radix.
  A tag of `heading-` plus a word, or plus a number below 2^53, is handled
  exactly.
- Migration.HeadingLevel / Export.LevelOrOne: a level is an exact natural
  number here, but a JavaScript double in the source. Four behaviours follow
  from that, and the model does not have them:
  - `parseInt` rounds a digit string of 2^53 or more to the nearest double
    (`heading-9007199254740993` gives level 9007199254740992).
  - A level of 1e21 or more prints in exponent form, as `<h1e+21>`.
  - `"#".repeat(l)` throws a RangeError once the result passes the engine's
    string-length limit, or when `l` is `Infinity` (as `"level":1e400` in a
    parsed payload gives), so `toMarkdown` then throws.
  - A fractional level such as 2.5 renders as `##` in Markdown and as
    `<h2.5>` in HTML.
  `Seqs.Repeat` and `Seqs.NatToString` never fail.
- Levels are natural numbers. A negative level, which would make
  `"#".repeat` throw, cannot be represented.
- Current-schema blocks and inline nodes always carry their `text` and
  `content` fields. A block's missing `type` is represented by the kind `""`,
  which every reader treats as it treats a missing type: it is not
  `"paragraph"` and not `"heading"`.
- Migration.ConvertChildren: a legacy element nested inside a block's children
  becomes an empty text node, as `convertLeaf` makes it. The preservation
  lemmas (`MigrationKeepsFormatting`, `MigrationKeepsMarkdown`,
  `MigrationKeepsExportsFixed`) therefore require leaf children.
- Migration.MigrationKeepsFormatting requires every top-level node to be an
  element. A formatted top-level leaf becomes a paragraph of nothing and loses
  its formatting.
- Migration.MigrationKeepsMarkdown requires each node's tag to be
  `heading-one` or not a `heading-` tag. The other `heading-` tags change
  level, and so change the Markdown (see Findings).
- Export.ToHtml: the shell text, including the `·` in the title, is a
  constant. Its exact line breaks are not separately stated.

## Findings

| source | as written | input that shows it | evidently intended | confidence | as-written member | corrected member |
|---|---|---|---|---|---|---|
| app/lib/tiptap-migration.ts:13 | `parseInt(type.split("-")[1]) \|\| 1` reads the word tags as `NaN`, so every legacy heading becomes level 1 | an element with type `heading-two` migrates to a level-1 heading, and its Markdown export changes from `## x` to `# x` | `heading-two` becomes level 2 and `heading-three` level 3, as the editor renders them (app/components/EditorElement.tsx:5-10) | high (not executed) | Migration.HeadingTwoLosesLevel, Migration.LegacyTagsLevelOne | Migration.HeadingLevelFixed, Migration.FixedTagLevels, Migration.MigrationKeepsExportsFixed |
| app/lib/export.ts:133 | the legacy HTML branch returns Markdown `### c` for `heading-three` | an array with one `heading-three` element gives a body of `### …` inside the HTML document | `<h3>c</h3>`, like the `<h1>` and `<h2>` cases around it | high (not executed) | Export.LegacyHeadingThreeHtml | Export.LegacyHeadingsHtmlFixed, Migration.NodeExportsKeptFixed |
| app/lib/compression.ts:65-80 | plain text is sent without a marker, so plain text that begins with `r:` is read back as a rich payload | a plain note whose text is `r:` followed by the JSON of another tree deserializes to that other tree | plain text starting with `r:` takes the rich branch too, so every note reads back | medium (not executed) | Compression.RichPrefixPlainTextMisread | Compression.FixedRoundTrip, Compression.FixedPlainRoundTrip |
| app/lib/compression.ts:74 | `if (!raw) return null` rejects the empty payload | the empty note `fromPlainText("")` serializes to a token that deserializes to null | the empty payload reads back as the empty document | medium (not executed) | Compression.EmptyDocumentNotRestored, Compression.EmptyPlainDocumentNotRestored | Compression.FixedRoundTrip, Compression.FixedPlainRoundTrip |
