/**
 * The two document-tree shapes that flow through the pipeline, and the untyped
 * value (`any`) the entry points accept.
 *
 * Fields the source reads with `??` or optional chaining and that may be missing
 * are `Option`s, or are identified with the default the source falls back to
 * when every reader treats the two alike. The source field `type` is called
 * `kind` here, since `type` is a Dafny keyword.
 */
module Schema {
  import opened Wrappers

  /**
   * A mark of the current (Tiptap) schema: `{type}`, or `{type: "textStyle",
   * attrs: {color}}`; `color` is `attrs?.color`.
   */
  datatype Mark = Mark(kind: string, color: Option<string>)

  /** An inline text node of the current schema; `marks` may be absent. */
  datatype Inline = Inline(text: string, marks: Option<seq<Mark>>)

  /**
   * A block node of the current schema, `"paragraph"` or `"heading"` in
   * practice; `level` is `attrs?.level`.
   */
  datatype Block = Block(kind: string, level: Option<nat>, content: seq<Inline>)

  /** The root `{type: "doc", content}` of the current schema. */
  datatype Doc = Doc(content: seq<Block>)

  /**
   * A node of the legacy (Slate) schema. A node with a `text` field is a leaf;
   * any other node is an element with an optional type tag and optional children.
   */
  datatype LegacyNode =
    | Leaf(text: string, bold: bool, italic: bool, underline: bool, color: Option<string>)
    | Element(kind: Option<string>, children: Children)

  /**
   * The optional `children` array of a legacy element (a datatype of its own,
   * rather than an `Option`, so that a child is structurally below its parent).
   */
  datatype Children = Absent | Present(nodes: seq<LegacyNode>)

  /**
   * What the untyped entry points can be handed: a current-schema document,
   * a legacy array, or any other value (which every entry point treats alike).
   */
  datatype Tree = DocTree(doc: Doc) | LegacyTree(nodes: seq<LegacyNode>) | Other

  /** `children ?? []`. */
  function ChildrenOr(c: Children): seq<LegacyNode>
  {
    match c
    case Absent => []
    case Present(nodes) => nodes
  }

  /** The type tag of a legacy node; a leaf has none. */
  function KindOf(n: LegacyNode): Option<string>
  {
    match n
    case Element(kind, _) => kind
    case Leaf(_, _, _, _, _) => None
  }

  /** `n.children ?? []` of a legacy node; a leaf has none. */
  function ChildNodes(n: LegacyNode): seq<LegacyNode>
  {
    match n
    case Element(_, children) => ChildrenOr(children)
    case Leaf(_, _, _, _, _) => []
  }

  /** JavaScript truthiness of an optional string: present and not empty. */
  predicate Truthy(s: Option<string>)
  {
    s.Some? && s.value != ""
  }

  /** The marks of an inline node, an absent list read as empty. */
  function MarksOf(c: Inline): seq<Mark>
  {
    c.marks.GetOr([])
  }

  /** `ms.some(m => m.type === kind)`: some mark in the list has this kind. */
  predicate HasKind(ms: seq<Mark>, kind: string)
  {
    exists k :: 0 <= k < |ms| && ms[k].kind == kind
  }

  /** A list with one more mark has a kind exactly when the list had it or the new mark is of it. */
  lemma HasKindAppend(ms: seq<Mark>, m: Mark, kind: string)
    ensures HasKind(ms + [m], kind) <==> HasKind(ms, kind) || m.kind == kind
  {
    var r := ms + [m];
    if HasKind(ms, kind) {
      var k :| 0 <= k < |ms| && ms[k].kind == kind;
      assert r[k] == ms[k];
    }
    if m.kind == kind {
      assert r[|ms|] == m;
    }
    if HasKind(r, kind) {
      var k :| 0 <= k < |r| && r[k].kind == kind;
      if k < |ms| {
        assert ms[k] == r[k];
      }
    }
  }

  /** `c.marks?.some(m => m.type === kind)`. */
  predicate HasMark(c: Inline, kind: string)
  {
    HasKind(MarksOf(c), kind)
  }
}
