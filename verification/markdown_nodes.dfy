/**
 * The few Lexical nodes the markdown transformers of this model create or
 * read: formatted text runs, code blocks holding text, and a root.
 */
module MarkdownNodes {

  /** Lexical's text format flags. */
  datatype TextFormat = Bold | Italic | Strikethrough | Underline | Code | Subscript | Superscript | Highlight

  /** A text run; a fresh one (`$createTextNode`) has no format flags. */
  datatype TextNode = TextNode(text: string, format: set<TextFormat>)

  /** A block: a code block with its language, or any other element, each holding text runs. */
  datatype BlockNode =
    | CodeNode(language: string, children: seq<TextNode>)
    | OtherBlock(kind: string, children: seq<TextNode>)

  datatype Root = Root(children: seq<BlockNode>)

  /** The text of a run sequence, concatenated. */
  function ConcatText(runs: seq<TextNode>): string {
    if |runs| == 0 then "" else ConcatText(runs[..|runs| - 1]) + runs[|runs| - 1].text
  }

  /** `getTextContent()` of a block whose children are text runs. */
  function TextContent(b: BlockNode): string {
    ConcatText(b.children)
  }

  lemma ConcatTextSingle(t: TextNode)
    ensures ConcatText([t]) == t.text
  {
    assert [t][..0] == [];
  }
}
