/** What the Markdown parser reports to a renderer hook: one fenced code block at a time, in
    document order. The parser itself is external; a document is modelled by that report. */
module Markdown {
  import opened Wrappers

  /** A fenced code block: the language of its opening fence (`None` when the fence names none)
      and its text. */
  datatype Fence = Fence(info: Option<string>, code: string)

  /** A recorded code block. */
  datatype CodeBlock = CodeBlock(language: string, code: string)

  /** A Markdown file: its path and the fenced blocks the parser finds in it. */
  datatype Document = Document(path: string, fences: seq<Fence>)

  /** The Markdown files `glob` finds under each existing root directory, in its order; a root
      missing from the map does not exist. */
  type DirectoryTree = map<string, seq<Document>>

  /** The block the image converters record for a fence: `language = ''` when there is none. */
  function Recorded(f: Fence): (b: CodeBlock)
    ensures b.code == f.code
    ensures f.info.None? ==> b.language == ""
    ensures f.info.Some? ==> b.language == f.info.value
  {
    CodeBlock(f.info.GetOr(""), f.code)
  }

  /** Every fence recorded, in document order. */
  function RecordedBlocks(fences: seq<Fence>): (blocks: seq<CodeBlock>)
    ensures |blocks| == |fences|
  {
    seq(|fences|, i requires 0 <= i < |fences| => Recorded(fences[i]))
  }

  /** The renderer hook of the image converters, which pushes every block it is shown. */
  method RecordCodeBlocks(fences: seq<Fence>) returns (blocks: seq<CodeBlock>)
    ensures |blocks| == |fences|
    ensures forall i :: 0 <= i < |fences| ==> blocks[i] == Recorded(fences[i])
    ensures blocks == RecordedBlocks(fences)
  {
    blocks := [];
    var i := 0;
    while i < |fences|
      invariant 0 <= i <= |fences|
      invariant |blocks| == i
      invariant forall k :: 0 <= k < i ==> blocks[k] == Recorded(fences[k])
    {
      var language := fences[i].info.GetOr("");
      blocks := blocks + [CodeBlock(language, fences[i].code)];
      i := i + 1;
    }
  }
}
