/**
  The input document shape of the exporter: a root object holding a
  chunked prompt, which holds the ordered list of chunks. Each chunk is
  either visible text or an internal "thought".
 */
module Model {

  /** One unit of the exported conversation. */
  datatype Chunk = Chunk(text: string, isThought: bool)

  /** The ordered chunks; order is both narrative order and output order. */
  datatype ChunkedPrompt = ChunkedPrompt(chunks: seq<Chunk>)

  /** The whole decoded document. */
  datatype Root = Root(chunkedPrompt: ChunkedPrompt)

  /** Shorthand for the document built from a bare chunk list. */
  function RootOf(chunks: seq<Chunk>): Root
  {
    Root(ChunkedPrompt(chunks))
  }
}
