/**
 * The parts of a libyaml document that the configuration loader looks at.
 *
 * libyaml keeps every node of a document in one table; a sequence holds the
 * indices of its items and a mapping holds pairs of indices. Indices are
 * 1-based, and looking up an index outside the table yields no node: that is
 * how the loader meets an "invalid node index".
 */
module Yaml {
  import opened Wrappers

  datatype Pair = Pair(key: int, value: int)

  datatype Node =
    | Scalar(text: string)
    | Sequence(items: seq<int>)
    | Mapping(pairs: seq<Pair>)

  datatype Document = Document(nodes: seq<Node>)

  /** What one call of the parser's load operation produces. */
  datatype LoadResult = ParseError | Loaded(doc: Document)

  /** The node at a 1-based index, or None when the index is outside the table. */
  function GetNode(doc: Document, index: int): Option<Node> {
    if 1 <= index <= |doc.nodes| then Some(doc.nodes[index - 1]) else None
  }

  /** The root is the first node; a document without nodes has no root. */
  function RootNode(doc: Document): Option<Node> {
    if |doc.nodes| == 0 then None else Some(doc.nodes[0])
  }

  /** A scalar with at least one byte. */
  predicate IsNonEmptyScalar(n: Node) {
    n.Scalar? && |n.text| > 0
  }

  /** The result of loading from `pending`: once the stream is used up the
      parser produces a document without nodes. */
  function NextLoad(pending: seq<LoadResult>): LoadResult {
    if pending == [] then Loaded(Document([])) else pending[0]
  }

  /** What remains to be loaded after one load from `pending`. */
  function AfterLoad(pending: seq<LoadResult>): (rest: seq<LoadResult>)
    ensures pending != [] ==> |rest| < |pending|
  {
    if pending == [] then [] else pending[1..]
  }

  /** A parser reading from one input stream, seen as the documents still to come. */
  class Parser {
    var pending: seq<LoadResult>

    constructor (input: seq<LoadResult>)
      ensures pending == input
    {
      pending := input;
    }

    /** Loads the next document of the stream. */
    method Load() returns (r: LoadResult)
      modifies this
      ensures r == NextLoad(old(pending))
      ensures pending == AfterLoad(old(pending))
    {
      if pending == [] {
        r := Loaded(Document([]));
      } else {
        r := pending[0];
        pending := pending[1..];
      }
    }
  }
}
