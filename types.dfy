/** The records shared by retrieval, citation and refactor grounding
    (src/types/index.ts). Line numbers are unbounded integers. */
module Types {

  datatype Option<+T> = None | Some(value: T)

  /** A stored line-range slice of an ingested file. `similarity` is only
      present on vector-search results. */
  datatype Chunk = Chunk(
    id: string,
    sourceId: string,
    filePath: string,
    startLine: int,
    endLine: int,
    content: string,
    sourceUrl: Option<string>,
    similarity: Option<real>)

  /** The presentation projection of a chunk. */
  datatype Citation = Citation(
    filePath: string,
    startLine: int,
    endLine: int,
    snippet: string,
    sourceUrl: Option<string>)

  /** The identity used for de-duplication: (file path, start line, end line). */
  datatype Key = Key(filePath: string, startLine: int, endLine: int)

  function KeyOf(c: Citation): Key {
    Key(c.filePath, c.startLine, c.endLine)
  }

  /** No two elements share a key. */
  predicate DistinctKeys(cs: seq<Citation>) {
    forall i, j :: 0 <= i < j < |cs| ==> KeyOf(cs[i]) != KeyOf(cs[j])
  }
}
