/** The records exchanged between server and client (server/src/types/index.ts). */
module Types {
  import opened Wrappers

  /** A concept extracted from the paper; `userNotes` is only ever set on the client. */
  datatype IdeaNode = IdeaNode(
    id: string,
    title: string,
    description: string,
    sourceText: string,
    userNotes: Option<string>)

  /** A directed, labelled relationship between two concepts, by node id. */
  datatype IdeaEdge = IdeaEdge(from: string, to: string, relation: string)

  /** What the analysis store keeps for one upload. */
  datatype PaperAnalysis = PaperAnalysis(
    uploadId: string,
    nodes: seq<IdeaNode>,
    edges: seq<IdeaEdge>,
    rawText: Option<string>)

  /** The ids of a node list, in order. */
  function Ids(nodes: seq<IdeaNode>): (ids: seq<string>)
    ensures |ids| == |nodes|
    ensures forall i :: 0 <= i < |nodes| ==> ids[i] == nodes[i].id
  {
    seq(|nodes|, i requires 0 <= i < |nodes| => nodes[i].id)
  }
}
