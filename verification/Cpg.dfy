/** Edges of the code property graph. */
module Cpg {
  datatype EdgeKind = Calls | MayCall | FlowsTo | Writes | OtherKind

  datatype CpgEdge = CpgEdge(kind: EdgeKind, source: string, target: string, id: string)
}
