/** The edges of an evidence case. */
module CaseLinks {
  datatype RelationKind = FlowsTo | OtherRelation

  datatype Link = Link(id: string, kind: RelationKind, from: string, to: string, provenance: string)
}
