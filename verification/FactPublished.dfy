/** From the published batch to the store: what publication checked is what a lookup relies on. */
module FactPublished {
  import opened Basics
  import opened FactIdentity
  import opened FactPreimage
  import opened FactBatch
  import opened FactLookup

  /** Every stored fact is a published one under the text of its id. */
  predicate StoredFrom(batch: Batch, facts: map<string, Stored>) {
    forall key <- facts :: exists f <- batch.facts :: key == Rendered(f.id) && facts[key].row == f.row
  }

  /** A text is a fact id's exactly if it is read as one. */
  ghost predicate ReadsFactIds(codec: Codec) {
    forall text :: codec.isFactId(text) <==> ParseStableId(text).Some? && ParseStableId(text).value.kind == FactId
  }

  /** What a valid batch stores is sound: canonical ids over valid rows, and one row for one id. */
  lemma PublishedIsSound(context: Context, batch: Batch, codec: Codec, facts: map<string, Stored>)
    requires IsRegistry(context.registry) && codec.registry == context.registry && ReadsFactIds(codec)
    requires forall preimage: string ::
               context.hash(preimage).kind == FactId && IsDigest(context.hash(preimage).digest)
    requires FactsIdentified(context, batch) && StoredFrom(batch, facts)
    ensures SoundFacts(codec, facts)
    ensures forall f <- batch.facts :: Rendered(f.id) in facts ==> facts[Rendered(f.id)].row == f.row
  {
    hide IsRegistry, CheckRow, ParseStableId, Rendered, IsDigest, Preimage;
    forall key <- facts ensures key != "" && codec.isFactId(key) && ValidRow(codec.registry, facts[key].row) {
      var f :| f in batch.facts && key == Rendered(f.id) && facts[key].row == f.row;
      ParsedExactly(key, f.id);
      RenderedText(f.id);
    }
    forall f <- batch.facts | Rendered(f.id) in facts ensures facts[Rendered(f.id)].row == f.row {
      var key := Rendered(f.id);
      var g :| g in batch.facts && key == Rendered(g.id) && facts[key].row == g.row;
      ParsedExactly(key, f.id);
      ParsedExactly(key, g.id);
      OneOfId(batch, f, g);
    }
  }

  lemma RenderedText(id: StableId)
    ensures Rendered(id) != ""
  {}

  lemma OneOfId(batch: Batch, f: Fact, g: Fact)
    requires NoRepeat(Ids(batch.facts)) && f in batch.facts && g in batch.facts && f.id == g.id
    ensures f == g
  {
    var i :| 0 <= i < |batch.facts| && batch.facts[i] == f;
    var j :| 0 <= j < |batch.facts| && batch.facts[j] == g;
    assert Ids(batch.facts)[i] == Ids(batch.facts)[j];
  }
}
