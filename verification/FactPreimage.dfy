/** Reading stable ids and row preimages back: the byte format against a reader with tables of its own. */
module FactPreimage {
  import opened Basics
  import opened CanonicalValue
  import opened CanonicalDecoder
  import opened FactIdentity

  // ----- Stable ids -----

  /** The kind a text spells. */
  function KindOf(text: string): Option<IdKind> {
    if text == "repo" then Some(RepositoryId)
    else if text == "rev" then Some(RevisionId)
    else if text == "bv" then Some(BuildVariantId)
    else if text == "tu" then Some(TranslationUnitId)
    else if text == "funcsym" then Some(FunctionSymbolId)
    else if text == "funcvar" then Some(FunctionVariantId)
    else if text == "funcbody" then Some(FunctionBodyId)
    else if text == "summary" then Some(FunctionSummaryId)
    else if text == "fact" then Some(FactId)
    else if text == "scc" then Some(SccId)
    else if text == "run" then Some(AnalysisRunId)
    else if text == "obj" then Some(AbstractObjectId)
    else if text == "model" then Some(ModelId)
    else if text == "valref" then Some(ValueRefId)
    else if text == "memref" then Some(MemoryRefId)
    else if text == "callsite" then Some(CallSiteId)
    else if text == "bbsummary" then Some(BasicBlockSummaryId)
    else if text == "cpgproj" then Some(CpgProjectionId)
    else if text == "edge" then Some(CpgEdgeId)
    else if text == "unknown" then Some(UnknownNodeId)
    else if text == "evidence" then Some(EvidenceId)
    else None
  }

  /** The position of the first colon from `i` on, if there is one. */
  function Colon(text: string, i: nat): (r: Option<nat>)
    requires i <= |text|
    ensures r.Some? ==> i <= r.value < |text| && text[r.value] == ':' && ':' !in text[i..r.value]
    ensures r.None? ==> ':' !in text[i..]
    decreases |text| - i
  {
    if i == |text| then None
    else if text[i] == ':' then Some(i)
    else
      var r := Colon(text, i + 1);
      assert text[i..] == [text[i]] + text[i + 1..];
      assert r.Some? ==> text[i..r.value] == [text[i]] + text[i + 1..r.value];
      r
  }

  /** Kind, algorithm and digest, whatever the digest is. */
  function ReadId(text: string): Option<StableId> {
    var first :- Colon(text, 0);
    var second :- Colon(text, first + 1);
    var kind :- KindOf(text[..first]);
    if text[first + 1..second] == "sha256" then Some(StableId(kind, text[second + 1..])) else None
  }

  predicate IsHexDigit(c: char) {
    '0' <= c <= '9' || 'a' <= c <= 'f'
  }

  /** Thirty-two bytes in lower-case hexadecimal. */
  predicate IsDigest(text: string) {
    |text| == 64 && forall c <- text :: IsHexDigit(c)
  }

  function ParseStableId(text: string): Option<StableId> {
    var id :- ReadId(text);
    if IsDigest(id.digest) then Some(id) else None
  }

  /** The id a rendered text is read as: a kind outside the table is the unknown one. */
  function Seen(id: StableId): StableId {
    if id.kind == OutOfRangeId then StableId(UnknownNodeId, id.digest) else id
  }

  lemma KindReads(kind: IdKind)
    ensures KindOf(KindText(kind)) == Some(if kind == OutOfRangeId then UnknownNodeId else kind)
  {}

  lemma KindSpelled(text: string)
    requires KindOf(text).Some?
    ensures KindText(KindOf(text).value) == text && KindOf(text).value != OutOfRangeId
  {}

  lemma ColonFound(text: string, i: nat, j: nat)
    requires i <= j < |text| && text[j] == ':' && ':' !in text[i..j]
    ensures Colon(text, i) == Some(j)
    decreases j - i
  {
    if i < j {
      assert text[i..j][0] == text[i];
      assert text[i + 1..j] == text[i..j][1..];
      ColonFound(text, i + 1, j);
    }
  }

  /** A rendered id reads back. */
  lemma RenderedReads(id: StableId)
    ensures ReadId(Rendered(id)) == Some(Seen(id))
  {
    hide KindText, KindOf, Colon;
    var kind, text := KindText(id.kind), Rendered(id);
    NoColon(id.kind);
    KindReads(id.kind);
    assert SEPARATOR == ":" + "sha256" + ":";
    assert text == kind + (":" + ("sha256" + (":" + id.digest)));
    assert text[..|kind|] == kind && text[0..|kind|] == kind && text[|kind|] == ':';
    ColonFound(text, 0, |kind|);
    var second := |kind| + 7;
    assert text[|kind| + 1..second] == "sha256" && text[second] == ':' && text[second + 1..] == id.digest;
    ColonFound(text, |kind| + 1, second);
  }

  /** Whatever is read as an id is its rendering. */
  lemma ReadWasRendered(text: string)
    requires ReadId(text).Some?
    ensures Rendered(ReadId(text).value) == text && ReadId(text).value.kind != OutOfRangeId
  {
    hide KindText, KindOf, Colon;
    var first := Colon(text, 0).value;
    var second := Colon(text, first + 1).value;
    KindSpelled(text[..first]);
    assert text == text[..first] + [text[first]] + text[first + 1..second] + [text[second]] + text[second + 1..];
    assert SEPARATOR == ":" + "sha256" + ":";
  }

  /** A text parses as an id exactly when it is the rendering of that id, of a known kind and with a true digest. */
  lemma ParsedExactly(text: string, id: StableId)
    ensures ParseStableId(text) == Some(id) <==>
            text == Rendered(id) && id.kind != OutOfRangeId && IsDigest(id.digest)
  {
    hide ReadId, Rendered;
    RenderedReads(id);
    if ReadId(text).Some? {
      ReadWasRendered(text);
    }
  }

  // ----- Cells -----

  function TakeOctet(s: string): (r: Read<octet>)
    ensures r.Some? ==> |r.value.1| < |s|
  {
    var (n, rest) :- TakeByte(s);
    Some((n as octet, rest))
  }

  /** One cell: the byte that says what it is, and what that calls for. */
  function TakeCell(s: string): (r: Read<Cell>)
    ensures r.Some? ==> |r.value.1| < |s|
  {
    var (tag, body) :- TakeByte(s);
    if tag == 0 then
      var (text, rest) :- TakeText(body);
      var id :- ReadId(text);
      Some((IdCell(id), rest))
    else if tag == 1 then
      var (signed, rest) :- TakeSigned(body);
      Some((Int64Cell(signed), rest))
    else if tag == 2 then
      var (unsigned, rest) :- TakeUnsigned(body);
      Some((Uint64Cell(unsigned as uint64), rest))
    else if tag == 3 then
      var (text, rest) :- TakeText(body);
      Some((TextCell(text), rest))
    else
      var (n, rest) :- TakeOctet(body);
      if tag == 4 then Some((DispatchCell(n), rest))
      else if tag == 5 then Some((AliasCell(n), rest))
      else if tag == 6 then Some((RangeCell(n), rest))
      else if tag == 7 then Some((EpistemicCell(n), rest))
      else None
  }

  function TakeCells(s: string): Option<seq<Cell>>
    decreases |s|
  {
    if s == "" then Some([])
    else
      var (cell, rest) :- TakeCell(s);
      var others :- TakeCells(rest);
      Some([cell] + others)
  }

  /** The relation a preimage names, and the cells it carries. */
  function ReadPreimage(s: string): Option<(string, seq<Cell>)> {
    var (version, from) :- TakeText(s);
    var (name, body) :- TakeText(from);
    var cells :- TakeCells(body);
    if version == "relations.v2" then Some((name, cells)) else None
  }

  function SeenCell(cell: Cell): Cell {
    if cell.IdCell? then IdCell(Seen(cell.id)) else cell
  }

  function SeenCells(cells: seq<Cell>): (r: seq<Cell>)
    ensures |r| == |cells| && forall i | 0 <= i < |cells| :: r[i] == SeenCell(cells[i])
  {
    seq(|cells|, i requires 0 <= i < |cells| => SeenCell(cells[i]))
  }

  lemma TakesOctet(n: octet, rest: string)
    ensures TakeOctet([n as char] + rest) == Some((n, rest))
  {
    TakesByte(n as char, rest);
  }

  lemma OctetTaken(s: string)
    requires TakeOctet(s).Some?
    ensures s == [TakeOctet(s).value.0 as char] + TakeOctet(s).value.1
  {
    ByteTaken(s);
  }

  lemma TakesCell(cell: Cell, rest: string)
    requires SizedCell(cell)
    ensures TakeCell(CellBytes(cell) + rest) == Some((SeenCell(cell), rest))
  {
    hide Counted, U64, I64, Rendered, ReadId, TakeByte, TakeOctet, TakeText, TakeSigned, TakeUnsigned;
    var body := CellBody(cell) + rest;
    Regroup([CellTag(cell)], CellBody(cell), rest);
    TakesByte(CellTag(cell), body);
    match cell
    case IdCell(id) =>
      TakesText(Rendered(id), rest);
      RenderedReads(id);
    case Int64Cell(signed) => TakesSigned(signed, rest);
    case Uint64Cell(unsigned) => TakesUnsigned(unsigned as int, rest);
    case TextCell(text) => TakesText(text, rest);
    case DispatchCell(n) => TakesOctet(n, rest);
    case AliasCell(n) => TakesOctet(n, rest);
    case RangeCell(n) => TakesOctet(n, rest);
    case EpistemicCell(n) => TakesOctet(n, rest);
  }

  lemma CellTaken(s: string)
    requires TakeCell(s).Some?
    ensures var (cell, rest) := TakeCell(s).value;
            SizedCell(cell) && SeenCell(cell) == cell && s == CellBytes(cell) + rest
  {
    hide Counted, U64, I64, Rendered, ReadId, TakeByte, TakeOctet, TakeText, TakeSigned, TakeUnsigned;
    ByteTaken(s);
    var (tag, body) := TakeByte(s).value;
    var (cell, rest) := TakeCell(s).value;
    if tag == 0 {
      TextTaken(body);
      ReadWasRendered(TakeText(body).value.0);
    } else if tag == 1 {
      SignedTaken(body);
    } else if tag == 2 {
      UnsignedTaken(body);
    } else if tag == 3 {
      TextTaken(body);
    } else {
      OctetTaken(body);
    }
    Regroup([CellTag(cell)], CellBody(cell), rest);
  }

  lemma {:induction false} TakesCells(cells: seq<Cell>)
    requires forall cell <- cells :: SizedCell(cell)
    ensures TakeCells(CellsBytes(cells)) == Some(SeenCells(cells))
    decreases |cells|
  {
    hide CellBytes, SizedCell, TakeCell, SeenCell;
    if cells != [] {
      TakesCell(cells[0], CellsBytes(cells[1..]));
      TakesCells(cells[1..]);
      assert SeenCells(cells) == [SeenCell(cells[0])] + SeenCells(cells[1..]);
    }
  }

  lemma {:induction false} CellsTaken(s: string)
    requires TakeCells(s).Some?
    ensures var cells := TakeCells(s).value;
            (forall cell <- cells :: SizedCell(cell)) && SeenCells(cells) == cells && s == CellsBytes(cells)
    decreases |s|
  {
    hide CellBytes, SizedCell, TakeCell, SeenCell;
    if s != "" {
      CellTaken(s);
      CellsTaken(TakeCell(s).value.1);
    }
  }

  /** Every row's preimage reads back as the name of its relation and its cells. */
  lemma PreimageReads(registry: seq<Schema>, row: Row)
    requires SizedRow(row) && |RelationName(registry, row.relation)| < TWO_64
    ensures ReadPreimage(Preimage(registry, row)) == Some((RelationName(registry, row.relation), SeenCells(row.cells)))
  {
    hide Counted, CellsBytes, TakeText, TakeCells, RelationName, SizedCell;
    var name := RelationName(registry, row.relation);
    Regroup(Counted(VERSION), Counted(name), CellsBytes(row.cells));
    TakesText(VERSION, Counted(name) + CellsBytes(row.cells));
    TakesText(name, CellsBytes(row.cells));
    TakesCells(row.cells);
  }

  /** Whatever reads as a preimage is one: of every row with those cells whose relation has that name. */
  lemma ReadWasPreimage(registry: seq<Schema>, s: string, relation: nat)
    requires ReadPreimage(s).Some? && ReadPreimage(s).value.0 == RelationName(registry, relation)
    ensures var row := Row(relation, ReadPreimage(s).value.1);
            SizedRow(row) && Preimage(registry, row) == s
  {
    hide Counted, CellsBytes, TakeText, TakeCells, RelationName, SizedCell;
    TextTaken(s);
    var (version, from) := TakeText(s).value;
    TextTaken(from);
    var (name, body) := TakeText(from).value;
    CellsTaken(body);
    Regroup(Counted(version), Counted(name), body);
  }
}
