/** Row identity: validation, the canonical preimage and its two-mode cursor, and the identity memo. */
module FactIdentity {
  import opened Basics
  import opened CanonicalValue

  newtype uint64 = x: int | 0 <= x < 0x1_0000_0000_0000_0000
  newtype octet = x: int | 0 <= x < 256

  datatype IdKind =
    | RepositoryId | RevisionId | BuildVariantId | TranslationUnitId | FunctionSymbolId | FunctionVariantId
    | FunctionBodyId | FunctionSummaryId | FactId | SccId | AnalysisRunId | AbstractObjectId | ModelId
    | ValueRefId | MemoryRefId | CallSiteId | BasicBlockSummaryId | CpgProjectionId | CpgEdgeId
    | UnknownNodeId | EvidenceId
    | OutOfRangeId

  /** The rendered kind; an enumerator outside the table renders as the unknown node's does. */
  function KindText(kind: IdKind): string {
    match kind
    case RepositoryId => "repo"
    case RevisionId => "rev"
    case BuildVariantId => "bv"
    case TranslationUnitId => "tu"
    case FunctionSymbolId => "funcsym"
    case FunctionVariantId => "funcvar"
    case FunctionBodyId => "funcbody"
    case FunctionSummaryId => "summary"
    case FactId => "fact"
    case SccId => "scc"
    case AnalysisRunId => "run"
    case AbstractObjectId => "obj"
    case ModelId => "model"
    case ValueRefId => "valref"
    case MemoryRefId => "memref"
    case CallSiteId => "callsite"
    case BasicBlockSummaryId => "bbsummary"
    case CpgProjectionId => "cpgproj"
    case CpgEdgeId => "edge"
    case UnknownNodeId => "unknown"
    case EvidenceId => "evidence"
    case OutOfRangeId => "unknown"
  }

  datatype StableId = StableId(kind: IdKind, digest: string)

  /** One cell. The four enum kinds are carried as their byte, whether or not it names an enumerator. */
  datatype Cell =
    | IdCell(id: StableId)
    | Int64Cell(signed: int64)
    | Uint64Cell(unsigned: uint64)
    | TextCell(text: string)
    | DispatchCell(ordinal: octet)
    | AliasCell(ordinal: octet)
    | RangeCell(ordinal: octet)
    | EpistemicCell(ordinal: octet)

  datatype Row = Row(relation: nat, cells: seq<Cell>)

  // ----- Validation -----

  datatype Domain =
    | IdDomain(kind: IdKind)
    | Int64Domain | Uint64Domain | TextDomain | DispatchDomain | AliasDomain | RangeDomain | EpistemicDomain

  datatype Schema = Schema(name: string, columns: seq<Domain>, epistemic: seq<octet>)

  /** What the relation registry promises: distinct, non-empty names, and id columns of real kinds. */
  predicate IsRegistry(registry: seq<Schema>) {
    && (forall i :: 0 <= i < |registry| ==> 0 < |registry[i].name| < TWO_64)
    && (forall i, j :: 0 <= i < j < |registry| ==> registry[i].name != registry[j].name)
    && (forall schema <- registry :: forall domain <- schema.columns ::
          domain.IdDomain? ==> !RendersUnknown(domain.kind))
  }

  datatype Rejection =
    | UnknownRelation | CellCountMismatch | NotStableId | IdKindMismatch | CellTypeMismatch
    | EpistemicNotAllowed | MissingRangeKind | MissingRangePayload | NonCanonicalRange

  const DIRECT_READ := 7
  const DIRECT_WRITE := 8
  const RANGE_KNOWN: octet := 0

  function CheckCell(domain: Domain, cell: Cell): Option<Rejection> {
    match domain
    case IdDomain(kind) =>
      if !cell.IdCell? then Some(NotStableId) else if cell.id.kind != kind then Some(IdKindMismatch) else None
    case Int64Domain => if cell.Int64Cell? then None else Some(CellTypeMismatch)
    case Uint64Domain => if cell.Uint64Cell? then None else Some(CellTypeMismatch)
    case TextDomain => if cell.TextCell? then None else Some(CellTypeMismatch)
    case DispatchDomain => if cell.DispatchCell? then None else Some(CellTypeMismatch)
    case AliasDomain => if cell.AliasCell? then None else Some(CellTypeMismatch)
    case RangeDomain => if cell.RangeCell? then None else Some(CellTypeMismatch)
    case EpistemicDomain => if cell.EpistemicCell? then None else Some(CellTypeMismatch)
  }

  /** The first cell from `i` on that its column refuses. */
  function CheckCells(schema: Schema, cells: seq<Cell>, i: nat): Option<Rejection>
    requires |cells| == |schema.columns|
    decreases |cells| - i
  {
    if i >= |cells| then None
    else if CheckCell(schema.columns[i], cells[i]).Some? then CheckCell(schema.columns[i], cells[i])
    else if schema.columns[i] == EpistemicDomain && cells[i].ordinal !in schema.epistemic then Some(EpistemicNotAllowed)
    else CheckCells(schema, cells, i + 1)
  }

  /** An unknown byte range carries a zero offset and size. */
  function CheckRange(row: Row): Option<Rejection> {
    if (row.relation != DIRECT_READ && row.relation != DIRECT_WRITE) || |row.cells| < 5 then None
    else if !row.cells[2].RangeCell? then Some(MissingRangeKind)
    else if row.cells[2].ordinal == RANGE_KNOWN then None
    else if !row.cells[3].Int64Cell? || !row.cells[4].Uint64Cell? then Some(MissingRangePayload)
    else if row.cells[3].signed != 0 || row.cells[4].unsigned != 0 then Some(NonCanonicalRange)
    else None
  }

  function CheckRow(registry: seq<Schema>, row: Row): Option<Rejection> {
    if row.relation >= |registry| then Some(UnknownRelation)
    else
      var schema := registry[row.relation];
      if |row.cells| != |schema.columns| then Some(CellCountMismatch)
      else if CheckCells(schema, row.cells, 0).Some? then CheckCells(schema, row.cells, 0)
      else CheckRange(row)
  }

  predicate ValidRow(registry: seq<Schema>, row: Row) {
    CheckRow(registry, row).None?
  }

  // ----- The preimage -----

  const SEPARATOR := ":sha256:"
  const VERSION := "relations.v2"

  function Rendered(id: StableId): string {
    KindText(id.kind) + SEPARATOR + id.digest
  }

  function RelationName(registry: seq<Schema>, relation: nat): string {
    if relation < |registry| then registry[relation].name else ""
  }

  function CellTag(cell: Cell): char {
    match cell
    case IdCell(_) => 0 as char
    case Int64Cell(_) => 1 as char
    case Uint64Cell(_) => 2 as char
    case TextCell(_) => 3 as char
    case DispatchCell(_) => 4 as char
    case AliasCell(_) => 5 as char
    case RangeCell(_) => 6 as char
    case EpistemicCell(_) => 7 as char
  }

  function CellBody(cell: Cell): string {
    match cell
    case IdCell(id) => Counted(Rendered(id))
    case Int64Cell(signed) => I64(signed)
    case Uint64Cell(unsigned) => U64(unsigned as int)
    case TextCell(text) => Counted(text)
    case DispatchCell(n) => [n as char]
    case AliasCell(n) => [n as char]
    case RangeCell(n) => [n as char]
    case EpistemicCell(n) => [n as char]
  }

  function CellBytes(cell: Cell): string {
    [CellTag(cell)] + CellBody(cell)
  }

  function CellsBytes(cells: seq<Cell>): string {
    if cells == [] then "" else CellBytes(cells[0]) + CellsBytes(cells[1..])
  }

  function Preimage(registry: seq<Schema>, row: Row): string {
    Counted(VERSION) + Counted(RelationName(registry, row.relation)) + CellsBytes(row.cells)
  }

  /** Every text fits its eight length bytes, as every `std::string` does. */
  predicate SizedCell(cell: Cell) {
    match cell
    case IdCell(id) => |Rendered(id)| < TWO_64
    case TextCell(text) => |text| < TWO_64
    case _ => true
  }

  predicate SizedRow(row: Row) {
    forall cell <- row.cells :: SizedCell(cell)
  }

  // ----- A valid row's preimage is nobody else's -----

  lemma ColonAt(a: string, r: string)
    requires ':' !in a
    ensures (a + ":" + r)[|a|] == ':'
    ensures forall k :: 0 <= k < |a| ==> (a + ":" + r)[k] != ':'
  {
    forall k | 0 <= k < |a| ensures (a + ":" + r)[k] != ':' {
      assert a[k] in a;
    }
  }

  lemma NameBeforeColon(a: string, b: string, r: string, u: string)
    requires ':' !in a && ':' !in b && a + ":" + r == b + ":" + u
    ensures a == b && r == u
  {
    ColonAt(a, r);
    ColonAt(b, u);
    assert |a| == |b|;
    assert a == (a + ":" + r)[..|a|] && b == (b + ":" + u)[..|b|];
    assert r == (a + ":" + r)[|a| + 1..] && u == (b + ":" + u)[|b| + 1..];
  }

  lemma RenderedInjective(x: StableId, y: StableId)
    requires Rendered(x) == Rendered(y)
    ensures KindText(x.kind) == KindText(y.kind) && x.digest == y.digest
  {
    hide KindText;
    var a, b := KindText(x.kind), KindText(y.kind);
    assert SEPARATOR == ":" + "sha256:";
    assert Rendered(x) == a + ":" + ("sha256:" + x.digest);
    assert Rendered(y) == b + ":" + ("sha256:" + y.digest);
    NoColon(x.kind);
    NoColon(y.kind);
    NameBeforeColon(a, b, "sha256:" + x.digest, "sha256:" + y.digest);
    SplitEqual("sha256:", "sha256:", x.digest, y.digest);
  }

  lemma NoColon(kind: IdKind)
    ensures ':' !in KindText(kind)
  {}

  /** Whether an enumerator is one of the two that render as "unknown". */
  predicate RendersUnknown(kind: IdKind) {
    kind == UnknownNodeId || kind == OutOfRangeId
  }

  lemma KindTextsAgree(k: IdKind, l: IdKind)
    ensures KindText(k) == KindText(l) <==> k == l || (RendersUnknown(k) && RendersUnknown(l))
  {}

  /** Cells the preimage cannot tell apart: equal, or ids that differ only between the two unknown kinds. */
  predicate Alike(c: Cell, d: Cell) {
    || c == d
    || (c.IdCell? && d.IdCell? && c.id.digest == d.id.digest
        && RendersUnknown(c.id.kind) && RendersUnknown(d.id.kind))
  }

  predicate AllAlike(cs: seq<Cell>, ds: seq<Cell>) {
    |cs| == |ds| && forall i :: 0 <= i < |cs| ==> Alike(cs[i], ds[i])
  }

  lemma CellPrefixFree(c: Cell, d: Cell, r: string, u: string)
    requires SizedCell(c) && SizedCell(d) && CellBytes(c) + r == CellBytes(d) + u
    ensures Alike(c, d) && r == u
  {
    hide Counted, U64, I64, Rendered;
    Regroup([CellTag(c)], CellBody(c), r);
    Regroup([CellTag(d)], CellBody(d), u);
    SplitEqual([CellTag(c)], [CellTag(d)], CellBody(c) + r, CellBody(d) + u);
    match c
    case IdCell(id) =>
      CountedPrefixFree(Rendered(id), Rendered(d.id), r, u);
      RenderedInjective(id, d.id);
      KindTextsAgree(id.kind, d.id.kind);
    case TextCell(text) => CountedPrefixFree(text, d.text, r, u);
    case Int64Cell(signed) =>
      SplitEqual(CellBody(c), CellBody(d), r, u);
      I64Injective(signed, d.signed);
    case Uint64Cell(unsigned) =>
      SplitEqual(CellBody(c), CellBody(d), r, u);
      U64Injective(unsigned as int, d.unsigned as int);
    case _ =>
      SplitEqual(CellBody(c), CellBody(d), r, u);
      assert CellBody(c)[0] == CellBody(d)[0];
  }

  lemma {:induction false} CellsPrefixFree(cs: seq<Cell>, ds: seq<Cell>)
    requires forall c <- cs :: SizedCell(c)
    requires forall d <- ds :: SizedCell(d)
    requires CellsBytes(cs) == CellsBytes(ds)
    ensures AllAlike(cs, ds)
    decreases |cs|
  {
    hide CellBody, SizedCell, Alike;
    if cs == [] || ds == [] {
      assert cs == [] <==> CellsBytes(cs) == "";
      assert ds == [] <==> CellsBytes(ds) == "";
    } else {
      CellPrefixFree(cs[0], ds[0], CellsBytes(cs[1..]), CellsBytes(ds[1..]));
      CellsPrefixFree(cs[1..], ds[1..]);
      assert forall i :: 0 < i < |cs| ==> cs[i] == cs[1..][i - 1] && ds[i] == ds[1..][i - 1];
    }
  }

  lemma {:induction false} AlikeCellsBytes(cs: seq<Cell>, ds: seq<Cell>)
    requires AllAlike(cs, ds)
    ensures CellsBytes(cs) == CellsBytes(ds)
    decreases |cs|
  {
    hide Counted, U64, I64;
    if cs != [] {
      assert Alike(cs[0], ds[0]);
      AlikeCellsBytes(cs[1..], ds[1..]);
    }
  }

  /** Exactly when two rows share a preimage: alike cells of one relation, or of two the registry lacks. */
  lemma SamePreimageExactly(registry: seq<Schema>, a: Row, b: Row)
    requires IsRegistry(registry) && SizedRow(a) && SizedRow(b)
    ensures Preimage(registry, a) == Preimage(registry, b) <==>
              && (a.relation == b.relation || (a.relation >= |registry| && b.relation >= |registry|))
              && AllAlike(a.cells, b.cells)
  {
    hide Counted, CellsBytes, SizedCell, Alike;
    var m, n := RelationName(registry, a.relation), RelationName(registry, b.relation);
    var r, u := CellsBytes(a.cells), CellsBytes(b.cells);
    if Preimage(registry, a) == Preimage(registry, b) {
      Regroup(Counted(VERSION), Counted(m), r);
      Regroup(Counted(VERSION), Counted(n), u);
      SplitEqual(Counted(VERSION), Counted(VERSION), Counted(m) + r, Counted(n) + u);
      CountedPrefixFree(m, n, r, u);
      CellsPrefixFree(a.cells, b.cells);
    } else if AllAlike(a.cells, b.cells) {
      AlikeCellsBytes(a.cells, b.cells);
    }
  }

  lemma {:induction false} ValidCellsAreKnown(schema: Schema, cells: seq<Cell>, i: nat)
    requires |cells| == |schema.columns| && CheckCells(schema, cells, i).None?
    requires forall domain <- schema.columns :: domain.IdDomain? ==> !RendersUnknown(domain.kind)
    ensures forall k :: i <= k < |cells| && cells[k].IdCell? ==> !RendersUnknown(cells[k].id.kind)
    decreases |cells| - i
  {
    if i < |cells| {
      assert schema.columns[i] in schema.columns;
      ValidCellsAreKnown(schema, cells, i + 1);
    }
  }

  /** The preimage of a valid row differs from that of every other row, valid or not. */
  lemma ValidPreimageUnique(registry: seq<Schema>, valid: Row, other: Row)
    requires IsRegistry(registry) && ValidRow(registry, valid) && SizedRow(valid) && SizedRow(other)
    requires Preimage(registry, valid) == Preimage(registry, other)
    ensures valid == other
  {
    hide Preimage, SizedCell, CheckCells, CheckRange;
    SamePreimageExactly(registry, valid, other);
    assert registry[valid.relation] in registry;
    ValidCellsAreKnown(registry[valid.relation], valid.cells, 0);
    assert forall i :: 0 <= i < |valid.cells| ==> Alike(valid.cells[i], other.cells[i]);
  }

  // ----- The cursor: one walk that measures or writes -----

  /**
   * Walks a row once. Without a buffer it only advances, which measures; with one it stores as well.
   * `text` is what the walk has produced so far; `clamped` records a store the buffer had no room for.
   */
  class PreimageCursor {
    const buffer: array?<char>
    var position: nat
    ghost var text: string
    ghost var clamped: bool

    ghost predicate Valid()
      reads this, buffer
    {
      && !clamped
      && position == |text|
      && (buffer != null ==> position <= buffer.Length && buffer[..position] == text)
    }

    /** Whether `count` more bytes stay within the buffer. */
    predicate Fits(count: nat)
      reads this
    {
      buffer != null ==> position + count <= buffer.Length
    }

    constructor Measuring()
      ensures Valid() && text == "" && buffer == null
    {
      buffer, position, text, clamped := null, 0, "", false;
    }

    constructor Writing(buffer: array<char>)
      ensures Valid() && text == "" && this.buffer == buffer
    {
      this.buffer, position, text, clamped := buffer, 0, "", false;
    }

    /** Appends bytes; a buffer without room clamps the position to its end and stores nothing. */
    method Put(data: string)
      requires Valid()
      modifies this, buffer
      ensures old(Fits(|data|)) ==> Valid() && text == old(text) + data
      ensures !old(Fits(|data|)) ==> clamped && position == buffer.Length && buffer[..] == old(buffer[..])
    {
      if buffer != null {
        if position + |data| > buffer.Length {
          position, clamped := buffer.Length, true;
          return;
        }
        forall i | 0 <= i < |data| {
          buffer[position + i] := data[i];
        }
        assert buffer[..position] == text;
        assert buffer[..position + |data|] == text + data;
      }
      text := text + data;
      position := position + |data|;
    }

    /** Reserves the eight length bytes of a field and says where they start. */
    method BeginField() returns (at: nat)
      requires Valid() && Fits(8)
      modifies this, buffer
      ensures Valid() && at == old(position) && text == old(text) + U64(0)
    {
      at := position;
      Put(U64(0));
    }

    /** Writes the length of everything put since `at` into the reserved bytes. */
    method EndField(at: nat)
      requires Valid() && at + 8 <= position
      modifies this, buffer
      ensures Valid() && position == old(position)
      ensures text == old(text)[..at] + U64(position - at - 8) + old(text)[at + 8..]
    {
      hide U64;
      var size := U64(position - at - 8);
      ghost var patched := text[..at] + size + text[at + 8..];
      if buffer != null && at + 8 <= buffer.Length {
        forall i | 0 <= i < 8 {
          buffer[at + i] := size[i];
        }
        assert buffer[..position] == patched;
      }
      text := patched;
    }

    method LenPrefixed(content: string)
      requires Valid() && Fits(|Counted(content)|)
      modifies this, buffer
      ensures Valid() && text == old(text) + Counted(content)
    {
      hide U64;
      ghost var before := text;
      var at := BeginField();
      Put(content);
      BackPatched(before, U64(0), content);
      EndField(at);
    }

    /** A whole rendered id as one field. */
    method IdField(id: StableId)
      requires Valid() && Fits(|Counted(Rendered(id))|)
      modifies this, buffer
      ensures Valid() && text == old(text) + Counted(Rendered(id))
    {
      hide U64, KindText;
      ghost var before := text;
      var at := BeginField();
      Put(KindText(id.kind));
      Put(SEPARATOR);
      Put(id.digest);
      Pieces(before + U64(0), KindText(id.kind), SEPARATOR, id.digest);
      BackPatched(before, U64(0), Rendered(id));
      EndField(at);
    }

    method Cell(cell: Cell)
      requires Valid() && Fits(|CellBytes(cell)|)
      modifies this, buffer
      ensures Valid() && text == old(text) + CellBytes(cell)
    {
      hide U64, I64, Rendered, Counted;
      ghost var before := text;
      Put([CellTag(cell)]);
      Regroup(before, [CellTag(cell)], CellBody(cell));
      match cell {
        case IdCell(id) => IdField(id);
        case TextCell(content) => LenPrefixed(content);
        case Int64Cell(signed) => Put(I64(signed));
        case Uint64Cell(unsigned) => Put(U64(unsigned as int));
        case DispatchCell(n) => Put([n as char]);
        case AliasCell(n) => Put([n as char]);
        case RangeCell(n) => Put([n as char]);
        case EpistemicCell(n) => Put([n as char]);
      }
    }

    /** The whole preimage, in one walk. */
    method WriteRow(registry: seq<Schema>, row: Row)
      requires Valid() && text == "" && Fits(|Preimage(registry, row)|)
      modifies this, buffer
      ensures Valid() && text == Preimage(registry, row)
    {
      hide Counted, CellBytes;
      LenPrefixed(VERSION);
      LenPrefixed(RelationName(registry, row.relation));
      for i := 0 to |row.cells|
        invariant Valid() && text + CellsBytes(row.cells[i..]) == Preimage(registry, row)
        invariant Fits(|CellsBytes(row.cells[i..])|)
      {
        assert row.cells[i..][1..] == row.cells[i + 1..];
        Regroup(text, CellBytes(row.cells[i]), CellsBytes(row.cells[i + 1..]));
        Cell(row.cells[i]);
      }
    }
  }

  lemma BackPatched(before: string, gap: string, content: string)
    requires |gap| == 8
    ensures var text := before + gap + content;
            && text[..|before|] == before
            && text[|before| + 8..] == content
            && before + U64(|content|) + content == before + Counted(content)
  {
    hide U64;
  }

  lemma Pieces(a: string, b: string, c: string, d: string)
    ensures a + b + c + d == a + (b + c + d)
  {}

  /** The measuring walk. */
  method PreimageSize(registry: seq<Schema>, row: Row) returns (size: nat)
    ensures size == |Preimage(registry, row)|
  {
    var cursor := new PreimageCursor.Measuring();
    cursor.WriteRow(registry, row);
    size := cursor.position;
  }

  /** Measure, then write into a buffer of exactly that size: no store is ever clamped. */
  method WritePreimage(registry: seq<Schema>, row: Row) returns (bytes: string)
    ensures bytes == Preimage(registry, row)
  {
    var size := PreimageSize(registry, row);
    var buffer := new char[size](_ => ' ');
    var cursor := new PreimageCursor.Writing(buffer);
    cursor.WriteRow(registry, row);
    bytes := buffer[..];
    assert buffer[..size] == bytes;
  }

  // ----- Identity -----

  datatype Identity = Identified(id: StableId) | Rejected(reason: Rejection)

  /** What deriving a row's identity answers; `hash` makes an id of the preimage. */
  function IdentityOf(registry: seq<Schema>, hash: string -> StableId, row: Row): Identity {
    var reason := CheckRow(registry, row);
    if reason.Some? then Rejected(reason.value) else Identified(hash(Preimage(registry, row)))
  }

  method DeriveFactId(registry: seq<Schema>, hash: string -> StableId, row: Row) returns (answer: Identity)
    ensures answer == IdentityOf(registry, hash, row)
  {
    var reason := CheckRow(registry, row);
    if reason.Some? {
      return Rejected(reason.value);
    }
    var bytes := WritePreimage(registry, row);
    return Identified(hash(bytes));
  }

  /** Answers from the bytes of the preimage alone when it has seen them before. */
  class FactIdentityMemo {
    const registry: seq<Schema>
    const hash: string -> StableId
    var ids: map<string, StableId>

    /** Every entry was put there by a valid row. */
    ghost predicate Valid()
      reads this
    {
      && IsRegistry(registry)
      && (forall key <- ids :: FromValidRow(key) && ids[key] == hash(key))
    }

    ghost predicate FromValidRow(key: string) {
      exists row :: ValidRow(registry, row) && SizedRow(row) && Preimage(registry, row) == key
    }

    constructor (registry: seq<Schema>, hash: string -> StableId)
      requires IsRegistry(registry)
      ensures Valid() && this.registry == registry && this.hash == hash && ids == map[]
    {
      this.registry, this.hash, ids := registry, hash, map[];
    }

    /** Whatever was asked before, the answer is the one direct derivation gives, refusals included. */
    method Identify(row: Row) returns (answer: Identity)
      requires Valid() && SizedRow(row)
      modifies this
      ensures Valid() && answer == IdentityOf(registry, hash, row)
      ensures forall key <- old(ids) :: key in ids && ids[key] == old(ids)[key]
    {
      hide Preimage, CheckRow, SizedRow, IsRegistry;
      var key := WritePreimage(registry, row);
      if key in ids {
        answer := Identified(ids[key]);
        var first :| ValidRow(registry, first) && SizedRow(first) && Preimage(registry, first) == key;
        ValidPreimageUnique(registry, first, row);
        return;
      }
      answer := DeriveFactId(registry, hash, row);
      if answer.Identified? {
        assert FromValidRow(key);
        ids := ids[key := answer.id];
      }
    }
  }

  /** Any sequence of questions is answered question by question as direct derivation would. */
  method IdentifyAll(registry: seq<Schema>, hash: string -> StableId, rows: seq<Row>)
    returns (answers: seq<Identity>)
    requires IsRegistry(registry) && forall row <- rows :: SizedRow(row)
    ensures |answers| == |rows|
    ensures forall i :: 0 <= i < |rows| ==> answers[i] == IdentityOf(registry, hash, rows[i])
  {
    hide IsRegistry, SizedRow, IdentityOf;
    var memo := new FactIdentityMemo(registry, hash);
    answers := [];
    for i := 0 to |rows|
      invariant memo.Valid() && memo.registry == registry && memo.hash == hash && fresh(memo)
      invariant |answers| == i
      invariant forall k :: 0 <= k < i ==> answers[k] == IdentityOf(registry, hash, rows[k])
    {
      var answer := memo.Identify(rows[i]);
      answers := answers + [answer];
    }
  }
}
