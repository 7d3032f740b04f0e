/** Which rows have an identity: the checks against what they are for. */
module FactRows {
  import opened Basics
  import opened FactIdentity

  /** The one column domain a cell belongs to. */
  function DomainOf(cell: Cell): Domain {
    match cell
    case IdCell(id) => IdDomain(id.kind)
    case Int64Cell(_) => Int64Domain
    case Uint64Cell(_) => Uint64Domain
    case TextCell(_) => TextDomain
    case DispatchCell(_) => DispatchDomain
    case AliasCell(_) => AliasDomain
    case RangeCell(_) => RangeDomain
    case EpistemicCell(_) => EpistemicDomain
  }

  /** A cell stands in its column, and states no epistemic state the relation does not allow. */
  predicate Stands(schema: Schema, domain: Domain, cell: Cell) {
    DomainOf(cell) == domain && (cell.EpistemicCell? ==> cell.ordinal in schema.epistemic)
  }

  /** Direct reads and writes, the eighth and ninth relation, carry a byte range in columns 2 to 4. */
  predicate CarriesRange(row: Row) {
    (row.relation == 7 || row.relation == 8) && |row.cells| >= 5
  }

  /** A range is known, or its offset and size are zero. */
  predicate RangeCanonical(row: Row) {
    CarriesRange(row) ==>
      && row.cells[2].RangeCell?
      && (row.cells[2].ordinal == 0 || (row.cells[3] == Int64Cell(0) && row.cells[4] == Uint64Cell(0)))
  }

  /** The relation is registered, and every cell stands in the column of its place. */
  predicate Fits(registry: seq<Schema>, row: Row) {
    && row.relation < |registry|
    && |row.cells| == |registry[row.relation].columns|
    && (forall i | 0 <= i < |row.cells| ::
          Stands(registry[row.relation], registry[row.relation].columns[i], row.cells[i]))
    && RangeCanonical(row)
  }

  /** The row passes every check before cell `i`. */
  predicate FitsUpTo(registry: seq<Schema>, row: Row, i: nat) {
    && row.relation < |registry|
    && |row.cells| == |registry[row.relation].columns| && i <= |row.cells|
    && (forall k | 0 <= k < i ::
          Stands(registry[row.relation], registry[row.relation].columns[k], row.cells[k]))
  }

  /** What is wrong with a cell that does not stand in its column. */
  predicate CellFault(schema: Schema, domain: Domain, cell: Cell, fault: Rejection) {
    match fault
    case NotStableId => domain.IdDomain? && !cell.IdCell?
    case IdKindMismatch => domain.IdDomain? && cell.IdCell? && cell.id.kind != domain.kind
    case CellTypeMismatch => !domain.IdDomain? && DomainOf(cell) != domain
    case EpistemicNotAllowed => domain.EpistemicDomain? && cell.EpistemicCell? && cell.ordinal !in schema.epistemic
    case _ => false
  }

  /** What is wrong with the range of a row whose cells all stand in their columns. */
  predicate RangeFault(row: Row, fault: Rejection) {
    CarriesRange(row) &&
    match fault
    case MissingRangeKind => !row.cells[2].RangeCell?
    case MissingRangePayload =>
      row.cells[2].RangeCell? && row.cells[2].ordinal != 0 && !(row.cells[3].Int64Cell? && row.cells[4].Uint64Cell?)
    case NonCanonicalRange =>
      && row.cells[2].RangeCell? && row.cells[2].ordinal != 0 && row.cells[3].Int64Cell? && row.cells[4].Uint64Cell?
      && !(row.cells[3].signed == 0 && row.cells[4].unsigned == 0)
    case _ => false
  }

  /** The first thing wrong with a row, in the order in which the checks are made. */
  predicate FirstFault(registry: seq<Schema>, row: Row, fault: Rejection) {
    || (fault == UnknownRelation && row.relation >= |registry|)
    || (fault == CellCountMismatch && row.relation < |registry| && |row.cells| != |registry[row.relation].columns|)
    || (exists i | 0 <= i < |row.cells| ::
          && FitsUpTo(registry, row, i)
          && CellFault(registry[row.relation], registry[row.relation].columns[i], row.cells[i], fault))
    || (FitsUpTo(registry, row, |row.cells|) && RangeFault(row, fault))
  }

  lemma CellChecked(schema: Schema, domain: Domain, cell: Cell)
    ensures Stands(schema, domain, cell) <==>
            CheckCell(domain, cell).None? && (domain == EpistemicDomain ==> cell.ordinal in schema.epistemic)
    ensures CheckCell(domain, cell).Some? ==> CellFault(schema, domain, cell, CheckCell(domain, cell).value)
    ensures forall a, b :: CellFault(schema, domain, cell, a) && CellFault(schema, domain, cell, b) ==> a == b
    ensures (exists fault :: CellFault(schema, domain, cell, fault)) ==> !Stands(schema, domain, cell)
  {}

  /** What the check of the cells from `i` on amounts to. */
  lemma {:induction false} CellsChecked(registry: seq<Schema>, row: Row, i: nat)
    requires FitsUpTo(registry, row, i)
    ensures var schema := registry[row.relation];
            var refusal := CheckCells(schema, row.cells, i);
            && (refusal.None? ==> FitsUpTo(registry, row, |row.cells|))
            && (refusal.Some? ==>
                  exists k | i <= k < |row.cells| ::
                    FitsUpTo(registry, row, k) && CellFault(schema, schema.columns[k], row.cells[k], refusal.value))
    decreases |row.cells| - i
  {
    hide CheckCell, Stands, CellFault;
    if i < |row.cells| {
      var schema := registry[row.relation];
      CellChecked(schema, schema.columns[i], row.cells[i]);
      if Stands(schema, schema.columns[i], row.cells[i]) {
        CellsChecked(registry, row, i + 1);
      } else if CheckCell(schema.columns[i], row.cells[i]).None? {
        EpistemicFault(schema, schema.columns[i], row.cells[i]);
      }
    }
  }

  lemma EpistemicFault(schema: Schema, domain: Domain, cell: Cell)
    requires CheckCell(domain, cell).None? && domain == EpistemicDomain && cell.ordinal !in schema.epistemic
    ensures CellFault(schema, domain, cell, EpistemicNotAllowed)
  {}

  lemma RangeChecked(row: Row)
    ensures CheckRange(row).None? <==> RangeCanonical(row)
    ensures forall fault :: RangeFault(row, fault) <==> CheckRange(row) == Some(fault)
  {}

  /** A row the checks refuse is refused for the first thing wrong with it. */
  lemma RefusedForFault(registry: seq<Schema>, row: Row)
    ensures CheckRow(registry, row).None? ==> Fits(registry, row)
    ensures CheckRow(registry, row).Some? ==> FirstFault(registry, row, CheckRow(registry, row).value)
  {
    hide CheckCells, CheckRange, RangeCanonical, RangeFault, CellFault, Stands;
    if row.relation < |registry| && |row.cells| == |registry[row.relation].columns| {
      CellsChecked(registry, row, 0);
      RangeChecked(row);
    }
  }

  /** A cell with a fault is past no check, so no cell after it is the first with one. */
  lemma FaultStopsHere(registry: seq<Schema>, row: Row, i: nat, j: nat, fault: Rejection)
    requires i < |row.cells| && FitsUpTo(registry, row, i) && FitsUpTo(registry, row, j)
    requires CellFault(registry[row.relation], registry[row.relation].columns[i], row.cells[i], fault)
    ensures j <= i
  {
    hide CheckCell, Stands, CellFault;
    CellChecked(registry[row.relation], registry[row.relation].columns[i], row.cells[i]);
  }

  lemma RangeFaultIs(fault: Rejection, row: Row)
    requires RangeFault(row, fault)
    ensures !RangeCanonical(row)
  {}

  /** Only one thing is wrong first, and nothing is with a row that fits. */
  lemma OneFirstFault(registry: seq<Schema>, row: Row, a: Rejection, b: Rejection)
    requires FirstFault(registry, row, a) && FirstFault(registry, row, b)
    ensures a == b && !Fits(registry, row)
  {
    hide RangeCanonical, RangeFault, CellFault, Stands;
    RangeChecked(row);
    if row.relation < |registry| && |row.cells| == |registry[row.relation].columns| {
      var schema := registry[row.relation];
      forall i, fault | 0 <= i < |row.cells| && FitsUpTo(registry, row, i)
                        && CellFault(schema, schema.columns[i], row.cells[i], fault)
        ensures !FitsUpTo(registry, row, |row.cells|)
                && (forall j, other | 0 <= j < |row.cells| && FitsUpTo(registry, row, j)
                                      && CellFault(schema, schema.columns[j], row.cells[j], other) :: other == fault)
      {
        LoneCellFault(registry, row, i, fault);
      }
      forall fault | RangeFault(row, fault) ensures !RangeCanonical(row) {
        RangeFaultIs(fault, row);
      }
    }
  }

  lemma LoneCellFault(registry: seq<Schema>, row: Row, i: nat, fault: Rejection)
    requires i < |row.cells| && FitsUpTo(registry, row, i)
    requires CellFault(registry[row.relation], registry[row.relation].columns[i], row.cells[i], fault)
    ensures !FitsUpTo(registry, row, |row.cells|)
    ensures forall j, other | 0 <= j < |row.cells| && FitsUpTo(registry, row, j)
              && CellFault(registry[row.relation], registry[row.relation].columns[j], row.cells[j], other) ::
              other == fault
  {
    hide Stands, CellFault, CheckCell;
    if FitsUpTo(registry, row, |row.cells|) {
      FaultStopsHere(registry, row, i, |row.cells|, fault);
    }
    forall j, other | 0 <= j < |row.cells| && FitsUpTo(registry, row, j)
      && CellFault(registry[row.relation], registry[row.relation].columns[j], row.cells[j], other)
      ensures other == fault
    {
      FaultStopsHere(registry, row, i, j, fault);
      FaultStopsHere(registry, row, j, i, other);
      CellChecked(registry[row.relation], registry[row.relation].columns[i], row.cells[i]);
    }
  }

  /**
   * A row has an identity exactly when its relation is registered, its cells stand in their columns and its range
   * is canonical; otherwise the answer is exactly the first thing wrong with it.
   */
  lemma IdentifiedExactly(registry: seq<Schema>, hash: string -> StableId, row: Row)
    ensures IdentityOf(registry, hash, row).Identified? <==> Fits(registry, row)
    ensures forall fault :: IdentityOf(registry, hash, row) == Rejected(fault) <==> FirstFault(registry, row, fault)
  {
    hide CheckRow, Fits, FirstFault;
    RefusedForFault(registry, row);
    if CheckRow(registry, row).Some? {
      OneFirstFault(registry, row, CheckRow(registry, row).value, CheckRow(registry, row).value);
    }
    forall fault | FirstFault(registry, row, fault) ensures IdentityOf(registry, hash, row) == Rejected(fault) {
      OneFirstFault(registry, row, fault, fault);
      OneFirstFault(registry, row, fault, CheckRow(registry, row).value);
    }
  }
}
