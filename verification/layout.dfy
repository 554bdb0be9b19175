/**
  The synthesis-time half of the backend, reduced to a small abstract machine.

  A `Layouter` value is the whole state the chips can affect: the advice
  cells assigned so far, the (selector, row) pairs switched on, the copy
  constraints registered, and a next-free-row counter that plays the
  floor planner by handing every region a fresh block of rows. The
  constraint system fixed at configuration time travels with it, together
  with the number of usable rows of the table.

  The primitives below are the backend calls the chips make (enable a
  selector, assign an advice cell, copy an assigned cell, constrain two
  cells equal, constrain a cell to an instance row). Each either returns the
  new state or fails with the backend's error, which aborts the whole call.
 */
module Layout {
  import opened Field
  import opened Circuit

  /** The synthesis errors the model can raise. */
  datatype Error =
    | NotEnoughRowsAvailable(row: nat)
    | CellAlreadyAssigned(region: string, cell: Cell)
    | ColumnNotInPermutation(column: Column)

  datatype Result<+T> = Ok(value: T) | Err(error: Error) {
    predicate IsFailure() {
      Err?
    }

    function PropagateFailure<U>(): Result<U>
      requires Err?
    {
      Err(error)
    }

    function Extract(): T
      requires Ok?
    {
      value
    }
  }

  /** An assigned value together with the cell that holds it. */
  datatype Number = Number(cell: Cell, value: Fe)

  /** A copy constraint: the two cells must hold the same value. */
  datatype Copy = Copy(left: Cell, right: Cell)

  datatype Layouter = Layouter(
    cs: ConstraintSystem,
    usableRows: nat,
    advice: map<Cell, Fe>,
    enabled: set<(Selector, nat)>,
    copies: set<Copy>,
    nextRow: nat)

  /** A region: a name (kept for error reports) and its first absolute row.
      Offsets inside the region are relative to `start`. */
  datatype Region = Region(name: string, start: nat)

  /** The table before any region has been laid out. */
  function Start(cs: ConstraintSystem, usableRows: nat): Layouter {
    Layouter(cs, usableRows, map[], {}, {}, 0)
  }

  /** An advice cell's value; cells never assigned read as zero. */
  function Value(L: Layouter, c: Cell): Fe {
    if c in L.advice then L.advice[c] else 0
  }

  /** `n` is what the table holds at `n`'s cell. */
  predicate Holds(L: Layouter, n: Number) {
    n.cell in L.advice && L.advice[n.cell] == n.value
  }

  // ---------------------------------------------------------------------
  // Backend primitives
  // ---------------------------------------------------------------------

  /** Hands out the next free block of rows. */
  function OpenRegion(L: Layouter, name: string): Region {
    Region(name, L.nextRow)
  }

  /** Marks the first `height` rows of the region as used. */
  function CloseRegion(L: Layouter, region: Region, height: nat): Layouter {
    L.(nextRow := region.start + height)
  }

  function EnableSelector(L: Layouter, region: Region, sel: Selector, offset: nat): (r: Result<Layouter>)
    ensures r.Ok? <==> region.start + offset < L.usableRows
    ensures r.Ok? ==> r.value == L.(enabled := L.enabled + {(sel, region.start + offset)})
  {
    var row := region.start + offset;
    if row < L.usableRows then Ok(L.(enabled := L.enabled + {(sel, row)}))
    else Err(NotEnoughRowsAvailable(row))
  }

  function AssignAdvice(L: Layouter, region: Region, column: AdviceCol, offset: nat, v: Fe): (r: Result<(Layouter, Number)>)
    ensures var cell := Cell(column, region.start + offset);
            r.Ok? <==> cell.row < L.usableRows && cell !in L.advice
    ensures var cell := Cell(column, region.start + offset);
            r.Ok? ==> r.value == (L.(advice := L.advice[cell := v]), Number(cell, v))
  {
    var cell := Cell(column, region.start + offset);
    if L.usableRows <= cell.row then Err(NotEnoughRowsAvailable(cell.row))
    else if cell in L.advice then Err(CellAlreadyAssigned(region.name, cell))
    else Ok((L.(advice := L.advice[cell := v]), Number(cell, v)))
  }

  function ConstrainEqual(L: Layouter, left: Cell, right: Cell): (r: Result<Layouter>)
    ensures r.Ok? <==> && left.row < L.usableRows && right.row < L.usableRows
                       && left.column in L.cs.equality && right.column in L.cs.equality
    ensures r.Ok? ==> r.value == L.(copies := L.copies + {Copy(left, right)})
  {
    if L.usableRows <= left.row then Err(NotEnoughRowsAvailable(left.row))
    else if L.usableRows <= right.row then Err(NotEnoughRowsAvailable(right.row))
    else if left.column !in L.cs.equality then Err(ColumnNotInPermutation(left.column))
    else if right.column !in L.cs.equality then Err(ColumnNotInPermutation(right.column))
    else Ok(L.(copies := L.copies + {Copy(left, right)}))
  }

  /** Assigns `num`'s value at the given offset and ties the new cell to
      `num`'s cell: assignment first, then the equality constraint. */
  function CopyAdvice(L: Layouter, region: Region, num: Number, column: AdviceCol, offset: nat): (r: Result<(Layouter, Number)>)
    ensures var cell := Cell(column, region.start + offset);
            r.Ok? <==> && cell.row < L.usableRows && cell !in L.advice
                       && num.cell.row < L.usableRows
                       && column in L.cs.equality && num.cell.column in L.cs.equality
    ensures var cell := Cell(column, region.start + offset);
            r.Ok? ==> r.value == (L.(advice := L.advice[cell := num.value],
                                     copies := L.copies + {Copy(cell, num.cell)}),
                                  Number(cell, num.value))
  {
    var (L1, n) :- AssignAdvice(L, region, column, offset, num.value);
    var L2 :- ConstrainEqual(L1, n.cell, num.cell);
    Ok((L2, n))
  }

  /** Ties an assigned cell to a row of an instance column. */
  function ConstrainInstance(L: Layouter, cell: Cell, instance: InstanceCol, row: nat): (r: Result<Layouter>)
    ensures r.Ok? <==> && cell.row < L.usableRows && row < L.usableRows
                       && cell.column in L.cs.equality && instance in L.cs.equality
    ensures r.Ok? ==> r.value == L.(copies := L.copies + {Copy(cell, Cell(instance, row))})
  {
    ConstrainEqual(L, cell, Cell(instance, row))
  }

  // ---------------------------------------------------------------------
  // What a table means: gate evaluation and satisfaction
  // ---------------------------------------------------------------------

  /** The value of a gate polynomial at absolute row `row`. A selector reads
      as 1 on the rows it is enabled at and 0 elsewhere. */
  function Eval(e: Expression, L: Layouter, row: nat): Fe {
    match e
    case SelectorQuery(s) => if (s, row) in L.enabled then 1 else 0
    case AdviceQuery(c, k) => Value(L, Cell(c, row + k))
    case Negated(x) => Neg(Eval(x, L, row))
    case Sum(x, y) => Add(Eval(x, L, row), Eval(y, L, row))
    case Product(x, y) => Mul(Eval(x, L, row), Eval(y, L, row))
  }

  /** Every gate polynomial vanishes on every row. */
  ghost predicate GatesHold(L: Layouter) {
    forall i, row: nat :: 0 <= i < |L.cs.gates| ==> Eval(L.cs.gates[i].poly, L, row) == 0
  }

  /** The value of an instance cell under a public-input assignment. */
  function InstanceValue(inst: map<Cell, Fe>, c: Cell): Fe {
    if c in inst then inst[c] else 0
  }

  /** A cell's value once the public inputs are fixed. */
  function CellValue(L: Layouter, inst: map<Cell, Fe>, c: Cell): Fe {
    if c.column.InstanceColumn? then InstanceValue(inst, c) else Value(L, c)
  }

  /** The table, completed by the public inputs `inst`, satisfies every gate
      and every copy constraint. */
  ghost predicate Satisfied(L: Layouter, inst: map<Cell, Fe>) {
    && GatesHold(L)
    && forall cp | cp in L.copies :: CellValue(L, inst, cp.left) == CellValue(L, inst, cp.right)
  }

  /** The public inputs agree with every value exposed to an instance row. */
  predicate MatchesExposed(L: Layouter, inst: map<Cell, Fe>) {
    forall cp | cp in L.copies && cp.right.column.InstanceColumn? ::
      InstanceValue(inst, cp.right) == Value(L, cp.left)
  }

  // ---------------------------------------------------------------------
  // The invariant the chips keep
  // ---------------------------------------------------------------------

  /** A copy constraint between equality-enabled columns, from an assigned
      advice cell to an assigned advice cell or a usable instance row. */
  predicate CopyShape(L: Layouter, cp: Copy) {
    && cp.left.column in L.cs.equality
    && cp.right.column in L.cs.equality
    && cp.left in L.advice
    && (cp.right in L.advice || (cp.right.column.InstanceColumn? && cp.right.row < L.usableRows))
  }

  /** Copy constraints between two advice cells hold in the table itself. */
  predicate AdviceCopiesHold(L: Layouter) {
    forall cp | cp in L.copies && cp.left in L.advice && cp.right in L.advice ::
      L.advice[cp.left] == L.advice[cp.right]
  }

  ghost predicate Valid(L: Layouter) {
    && WellFormed(L.cs)
    && L.nextRow <= L.usableRows
    && (forall c | c in L.advice :: c.column.AdviceColumn? && c.row < L.nextRow)
    && (forall sr | sr in L.enabled :: sr.1 + 1 < L.nextRow)
    && (forall cp | cp in L.copies :: CopyShape(L, cp))
    && GatesHold(L)
    && AdviceCopiesHold(L)
  }

  /** `L'` is `L` with more cells, selectors and copies, nothing overwritten. */
  predicate Extends(L: Layouter, L': Layouter) {
    && L'.cs == L.cs
    && L'.usableRows == L.usableRows
    && L.nextRow <= L'.nextRow
    && (forall c | c in L.advice :: c in L'.advice && L'.advice[c] == L.advice[c])
    && L.enabled <= L'.enabled
    && L.copies <= L'.copies
  }

  lemma ExtendsKeepsHolds(L: Layouter, L': Layouter, n: Number)
    requires Extends(L, L') && Holds(L, n)
    ensures Holds(L', n)
  {
  }

  lemma ExtendsTransitive(L1: Layouter, L2: Layouter, L3: Layouter)
    requires Extends(L1, L2) && Extends(L2, L3)
    ensures Extends(L1, L3)
  {
  }

  /** A fresh table over a well-formed constraint system is valid. */
  lemma StartValid(cs: ConstraintSystem, usableRows: nat)
    requires WellFormed(cs)
    ensures Valid(Start(cs, usableRows))
  {
    var L := Start(cs, usableRows);
    forall i, row: nat | 0 <= i < |cs.gates|
      ensures Eval(cs.gates[i].poly, L, row) == 0
    {
      GuardOff(L, cs.gates[i], row);
    }
  }

  /** A selector-guarded gate vanishes on every row its selector is off:
      the cells there are unconstrained by it. */
  lemma GuardOff(L: Layouter, g: Gate, row: nat)
    requires Guarded(g.poly)
    requires (Guard(g), row) !in L.enabled
    ensures Eval(g.poly, L, row) == 0
  {
  }

  /** On a row its selector is on, a guarded gate vanishes exactly when its
      body does. */
  lemma GuardOn(L: Layouter, g: Gate, row: nat)
    requires Guarded(g.poly)
    requires (Guard(g), row) in L.enabled
    ensures Eval(g.poly, L, row) == Eval(g.poly.right, L, row)
  {
  }

  /** A local body only depends on the current and the next row. */
  lemma {:induction false} EvalLocalFrame(e: Expression, L: Layouter, L': Layouter, row: nat)
    requires Local(e)
    requires forall c: Cell | row <= c.row <= row + 1 :: Value(L, c) == Value(L', c)
    ensures Eval(e, L, row) == Eval(e, L', row)
  {
    match e
    case AdviceQuery(c, k) =>
      assert row <= Cell(c, row + k).row <= row + 1;
    case Negated(x) =>
      EvalLocalFrame(x, L, L', row);
    case Sum(x, y) =>
      EvalLocalFrame(x, L, L', row);
      EvalLocalFrame(y, L, L', row);
    case Product(x, y) =>
      EvalLocalFrame(x, L, L', row);
      EvalLocalFrame(y, L, L', row);
  }

  /** Laying out one more region keeps the invariant, provided the region
      writes only its own fresh rows, switches selectors on only at its first
      row, adds only well-shaped copies that hold, and makes every gate it
      switches on vanish there. */
  lemma ValidAfterRegion(L: Layouter, L': Layouter)
    requires Valid(L)
    requires L'.cs == L.cs && L'.usableRows == L.usableRows
    requires L.nextRow <= L'.nextRow <= L'.usableRows
    requires forall c | c in L.advice :: c in L'.advice && L'.advice[c] == L.advice[c]
    requires forall c | c in L'.advice ::
               c.column.AdviceColumn? && c.row < L'.nextRow && (c in L.advice || L.nextRow <= c.row)
    requires L.enabled <= L'.enabled
    requires forall sr | sr in L'.enabled :: sr.1 + 1 < L'.nextRow && (sr in L.enabled || sr.1 == L.nextRow)
    requires L.copies <= L'.copies
    requires forall cp | cp in L'.copies && cp !in L.copies :: CopyShape(L', cp)
    requires forall cp | cp in L'.copies && cp !in L.copies && cp.left in L'.advice && cp.right in L'.advice ::
               L'.advice[cp.left] == L'.advice[cp.right]
    requires forall i | 0 <= i < |L.cs.gates| && (Guard(L.cs.gates[i]), L.nextRow) in L'.enabled ::
               Eval(L.cs.gates[i].poly.right, L', L.nextRow) == 0
    ensures Valid(L') && Extends(L, L')
  {
    var gates := L.cs.gates;
    forall i, row: nat | 0 <= i < |gates|
      ensures Eval(gates[i].poly, L', row) == 0
    {
      var g := gates[i];
      if (Guard(g), row) !in L'.enabled {
        GuardOff(L', g, row);
      } else if row == L.nextRow {
        GuardOn(L', g, row);
      } else {
        assert (Guard(g), row) in L.enabled;
        forall c: Cell | row <= c.row <= row + 1
          ensures Value(L, c) == Value(L', c)
        {
        }
        EvalLocalFrame(g.poly.right, L, L', row);
        GuardOn(L, g, row);
        GuardOn(L', g, row);
      }
    }
    forall cp | cp in L'.copies
      ensures CopyShape(L', cp)
    {
      if cp in L.copies {
        assert CopyShape(L, cp);
      }
    }
  }

  /** Under the invariant, the completed table is satisfied exactly when the
      public inputs carry the exposed values: gates and advice-to-advice
      copies already hold. */
  lemma SatisfiedIffMatchesExposed(L: Layouter, inst: map<Cell, Fe>)
    requires Valid(L)
    ensures Satisfied(L, inst) <==> MatchesExposed(L, inst)
  {
    if MatchesExposed(L, inst) {
      forall cp | cp in L.copies
        ensures CellValue(L, inst, cp.left) == CellValue(L, inst, cp.right)
      {
        assert CopyShape(L, cp);
      }
    }
    if Satisfied(L, inst) {
      forall cp | cp in L.copies && cp.right.column.InstanceColumn?
        ensures InstanceValue(inst, cp.right) == Value(L, cp.left)
      {
        assert CopyShape(L, cp);
        assert CellValue(L, inst, cp.left) == CellValue(L, inst, cp.right);
      }
    }
  }
}
