/**
  The composition layer: one configuration wiring the subtraction and the
  multiplication chip to the same two advice columns, an instance column for
  public outputs, and the application-facing operations (load a private
  value, multiply, subtract, expose a value publicly).

  The chip value only carries the configuration; every operation takes it by
  value and returns a new table state and a result, so the configuration set
  by `Construct` is the one every later call sees.
 */
module Arithmetic {
  import opened Field
  import opened Circuit
  import opened Layout
  import opened BinaryGate
  import MulChip
  import SubChip

  datatype ArithmeticConfig = ArithmeticConfig(
    a: AdviceCol,
    b: AdviceCol,
    instance: InstanceCol,
    subConfig: GateConfig,
    mulConfig: GateConfig)

  datatype ArithmeticChip = ArithmeticChip(config: ArithmeticConfig)

  /** `cfg` is what `Configure` returns on `cs` (or on a constraint system
      `cs` was later extended from): both gates are registered over the
      shared columns, and equality is on for all three columns. */
  predicate Configured(cs: ConstraintSystem, cfg: ArithmeticConfig) {
    && cfg.subConfig.a == cfg.a && cfg.subConfig.b == cfg.b
    && cfg.mulConfig.a == cfg.a && cfg.mulConfig.b == cfg.b
    && SubChip.IsSubConfig(cs, cfg.subConfig)
    && MulChip.IsMulConfig(cs, cfg.mulConfig)
    && {cfg.a, cfg.b, cfg.instance} <= cs.equality
  }

  /** Configures both chips on the same columns `a` and `b`, then enables
      equality on the instance column. Equality ends up on exactly the three
      columns, so every copy constraint the layer emits later is between
      equality-enabled columns. */
  function Configure(cs: ConstraintSystem, a: AdviceCol, b: AdviceCol, instance: InstanceCol)
    : (r: (ConstraintSystem, ArithmeticConfig))
    ensures r.1.a == a && r.1.b == b && r.1.instance == instance
    ensures Configured(r.0, r.1)
    ensures r.0.equality == cs.equality + {a, b, instance}
    ensures r.1.subConfig.sel != r.1.mulConfig.sel
    ensures |r.0.gates| == |cs.gates| + 2 && r.0.gates[..|cs.gates|] == cs.gates
    ensures WellFormed(cs) ==> WellFormed(r.0)
  {
    var (cs1, subConfig) := SubChip.Configure(cs, a, b);
    var (cs2, mulConfig) := MulChip.Configure(cs1, a, b);
    var cs3 := EnableEquality(cs2, instance);
    assert cs2.gates[..|cs.gates|] == cs1.gates[..|cs.gates|];
    EnableEqualityKeepsWellFormed(cs2, instance);
    (cs3, ArithmeticConfig(a, b, instance, subConfig, mulConfig))
  }

  function Construct(config: ArithmeticConfig): ArithmeticChip {
    ArithmeticChip(config)
  }

  /** Brings a private value under circuit control: a one-row region with the
      value in column a, no selector, no copy constraint. */
  function LoadPrivate(chip: ArithmeticChip, L: Layouter, v: Fe): (r: Result<(Layouter, Number)>)
    ensures var cell := Cell(chip.config.a, L.nextRow);
            r.Ok? <==> cell.row < L.usableRows && cell !in L.advice
    ensures r.Ok? ==>
              var (L', n) := r.value;
              && n == Number(Cell(chip.config.a, L.nextRow), v)
              && L'.advice == L.advice[n.cell := v]
              && L'.enabled == L.enabled
              && L'.copies == L.copies
              && L'.nextRow == L.nextRow + 1
              && L'.cs == L.cs && L'.usableRows == L.usableRows
  {
    var region := OpenRegion(L, "load private");
    var (L1, n) :- AssignAdvice(L, region, chip.config.a, 0, v);
    Ok((CloseRegion(L1, region, 1), n))
  }

  /** Under the invariant a load fails only when the table is out of rows, and
      a successful load keeps the invariant and returns a fresh cell. */
  lemma LoadPrivateKeepsValid(chip: ArithmeticChip, L: Layouter, v: Fe)
    requires Valid(L)
    ensures LoadPrivate(chip, L, v).Ok? <==> L.nextRow < L.usableRows
    ensures var r := LoadPrivate(chip, L, v);
            r.Ok? ==> && Valid(r.value.0) && Extends(L, r.value.0)
                      && Holds(r.value.0, r.value.1) && r.value.1.cell !in L.advice
  {
    var r := LoadPrivate(chip, L, v);
    if r.Ok? {
      ValidAfterRegion(L, r.value.0);
    }
  }

  /** Makes `num` a public output: one copy constraint from `num`'s cell to
      row `row` of the instance column. No cell is assigned and no region is
      opened. */
  function ExposePublic(chip: ArithmeticChip, L: Layouter, num: Number, row: nat): (r: Result<Layouter>)
    ensures r.Ok? <==> && num.cell.row < L.usableRows && row < L.usableRows
                       && num.cell.column in L.cs.equality && chip.config.instance in L.cs.equality
    ensures r.Ok? ==> r.value == L.(copies := L.copies + {Copy(num.cell, Cell(chip.config.instance, row))})
  {
    ConstrainInstance(L, num.cell, chip.config.instance, row)
  }

  /** Exposing a number of a configured chip fails only when the instance row
      lies past the table. Exposing keeps the invariant, and from then on the
      instance cell equals `num`'s value in every satisfying completion of the
      table. */
  lemma ExposePublicKeepsValid(chip: ArithmeticChip, L: Layouter, num: Number, row: nat)
    requires Valid(L) && Holds(L, num)
    ensures Configured(L.cs, chip.config) && num.cell.column == chip.config.a ==>
              (ExposePublic(chip, L, num, row).Ok? <==> row < L.usableRows)
    ensures var r := ExposePublic(chip, L, num, row);
            r.Ok? ==> && Valid(r.value) && Extends(L, r.value)
                      && forall inst: map<Cell, Fe> | Satisfied(r.value, inst) ::
                           InstanceValue(inst, Cell(chip.config.instance, row)) == num.value
  {
    var r := ExposePublic(chip, L, num, row);
    if r.Ok? {
      var L' := r.value;
      var cp := Copy(num.cell, Cell(chip.config.instance, row));
      assert cp in L'.copies;
      ValidAfterRegion(L, L');
      forall inst: map<Cell, Fe> | Satisfied(L', inst)
        ensures InstanceValue(inst, Cell(chip.config.instance, row)) == num.value
      {
        assert CellValue(L', inst, cp.left) == CellValue(L', inst, cp.right);
      }
    }
  }

  /** Multiplication delegates to the multiplication chip under the stored
      configuration. */
  function Mul(chip: ArithmeticChip, L: Layouter, x: Number, y: Number): (r: Result<(Layouter, Number)>)
    ensures r.Ok? <==> CanFill(L, chip.config.mulConfig, x, y)
    ensures r.Ok? ==> r.value.1.value == Field.Mul(x.value, y.value)
                      && r.value.1.cell == Cell(chip.config.mulConfig.a, L.nextRow + 1)
  {
    MulChip.Mul(chip.config.mulConfig, L, x, y)
  }

  /** Subtraction delegates to the subtraction chip under the stored
      configuration. */
  function Sub(chip: ArithmeticChip, L: Layouter, x: Number, y: Number): (r: Result<(Layouter, Number)>)
    ensures r.Ok? <==> CanFill(L, chip.config.subConfig, x, y)
    ensures r.Ok? ==> r.value.1.value == Field.Sub(x.value, y.value)
                      && r.value.1.cell == Cell(chip.config.subConfig.a, L.nextRow + 1)
  {
    SubChip.Sub(chip.config.subConfig, L, x, y)
  }

  /** Under the invariant and a configured chip, an operation fails only when
      the table is out of rows, the columns a and b coincide, or an operand
      sits in a column without equality; on success the invariant survives
      and the result is a fresh cell holding its value. */
  lemma MulKeepsValid(chip: ArithmeticChip, L: Layouter, x: Number, y: Number)
    requires Valid(L) && Configured(L.cs, chip.config)
    requires Holds(L, x) && Holds(L, y)
    ensures Mul(chip, L, x, y).Ok? <==>
              && L.nextRow + 1 < L.usableRows && chip.config.a != chip.config.b
              && x.cell.column in L.cs.equality && y.cell.column in L.cs.equality
    ensures var r := Mul(chip, L, x, y);
            r.Ok? ==> && Valid(r.value.0) && Extends(L, r.value.0)
                      && Holds(r.value.0, r.value.1) && r.value.1.cell !in L.advice
  {
    FillFailsOnlyFor(L, chip.config.mulConfig, x, y);
    assert x.cell in L.advice && y.cell in L.advice;
    MulChip.MulKeepsValid(chip.config.mulConfig, L, x, y);
  }

  lemma SubKeepsValid(chip: ArithmeticChip, L: Layouter, x: Number, y: Number)
    requires Valid(L) && Configured(L.cs, chip.config)
    requires Holds(L, x) && Holds(L, y)
    ensures Sub(chip, L, x, y).Ok? <==>
              && L.nextRow + 1 < L.usableRows && chip.config.a != chip.config.b
              && x.cell.column in L.cs.equality && y.cell.column in L.cs.equality
    ensures var r := Sub(chip, L, x, y);
            r.Ok? ==> && Valid(r.value.0) && Extends(L, r.value.0)
                      && Holds(r.value.0, r.value.1) && r.value.1.cell !in L.advice
  {
    FillFailsOnlyFor(L, chip.config.subConfig, x, y);
    assert x.cell in L.advice && y.cell in L.advice;
    SubChip.SubKeepsValid(chip.config.subConfig, L, x, y);
  }

  /** Every call gets its own region: multiplying the same operands twice
      gives two distinct cells holding the same value. */
  lemma RepeatedMulDistinctCells(chip: ArithmeticChip, L: Layouter, x: Number, y: Number)
    requires Valid(L) && Configured(L.cs, chip.config)
    requires Holds(L, x) && Holds(L, y)
    requires Mul(chip, L, x, y).Ok?
    ensures var (L1, n1) := Mul(chip, L, x, y).value;
            var r2 := Mul(chip, L1, x, y);
            r2.Ok? ==> r2.value.1.cell != n1.cell && r2.value.1.value == n1.value
  {
    MulKeepsValid(chip, L, x, y);
    var (L1, n1) := Mul(chip, L, x, y).value;
    ExtendsKeepsHolds(L, L1, x);
    ExtendsKeepsHolds(L, L1, y);
    MulKeepsValid(chip, L1, x, y);
  }
}
