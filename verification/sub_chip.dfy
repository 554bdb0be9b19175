/**
  The subtraction chip: gate `sel_sub * (lhs - rhs - out)` over the shared
  advice columns, with `lhs` and `rhs` read from columns a and b at the
  current row and `out` from column a at the next row.
 */
module SubChip {
  import opened Field
  import opened Circuit
  import opened Layout
  import opened BinaryGate

  /** `lhs - rhs - out`, in the backend's expression vocabulary, where a
      difference is a sum with a negation. */
  function SubIdentity(a: Column, b: Column): Expression {
    Sum(Sum(AdviceQuery(a, 0), Negated(AdviceQuery(b, 0))), Negated(AdviceQuery(a, 1)))
  }

  /** `cfg` is the configuration `Configure` produced on (an ancestor of) `cs`:
      the subtraction gate over its columns is registered under its
      selector. */
  predicate IsSubConfig(cs: ConstraintSystem, cfg: GateConfig) {
    Gate("sub", GatePoly(cfg.sel, SubIdentity(cfg.a, cfg.b))) in cs.gates
  }

  /** Enables equality on both columns, allocates a fresh selector and
      registers the subtraction gate under it; nothing configured before
      is disturbed. */
  function Configure(cs: ConstraintSystem, a: AdviceCol, b: AdviceCol): (r: (ConstraintSystem, GateConfig))
    ensures r.1.a == a && r.1.b == b
    ensures r.0.equality == cs.equality + {a, b}
    ensures WellFormed(cs) ==> forall i :: 0 <= i < |cs.gates| ==> Guard(cs.gates[i]) != r.1.sel
    ensures IsSubConfig(r.0, r.1)
    ensures |r.0.gates| == |cs.gates| + 1 && r.0.gates[..|cs.gates|] == cs.gates
    ensures WellFormed(cs) ==> WellFormed(r.0)
  {
    assert Local(Negated(AdviceQuery(b, 0)));
    assert Local(Negated(AdviceQuery(a, 1)));
    assert Local(SubIdentity(a, b));
    BinaryGate.Configure(cs, "sub", a, b, SubIdentity(a, b))
  }

  /** Gate semantics: where the selector is off the gate constrains nothing;
      where it is on, it holds exactly when the next row of column a carries
      the difference of the current row's two cells, column a minus column b. */
  lemma GateSemantics(L: Layouter, cfg: GateConfig, row: nat)
    ensures var e := GatePoly(cfg.sel, SubIdentity(cfg.a, cfg.b));
            && ((cfg.sel, row) !in L.enabled ==> Eval(e, L, row) == 0)
            && ((cfg.sel, row) in L.enabled ==>
                  (Eval(e, L, row) == 0 <==>
                   Value(L, Cell(cfg.a, row + 1)) == Field.Sub(Value(L, Cell(cfg.a, row)), Value(L, Cell(cfg.b, row)))))
  {
    var lhs := Value(L, Cell(cfg.a, row));
    var rhs := Value(L, Cell(cfg.b, row));
    var out := Value(L, Cell(cfg.a, row + 1));
    BodyValue(L, cfg, row);
    AddNegZeroIff(Field.Sub(lhs, rhs), out);
  }

  /** The gate body evaluates to `lhs - rhs - out`. */
  lemma BodyValue(L: Layouter, cfg: GateConfig, row: nat)
    ensures Eval(SubIdentity(cfg.a, cfg.b), L, row)
            == Add(Field.Sub(Value(L, Cell(cfg.a, row)), Value(L, Cell(cfg.b, row))), Neg(Value(L, Cell(cfg.a, row + 1))))
  {
    SubIsAddNeg(Value(L, Cell(cfg.a, row)), Value(L, Cell(cfg.b, row)));
    assert Eval(AdviceQuery(cfg.a, 0), L, row) == Value(L, Cell(cfg.a, row));
    assert Eval(AdviceQuery(cfg.b, 0), L, row) == Value(L, Cell(cfg.b, row));
    assert Eval(AdviceQuery(cfg.a, 1), L, row) == Value(L, Cell(cfg.a, row + 1));
    assert Eval(Sum(AdviceQuery(cfg.a, 0), Negated(AdviceQuery(cfg.b, 0))), L, row)
        == Field.Sub(Value(L, Cell(cfg.a, row)), Value(L, Cell(cfg.b, row)));
  }

  /** In any table whose gates all vanish, every row the selector is on
      carries a correct difference. */
  lemma GateSound(L: Layouter, cfg: GateConfig, row: nat)
    requires GatesHold(L) && IsSubConfig(L.cs, cfg)
    requires (cfg.sel, row) in L.enabled
    ensures Value(L, Cell(cfg.a, row + 1)) == Field.Sub(Value(L, Cell(cfg.a, row)), Value(L, Cell(cfg.b, row)))
  {
    var i :| 0 <= i < |L.cs.gates| && L.cs.gates[i] == Gate("sub", GatePoly(cfg.sel, SubIdentity(cfg.a, cfg.b)));
    assert Eval(L.cs.gates[i].poly, L, row) == 0;
    GateSemantics(L, cfg, row);
  }

  /** Subtracts `y` from `x` in a fresh two-row region: selector on at
      offset 0 only, `x` copied into (a, 0) and `y` into (b, 0), each tied to
      its original cell, and `x - y` (wrapping around the modulus when `y` is
      the larger) written to (a, 1), which the result is bound to. Nothing
      already assigned changes. Any failing step aborts. */
  function Sub(cfg: GateConfig, L: Layouter, x: Number, y: Number): (r: Result<(Layouter, Number)>)
    ensures r.Ok? <==> CanFill(L, cfg, x, y)
    ensures r.Ok? ==>
              var (L', n) := r.value;
              var s := L.nextRow;
              && n.value == (if y.value <= x.value then x.value - y.value else x.value - y.value + P)
              && n.cell == Cell(cfg.a, s + 1)
              && Holds(L', n)
              && L'.enabled == L.enabled + {(cfg.sel, s)}
              && Value(L', Cell(cfg.a, s)) == x.value
              && Value(L', Cell(cfg.b, s)) == y.value
              && L'.copies == L.copies + {Copy(Cell(cfg.a, s), x.cell), Copy(Cell(cfg.b, s), y.cell)}
              && L'.advice.Keys == L.advice.Keys + {Cell(cfg.a, s), Cell(cfg.b, s), Cell(cfg.a, s + 1)}
              && (forall c | c in L.advice :: L'.advice[c] == L.advice[c])
              && L'.nextRow == s + 2
              && L'.cs == L.cs && L'.usableRows == L.usableRows
  {
    Fill(L, "sub", cfg, x, y, Field.Sub(x.value, y.value))
  }

  /** Completeness: the witness `Sub` writes satisfies the subtraction
      gate, so the invariant (every gate and every copy satisfied) survives,
      and the result is a fresh cell holding its value. */
  lemma SubKeepsValid(cfg: GateConfig, L: Layouter, x: Number, y: Number)
    requires Valid(L) && IsSubConfig(L.cs, cfg)
    requires Holds(L, x) && Holds(L, y)
    ensures var r := Sub(cfg, L, x, y);
            r.Ok? ==> && Valid(r.value.0) && Extends(L, r.value.0)
                      && Holds(r.value.0, r.value.1) && r.value.1.cell !in L.advice
  {
    if CanFill(L, cfg, x, y) {
      var out := Field.Sub(x.value, y.value);
      var L' := Filled(L, cfg, x, y, out);
      var s := L.nextRow;
      var k :| 0 <= k < |L.cs.gates| && L.cs.gates[k] == Gate("sub", GatePoly(cfg.sel, SubIdentity(cfg.a, cfg.b)));
      forall i | 0 <= i < |L.cs.gates| && Guard(L.cs.gates[i]) == cfg.sel
        ensures Eval(L.cs.gates[i].poly.right, L', s) == 0
      {
        assert i == k;
        assert Value(L', Cell(cfg.a, s)) == x.value;
        assert Value(L', Cell(cfg.b, s)) == y.value;
        assert Value(L', Cell(cfg.a, s + 1)) == out;
        BodyValue(L', cfg, s);
        AddNegZeroIff(out, out);
      }
      FillKeepsValid(L, cfg, x, y, out);
    }
  }

  /** Operand order matters: swapping the operands negates the result. */
  lemma OperandOrder(cfg: GateConfig, L1: Layouter, L2: Layouter, x: Number, y: Number)
    requires Sub(cfg, L1, x, y).Ok? && Sub(cfg, L2, y, x).Ok?
    ensures Sub(cfg, L1, x, y).value.1.value == Neg(Sub(cfg, L2, y, x).value.1.value)
  {
    SubAntisymmetric(x.value, y.value);
  }
}
