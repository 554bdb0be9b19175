/**
  What the multiplication and the subtraction chip have in common.

  Both configure the same way (equality on the two advice columns, one fresh
  selector, one gate `selector * body`) and both fill a two-row region the
  same way: selector on at offset 0, left operand copied to column a at
  offset 0, right operand copied to column b at offset 0, result assigned to
  column a at offset 1. They differ only in the gate body and in the value
  written to the result cell, which the chips pass in.
 */
module BinaryGate {
  import opened Field
  import opened Circuit
  import opened Layout

  /** The two shared advice columns and the chip's own selector
      (`MulConfig` / `SubConfig`). */
  datatype GateConfig = GateConfig(a: AdviceCol, b: AdviceCol, sel: Selector)

  /** The registered polynomial: the body, switched by the selector. */
  function GatePoly(sel: Selector, body: Expression): Expression {
    Product(SelectorQuery(sel), body)
  }

  function Configure(cs: ConstraintSystem, name: string, a: AdviceCol, b: AdviceCol, body: Expression)
    : (r: (ConstraintSystem, GateConfig))
    ensures r.1 == GateConfig(a, b, Selector(cs.numSelectors))
    ensures r.0.equality == cs.equality + {a, b}
    ensures r.0.numSelectors == cs.numSelectors + 1
    ensures r.0.gates == cs.gates + [Gate(name, GatePoly(r.1.sel, body))]
    ensures WellFormed(cs) && Local(body) ==> WellFormed(r.0)
  {
    var cs1 := EnableEquality(cs, a);
    var cs2 := EnableEquality(cs1, b);
    var (cs3, sel) := NewSelector(cs2);
    var cs4 := CreateGate(cs3, name, GatePoly(sel, body));
    EnableEqualityKeepsWellFormed(cs, a);
    EnableEqualityKeepsWellFormed(cs1, b);
    FreshGateKeepsWellFormed(cs2, name, body);
    (cs4, GateConfig(a, b, sel))
  }

  /** Exactly the situations in which every step of `Fill` succeeds. */
  predicate CanFill(L: Layouter, cfg: GateConfig, x: Number, y: Number) {
    var s := L.nextRow;
    && s + 1 < L.usableRows
    && cfg.a != cfg.b
    && Cell(cfg.a, s) !in L.advice
    && Cell(cfg.b, s) !in L.advice
    && Cell(cfg.a, s + 1) !in L.advice
    && x.cell.row < L.usableRows
    && y.cell.row < L.usableRows
    && cfg.a in L.cs.equality
    && cfg.b in L.cs.equality
    && x.cell.column in L.cs.equality
    && y.cell.column in L.cs.equality
  }

  /** The state after a successful fill of the region starting at the next
      free row. */
  function Filled(L: Layouter, cfg: GateConfig, x: Number, y: Number, out: Fe): Layouter {
    var s := L.nextRow;
    L.(advice := L.advice[Cell(cfg.a, s) := x.value][Cell(cfg.b, s) := y.value][Cell(cfg.a, s + 1) := out],
       enabled := L.enabled + {(cfg.sel, s)},
       copies := L.copies + {Copy(Cell(cfg.a, s), x.cell), Copy(Cell(cfg.b, s), y.cell)},
       nextRow := s + 2)
  }

  /** The region fill shared by both chips; any failing step aborts. */
  function Fill(L: Layouter, name: string, cfg: GateConfig, x: Number, y: Number, out: Fe)
    : (r: Result<(Layouter, Number)>)
    ensures r.Ok? <==> CanFill(L, cfg, x, y)
    ensures r.Ok? ==> r.value == (Filled(L, cfg, x, y, out), Number(Cell(cfg.a, L.nextRow + 1), out))
  {
    var region := OpenRegion(L, name);
    var L1 :- EnableSelector(L, region, cfg.sel, 0);
    var (L2, _) :- CopyAdvice(L1, region, x, cfg.a, 0);
    var (L3, _) :- CopyAdvice(L2, region, y, cfg.b, 0);
    var (L4, n) :- AssignAdvice(L3, region, cfg.a, 1, out);
    var s := L.nextRow;
    assert L4.copies == L.copies + {Copy(Cell(cfg.a, s), x.cell), Copy(Cell(cfg.b, s), y.cell)};
    Ok((CloseRegion(L4, region, 2), n))
  }

  /** A fill keeps the invariant once the gates its selector switches on
      vanish at the region's first row. The new result cell was free before. */
  lemma FillKeepsValid(L: Layouter, cfg: GateConfig, x: Number, y: Number, out: Fe)
    requires Valid(L) && Holds(L, x) && Holds(L, y)
    requires CanFill(L, cfg, x, y)
    requires forall i | 0 <= i < |L.cs.gates| && Guard(L.cs.gates[i]) == cfg.sel ::
               Eval(L.cs.gates[i].poly.right, Filled(L, cfg, x, y, out), L.nextRow) == 0
    ensures var L' := Filled(L, cfg, x, y, out);
            Valid(L') && Extends(L, L') && Holds(L', Number(Cell(cfg.a, L.nextRow + 1), out))
    ensures Cell(cfg.a, L.nextRow + 1) !in L.advice
  {
    var L' := Filled(L, cfg, x, y, out);
    ValidAfterRegion(L, L');
  }

  /** Under the invariant, a fill fails only for a configuration problem
      (shared columns, equality not enabled) or when the table runs out of
      rows; assigned cells never collide. */
  lemma FillFailsOnlyFor(L: Layouter, cfg: GateConfig, x: Number, y: Number)
    requires Valid(L) && Holds(L, x) && Holds(L, y)
    ensures CanFill(L, cfg, x, y) <==>
              && L.nextRow + 1 < L.usableRows
              && cfg.a != cfg.b
              && {cfg.a, cfg.b, x.cell.column, y.cell.column} <= L.cs.equality
  {
    if L.nextRow + 1 < L.usableRows {
      assert x.cell in L.advice && y.cell in L.advice;
    }
  }
}
