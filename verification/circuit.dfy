/**
  The configuration-time half of the PLONKish backend: columns, cells,
  selectors, gate polynomials and the constraint system that records them.

  Gate polynomials are kept as expression trees in the backend's own
  vocabulary (selector and advice queries, negation, sum, product), so that a
  chip's gate is stated exactly as it builds it, and evaluated row by row
  against a table of values in module Layout.
 */
module Circuit {
  import opened Field

  /** A column handle: private advice storage or public instance storage. */
  datatype Column = AdviceColumn(index: nat) | InstanceColumn(index: nat)

  type AdviceCol = c: Column | c.AdviceColumn? witness AdviceColumn(0)

  type InstanceCol = c: Column | c.InstanceColumn? witness InstanceColumn(0)

  /** An absolute (column, row) coordinate of the table. */
  datatype Cell = Cell(column: Column, row: nat)

  /** A simple selector: one boolean per row, named by its allocation index. */
  datatype Selector = Selector(index: nat)

  /** A gate polynomial. `AdviceQuery(c, k)` reads column `c` at the current
      row plus `k` (0 is the current rotation, 1 the next). */
  datatype Expression =
    | SelectorQuery(selector: Selector)
    | AdviceQuery(column: Column, rotation: nat)
    | Negated(operand: Expression)
    | Sum(left: Expression, right: Expression)
    | Product(left: Expression, right: Expression)

  /** A named custom gate; each chip's gate contributes one polynomial. */
  datatype Gate = Gate(name: string, poly: Expression)

  datatype ConstraintSystem = ConstraintSystem(
    equality: set<Column>,
    numSelectors: nat,
    gates: seq<Gate>)

  /** A constraint system nothing has been configured on yet. */
  const Empty := ConstraintSystem({}, 0, [])

  /** Adds `c` to the columns that may take part in copy constraints. */
  function EnableEquality(cs: ConstraintSystem, c: Column): (r: ConstraintSystem)
    ensures r.equality == cs.equality + {c}
    ensures r.numSelectors == cs.numSelectors && r.gates == cs.gates
  {
    cs.(equality := cs.equality + {c})
  }

  /** Allocates a selector no earlier call has handed out. */
  function NewSelector(cs: ConstraintSystem): (r: (ConstraintSystem, Selector))
    ensures r.1.index == cs.numSelectors < r.0.numSelectors
    ensures r.0.equality == cs.equality && r.0.gates == cs.gates
  {
    (cs.(numSelectors := cs.numSelectors + 1), Selector(cs.numSelectors))
  }

  /** Registers a gate polynomial. */
  function CreateGate(cs: ConstraintSystem, name: string, poly: Expression): (r: ConstraintSystem)
    ensures r.gates == cs.gates + [Gate(name, poly)]
    ensures r.equality == cs.equality && r.numSelectors == cs.numSelectors
  {
    cs.(gates := cs.gates + [Gate(name, poly)])
  }

  /** A polynomial body that reads only advice columns at the current and the
      next row, and no selector. */
  predicate Local(e: Expression) {
    match e
    case SelectorQuery(_) => false
    case AdviceQuery(c, k) => c.AdviceColumn? && k <= 1
    case Negated(x) => Local(x)
    case Sum(x, y) => Local(x) && Local(y)
    case Product(x, y) => Local(x) && Local(y)
  }

  /** A polynomial of the shape `selector * body` with a local body. */
  predicate Guarded(e: Expression) {
    e.Product? && e.left.SelectorQuery? && Local(e.right)
  }

  /** The selector that switches gate `g` on. */
  function Guard(g: Gate): Selector
    requires Guarded(g.poly)
  {
    g.poly.left.selector
  }

  /** Every gate is guarded by an allocated selector, and no selector guards
      two gates. Both chips' `configure` keep this. */
  predicate WellFormed(cs: ConstraintSystem) {
    && (forall i :: 0 <= i < |cs.gates| ==>
          Guarded(cs.gates[i].poly) && Guard(cs.gates[i]).index < cs.numSelectors)
    && (forall i, j :: 0 <= i < j < |cs.gates| ==> Guard(cs.gates[i]) != Guard(cs.gates[j]))
  }

  /** Equality enabling never disturbs well-formedness. */
  lemma EnableEqualityKeepsWellFormed(cs: ConstraintSystem, c: Column)
    ensures WellFormed(cs) ==> WellFormed(EnableEquality(cs, c))
  {
  }

  /** A gate guarded by a freshly allocated selector keeps the system
      well-formed. */
  lemma FreshGateKeepsWellFormed(cs: ConstraintSystem, name: string, body: Expression)
    ensures var (cs1, sel) := NewSelector(cs);
            WellFormed(cs) && Local(body) ==> WellFormed(CreateGate(cs1, name, Product(SelectorQuery(sel), body)))
  {
    var (cs1, sel) := NewSelector(cs);
    var cs2 := CreateGate(cs1, name, Product(SelectorQuery(sel), body));
    if WellFormed(cs) && Local(body) {
      forall i, j | 0 <= i < j < |cs2.gates|
        ensures Guard(cs2.gates[i]) != Guard(cs2.gates[j])
      {
        if j == |cs.gates| {
          assert Guard(cs2.gates[i]) == Guard(cs.gates[i]);
          assert Guard(cs.gates[i]).index < cs.numSelectors;
        }
      }
    }
  }
}
