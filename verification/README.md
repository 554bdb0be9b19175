# Arithmetic chips of a halo2 calculator circuit, in Dafny

This project models the arithmetic chip layer of a halo2 (PLONKish) calculator
circuit and proves properties of the model. It covers three Rust files:
`src/chips/arithmetic.rs`, `src/chips/mul.rs` and `src/chips/sub.rs`.

- **The chips.** The multiplication chip and the subtraction chip each fix one
  local polynomial identity over two shared advice columns `a` and `b`:
  - `sel_mul * (lhs * rhs - out)`;
  - `sel_sub * (lhs - rhs - out)`.

  Here `lhs` and `rhs` are read from `a` and `b` at the current row, and `out`
  from `a` at the next row. Each chip's witness routine fills a fresh two-row
  region:
  - it turns the selector on at offset 0;
  - it copies the operands into `(a, 0)` and `(b, 0)`, with a copy constraint
    back to each operand's cell;
  - it writes the result into `(a, 1)`.
- **The composition layer** (`ArithmeticChip`):
  - configures both chips on the same columns;
  - enables equality on an instance column;
  - loads private values into one-row regions;
  - delegates `mul` and `sub` to the chips under the stored configuration;
  - exposes a number publicly through a copy constraint into the instance
    column.

halo2 itself is modelled as a small abstract machine. Its parts are:

- **Field** (module `Field`): the elements are the integers modulo a prime `P`
  that is left abstract.
- **Constraint system** (module `Circuit`):
  - a set of columns with equality enabled;
  - a selector counter;
  - the registered gates, as real expression trees built from selector
    queries, advice queries at a rotation, negation, sum and product.
- **Synthesis state** (module `Layout`):
  - the assigned advice cells;
  - the enabled `(selector, row)` pairs;
  - the copy constraints;
  - a next-free-row counter that plays the floor planner, so every region is
    fresh and disjoint from the others.
- **Region primitives** (enable a selector, assign advice, copy advice,
  constrain equality, constrain instance) fail as follows in this model:
  - `NotEnoughRowsAvailable` when a row is at or past the usable rows;
  - `CellAlreadyAssigned` when a cell is written twice (halo2 has no such
    error; see "Left out");
  - `ColumnNotInPermutation` when a copy touches a column without equality.

  Every failure aborts the operation; no `Number` is returned.
- **Satisfaction:** a completed table satisfies the circuit when two things
  hold:
  - every gate polynomial vanishes on every row;
  - both sides of every copy constraint carry the same value.

  An instance cell's value comes from the public inputs.

Module `BinaryGate` holds what the two chips share: configuration and the
region fill. The two chips differ only in the gate body and in the value
written to the result cell. Module `Client` issues sequences of layer calls,
the way a circuit's `synthesize` would. It also lays out arithmetic
expressions and runs concrete scenarios.

The central results are these:

- **`Client.SynthesisSound`.** Configure the layer on any well-formed
  constraint system and issue any call sequence from an empty table. If the
  run succeeds, the final table has these properties:
  - every gate vanishes on every row;
  - every copy between advice cells holds;
  - every copy constraint joins equality-enabled columns of the layer;
  - public inputs complete the table exactly when they carry the exposed
    values.
- **`Client.Synthesize`.** Laying out an arithmetic expression leaves the
  plain field value of that expression in the result cell.
- **Per-chip properties:** gate semantics, completeness of the witness,
  frame, error conditions, and operand order for subtraction.

## Model

| member | source | states |
|---|---|---|
| MulChip.Configure | src/chips/mul.rs:61-98 | equality is enabled on exactly `a` and `b` in addition to what was enabled before; the returned config holds the same columns and a selector no earlier gate uses; the `mul` gate is registered under it; earlier gates are untouched and well-formedness is kept |
| MulChip.GateSemantics | src/chips/mul.rs:80-92 | where `sel_mul` is off the gate polynomial is 0 whatever the cells hold; where it is on, the polynomial vanishes if and only if `a[r+1] = a[r] * b[r] mod P` |
| MulChip.GateSound | src/chips/mul.rs:92 | in every table whose gates all vanish, each row with `sel_mul` on carries a correct product |
| MulChip.Mul | src/chips/mul.rs:125-163 | succeeds exactly when the region's rows exist, `a` and `b` differ, the three cells are free, and all four columns involved have equality; on success the result is `x * y mod P` in cell `(a, s+1)`; the selector is on at offset 0 only; `(a, s)` and `(b, s)` hold the operands and are copy-constrained to the operands' cells; exactly three cells are added and earlier cells are unchanged |
| MulChip.MulKeepsValid | src/chips/mul.rs:142-158 | completeness: the witness written by `mul` satisfies the `mul` gate, so all gates and all copies still hold, and the result is a fresh cell holding its value |
| SubChip.Configure | src/chips/sub.rs:61-98 | as for multiplication, with the `sub` gate registered under a fresh selector |
| SubChip.GateSemantics | src/chips/sub.rs:80-92 | where `sel_sub` is off the gate polynomial is 0; where it is on, the polynomial vanishes if and only if `a[r+1] = a[r] - b[r] mod P` |
| SubChip.GateSound | src/chips/sub.rs:92 | in every table whose gates all vanish, each row with `sel_sub` on carries a correct difference |
| SubChip.Sub | src/chips/sub.rs:125-163 | as for multiplication; the result is `x - y` when `y <= x` and `x - y + P` otherwise |
| SubChip.SubKeepsValid | src/chips/sub.rs:142-158 | completeness: the witness written by `sub` satisfies the `sub` gate; the invariant survives and the result is a fresh cell |
| SubChip.OperandOrder | src/chips/sub.rs:153 | swapping the operands negates the result: `sub(x, y) = -sub(y, x) mod P` |
| BinaryGate.Configure | src/chips/mul.rs:66-97 | the shared configure step: exactly one new selector, one new gate `selector * body` appended, equality added on `a` and `b`; well-formedness is kept when the body only reads advice cells at rotations 0 and 1 |
| BinaryGate.FillFailsOnlyFor | src/chips/mul.rs:142-158 | on a table that keeps the invariant, a fill fails only for lack of rows, for `a = b`, or for a column without equality; a fresh region never collides with assigned cells |
| Arithmetic.Configure | src/chips/arithmetic.rs:86-111 | both chips are configured on the same `a` and `b`, and the config stores those columns; equality ends up on exactly `a`, `b` and `instance` in addition to what was enabled before; the two selectors differ; two gates are appended and well-formedness is kept |
| Arithmetic.LoadPrivate | src/chips/arithmetic.rs:138-157 | succeeds exactly when the next row exists and is free; writes exactly the cell `(a, s)` with the value; enables no selector and adds no copy; returns a `Number` bound to that cell |
| Arithmetic.LoadPrivateKeepsValid | src/chips/arithmetic.rs:147-155 | on a table that keeps the invariant, a load fails only for lack of rows; on success the invariant survives and the cell is fresh |
| Arithmetic.ExposePublic | src/chips/arithmetic.rs:160-172 | assigns no cell and opens no region; succeeds exactly when both rows exist and both columns have equality; adds exactly the copy from `num`'s cell to `instance[row]` |
| Arithmetic.ExposePublicKeepsValid | src/chips/arithmetic.rs:169-171 | for a configured chip and a number in column `a`, exposure fails exactly when `row` lies past the table; after exposure, every satisfying completion of the table has `instance[row]` equal to `num`'s value |
| Arithmetic.Mul | src/chips/arithmetic.rs:204-218 | delegation under `mul_config`: succeeds exactly when the multiplication chip's fill can succeed; the result is the product, in column `a` of the next region's second row |
| Arithmetic.Sub | src/chips/arithmetic.rs:227-241 | delegation under `sub_config`: succeeds exactly when the subtraction chip's fill can succeed; the result is the difference, in column `a` of the next region's second row |
| Arithmetic.MulKeepsValid | src/chips/arithmetic.rs:204-218 | on a configured table that keeps the invariant, `mul` fails exactly for lack of rows, `a = b`, or an operand in a column without equality; on success the invariant survives and the result cell is fresh |
| Arithmetic.SubKeepsValid | src/chips/arithmetic.rs:227-241 | the same for `sub` |
| Arithmetic.RepeatedMulDistinctCells | src/chips/mul.rs:135-162 | two `mul` calls on the same operands give two distinct result cells holding the same value, because each call allocates its own region |
| Layout.SatisfiedIffMatchesExposed | src/chips/arithmetic.rs:169-171 | on a table that keeps the invariant, a set of public inputs completes the table exactly when each instance cell reached by a copy holds the value of that copy's advice cell |
| Client.RunKeepsInvariant | src/chips/arithmetic.rs:138-241 | every table reached by a run of layer calls keeps the invariant: all gates and advice copies hold, copies stay in the layer's columns, and every number produced so far is still held by its cell |
| Client.SynthesisSound | src/chips/arithmetic.rs:86-241 | configure on any well-formed constraint system, then run any call sequence: every gate vanishes on every row, every advice copy holds, every copy joins equality-enabled columns among `a`, `b` and `instance`, and satisfaction reduces to the exposed values |
| Client.Synthesize | src/chips/arithmetic.rs:198-241 | laying out an expression of loads, products and differences leaves the expression's plain field value in the result cell |
| Client.SynthesizeKeepsInvariant | src/chips/arithmetic.rs:198-241 | laying out an expression keeps the invariant, extends the table, and leaves the result in column `a` |
| Client.Scenario | src/chips/arithmetic.rs:138-241 | in a seven-row table, the run "load 3, load 4, multiply, load 2, subtract, expose on row 0" succeeds; the last number holds 10; the table is satisfied exactly by public inputs that put 10 on instance row 0 |
| Client.BoundaryScenario | src/chips/sub.rs:152-158 | at the modulus boundary, `0 - 1` gives `P - 1` and `(P - 1) * (P - 1)` gives `1`: values wrap in the field, not in a machine word |

## Left out

- The add chip: `add.rs` is not part of this model, so its gate identity and region fill are unknown. `ArithmeticConfig` has no `add_config`, and the layer offers no `add`.
- Arithmetic.Configure: configures only the subtraction and the multiplication chip. The code also configures the add chip first, so it registers three gates, not two.
- halo2's proving and verification, polynomial commitments, the mock prover and the real floor planner are library code. The layouter is modelled only as an allocator of consecutive, disjoint regions. A region's height is the highest offset it uses plus one.
- `Value::unknown()` during key generation: only known values are modelled.
- The concrete `FieldExt`: the characteristic `P` is an abstract prime.
- `PhantomData` markers, the `config()`/`loaded()` accessors, and the name and annotation closures are debug labels or plumbing with no behaviour.
- `Arithmetic.Construct` only wraps the configuration, so it has no contract. Every operation takes the chip by value and returns no chip, so the configuration set at construction is the one every later call sees.
- Errors: halo2 reports synthesis failures through its one `Error` type. The model keeps the two variants the layer can meet, `NotEnoughRowsAvailable` and `ColumnNotInPermutation`, and adds `CellAlreadyAssigned`. Where one step could fail for two reasons, which error is reported is a modelling choice; only success or failure is claimed.
- `CellAlreadyAssigned`: writing an already-assigned cell is an error in this model; halo2's layouters overwrite the cell instead. With fresh regions this matters only when a chip is configured with `a = b`: then the second copy in mul.rs:146-150 (sub.rs:146-150) writes `(b, 0)`, which is `(a, 0)`, and halo2 would still synthesise the region. The model's failure in that case is its own choice, not the program's. The members affected are named on the next lines.
- MulChip.Mul: fails when `a = b` (through `BinaryGate.CanFill`); halo2 would overwrite `(a, 0)` with `y` and go on.
- SubChip.Sub: fails when `a = b`, as for `MulChip.Mul`.
- BinaryGate.FillFailsOnlyFor: lists `a = b` as a failure cause; in halo2 it is not one.
- Arithmetic.MulKeepsValid: lists `a = b` as a failure cause; in halo2 it is not one.
- Arithmetic.SubKeepsValid: lists `a = b` as a failure cause; in halo2 it is not one.
- Arithmetic.Mul and Arithmetic.Sub: inherit the `a = b` failure from the chips.
