/**
  How circuit code drives the composition layer, and what that guarantees.

  A synthesis run is a sequence of calls issued against one configured chip:
  load a private value, multiply or subtract two earlier results, expose an
  earlier result on an instance row. Operands are named by their position in
  the list of results produced so far, so every operand is a number the run
  itself produced. The theorems below say that every table such a run
  produces satisfies every enabled gate and every advice copy constraint,
  that its copy constraints only touch the layer's equality-enabled columns,
  that a public-input assignment completes it exactly when it carries the
  exposed values, and that results equal the plain field expression.
 */
module Client {
  import opened Field
  import opened Circuit
  import opened Layout
  import opened BinaryGate
  import opened Arithmetic
  import MulChip
  import SubChip

  datatype Call =
    | Load(value: Fe)
    | MulOf(lhs: nat, rhs: nat)
    | SubOf(lhs: nat, rhs: nat)
    | Expose(num: nat, row: nat)

  /** The call's operand indices name numbers among the `n` produced so far. */
  predicate InScope(call: Call, n: nat) {
    match call
    case Load(_) => true
    case MulOf(i, j) => i < n && j < n
    case SubOf(i, j) => i < n && j < n
    case Expose(i, _) => i < n
  }

  /** How many numbers a call produces. */
  function Yield(call: Call): nat {
    if call.Expose? then 0 else 1
  }

  /** Every call is in scope, when `n` numbers exist at the start. */
  predicate Scoped(calls: seq<Call>, n: nat)
    decreases |calls|
  {
    |calls| == 0 || (InScope(calls[0], n) && Scoped(calls[1..], n + Yield(calls[0])))
  }

  /** How many numbers a call sequence produces. */
  function Produced(calls: seq<Call>): nat
    decreases |calls|
  {
    if |calls| == 0 then 0 else Yield(calls[0]) + Produced(calls[1..])
  }

  /** Issues one call; a number it produces is appended to `nums`. */
  function Step(chip: ArithmeticChip, L: Layouter, call: Call, nums: seq<Number>)
    : (r: Result<(Layouter, seq<Number>)>)
    requires InScope(call, |nums|)
    ensures r.Ok? ==> |r.value.1| == |nums| + Yield(call) && r.value.1[..|nums|] == nums
  {
    match call
    case Load(v) =>
      var (L1, n) :- LoadPrivate(chip, L, v);
      Ok((L1, nums + [n]))
    case MulOf(i, j) =>
      var (L1, n) :- Arithmetic.Mul(chip, L, nums[i], nums[j]);
      Ok((L1, nums + [n]))
    case SubOf(i, j) =>
      var (L1, n) :- Arithmetic.Sub(chip, L, nums[i], nums[j]);
      Ok((L1, nums + [n]))
    case Expose(i, row) =>
      var L1 :- ExposePublic(chip, L, nums[i], row);
      Ok((L1, nums))
  }

  /** Issues the calls in order; the first failing call aborts the run. The
      numbers produced are appended, never replaced. */
  function Run(chip: ArithmeticChip, L: Layouter, calls: seq<Call>, nums: seq<Number>)
    : (r: Result<(Layouter, seq<Number>)>)
    requires Scoped(calls, |nums|)
    ensures r.Ok? ==> |r.value.1| == |nums| + Produced(calls) && r.value.1[..|nums|] == nums
    decreases |calls|
  {
    if |calls| == 0 then Ok((L, nums))
    else
      var (L1, nums1) :- Step(chip, L, calls[0], nums);
      Run(chip, L1, calls[1..], nums1)
  }

  /** The layer's footprint: advice cells only in columns a and b, copy
      constraints only from a or b into a, b or the instance column. */
  predicate InLayerColumns(L: Layouter, cfg: ArithmeticConfig) {
    && (forall c | c in L.advice :: c.column == cfg.a || c.column == cfg.b)
    && (forall cp | cp in L.copies ::
          (cp.left.column == cfg.a || cp.left.column == cfg.b)
          && (cp.right.column == cfg.a || cp.right.column == cfg.b || cp.right.column == cfg.instance))
  }

  /** What a run keeps between calls. */
  ghost predicate RunInvariant(chip: ArithmeticChip, L: Layouter, nums: seq<Number>) {
    && Valid(L)
    && Configured(L.cs, chip.config)
    && InLayerColumns(L, chip.config)
    && forall i :: 0 <= i < |nums| ==> Holds(L, nums[i]) && nums[i].cell.column == chip.config.a
  }

  lemma RunInvariantExtends(chip: ArithmeticChip, L: Layouter, L': Layouter, nums: seq<Number>, n: Number)
    requires RunInvariant(chip, L, nums)
    requires Valid(L') && Extends(L, L') && InLayerColumns(L', chip.config)
    requires Holds(L', n) && n.cell.column == chip.config.a
    ensures RunInvariant(chip, L', nums + [n])
  {
    forall i | 0 <= i < |nums|
      ensures Holds(L', nums[i])
    {
      ExtendsKeepsHolds(L, L', nums[i]);
    }
  }

  lemma LoadKeepsRunInvariant(chip: ArithmeticChip, L: Layouter, v: Fe, nums: seq<Number>)
    requires RunInvariant(chip, L, nums)
    ensures var r := LoadPrivate(chip, L, v);
            r.Ok? ==> RunInvariant(chip, r.value.0, nums + [r.value.1]) && Extends(L, r.value.0)
  {
    LoadPrivateKeepsValid(chip, L, v);
    var r := LoadPrivate(chip, L, v);
    if r.Ok? {
      RunInvariantExtends(chip, L, r.value.0, nums, r.value.1);
    }
  }

  /** A successful fill over the layer's columns stays inside them. */
  lemma FilledInLayerColumns(L: Layouter, cfg: ArithmeticConfig, g: GateConfig, x: Number, y: Number, out: Fe)
    requires InLayerColumns(L, cfg)
    requires g.a == cfg.a && g.b == cfg.b
    requires x.cell.column == cfg.a && y.cell.column == cfg.a
    ensures InLayerColumns(Filled(L, g, x, y, out), cfg)
  {
  }

  lemma MulKeepsRunInvariant(chip: ArithmeticChip, L: Layouter, x: Number, y: Number, nums: seq<Number>)
    requires RunInvariant(chip, L, nums)
    requires Holds(L, x) && Holds(L, y)
    requires x.cell.column == chip.config.a && y.cell.column == chip.config.a
    ensures var r := Arithmetic.Mul(chip, L, x, y);
            r.Ok? ==> RunInvariant(chip, r.value.0, nums + [r.value.1]) && Extends(L, r.value.0)
  {
    Arithmetic.MulKeepsValid(chip, L, x, y);
    var g := chip.config.mulConfig;
    var r := Fill(L, "mul", g, x, y, Field.Mul(x.value, y.value));
    assert r == Arithmetic.Mul(chip, L, x, y);
    if r.Ok? {
      FilledInLayerColumns(L, chip.config, g, x, y, Field.Mul(x.value, y.value));
      RunInvariantExtends(chip, L, r.value.0, nums, r.value.1);
    }
  }

  lemma SubKeepsRunInvariant(chip: ArithmeticChip, L: Layouter, x: Number, y: Number, nums: seq<Number>)
    requires RunInvariant(chip, L, nums)
    requires Holds(L, x) && Holds(L, y)
    requires x.cell.column == chip.config.a && y.cell.column == chip.config.a
    ensures var r := Arithmetic.Sub(chip, L, x, y);
            r.Ok? ==> RunInvariant(chip, r.value.0, nums + [r.value.1]) && Extends(L, r.value.0)
  {
    Arithmetic.SubKeepsValid(chip, L, x, y);
    var g := chip.config.subConfig;
    var r := Fill(L, "sub", g, x, y, Field.Sub(x.value, y.value));
    assert r == Arithmetic.Sub(chip, L, x, y);
    if r.Ok? {
      FilledInLayerColumns(L, chip.config, g, x, y, Field.Sub(x.value, y.value));
      RunInvariantExtends(chip, L, r.value.0, nums, r.value.1);
    }
  }

  lemma ExposeKeepsRunInvariant(chip: ArithmeticChip, L: Layouter, num: Number, row: nat, nums: seq<Number>)
    requires RunInvariant(chip, L, nums)
    requires Holds(L, num) && num.cell.column == chip.config.a
    ensures var r := ExposePublic(chip, L, num, row);
            r.Ok? ==> RunInvariant(chip, r.value, nums) && Extends(L, r.value)
  {
    ExposePublicKeepsValid(chip, L, num, row);
    var r := ExposePublic(chip, L, num, row);
    if r.Ok? {
      forall k | 0 <= k < |nums|
        ensures Holds(r.value, nums[k])
      {
        ExtendsKeepsHolds(L, r.value, nums[k]);
      }
    }
  }

  /** One call keeps the run invariant. */
  lemma StepKeepsInvariant(chip: ArithmeticChip, L: Layouter, call: Call, nums: seq<Number>)
    requires RunInvariant(chip, L, nums)
    requires InScope(call, |nums|)
    ensures var r := Step(chip, L, call, nums);
            r.Ok? ==> RunInvariant(chip, r.value.0, r.value.1) && Extends(L, r.value.0)
  {
    match call
    case Load(v) =>
      LoadKeepsRunInvariant(chip, L, v, nums);
    case MulOf(i, j) =>
      MulKeepsRunInvariant(chip, L, nums[i], nums[j], nums);
    case SubOf(i, j) =>
      SubKeepsRunInvariant(chip, L, nums[i], nums[j], nums);
    case Expose(i, row) =>
      ExposeKeepsRunInvariant(chip, L, nums[i], row, nums);
  }

  /** Every table a run produces keeps the invariant: all enabled gates and
      all advice copies satisfied, all copies between equality-enabled
      columns of the layer, every produced number still held by its cell. */
  lemma {:induction false} RunKeepsInvariant(chip: ArithmeticChip, L: Layouter, calls: seq<Call>, nums: seq<Number>)
    requires RunInvariant(chip, L, nums)
    requires Scoped(calls, |nums|)
    ensures var r := Run(chip, L, calls, nums);
            r.Ok? ==> RunInvariant(chip, r.value.0, r.value.1) && Extends(L, r.value.0)
    decreases |calls|
  {
    if |calls| > 0 {
      StepKeepsInvariant(chip, L, calls[0], nums);
      var r := Step(chip, L, calls[0], nums);
      if r.Ok? {
        var (L1, nums1) := r.value;
        RunKeepsInvariant(chip, L1, calls[1..], nums1);
        var r2 := Run(chip, L1, calls[1..], nums1);
        if r2.Ok? {
          ExtendsTransitive(L, L1, r2.value.0);
        }
      }
    }
  }

  /** The main theorem. Configure the layer on any well-formed constraint
      system, start from an empty table, and issue any call sequence: if the
      run succeeds, every gate vanishes on every row, every copy between
      advice cells holds, every copy constraint joins equality-enabled columns
      of the layer, and public inputs complete the table exactly when they
      carry the exposed values. */
  lemma SynthesisSound(cs: ConstraintSystem, a: AdviceCol, b: AdviceCol, instance: InstanceCol,
                       usableRows: nat, calls: seq<Call>)
    requires WellFormed(cs)
    requires Scoped(calls, 0)
    ensures var (cs', cfg) := Arithmetic.Configure(cs, a, b, instance);
            var r := Run(Construct(cfg), Start(cs', usableRows), calls, []);
            r.Ok? ==>
              var L := r.value.0;
              && GatesHold(L)
              && AdviceCopiesHold(L)
              && (forall cp | cp in L.copies ::
                    && cp.left.column in L.cs.equality && cp.right.column in L.cs.equality
                    && cp.left.column in {a, b} && cp.right.column in {a, b, instance})
              && (forall inst: map<Cell, Fe> :: Satisfied(L, inst) <==> MatchesExposed(L, inst))
  {
    var (cs', cfg) := Arithmetic.Configure(cs, a, b, instance);
    var chip := Construct(cfg);
    var L0 := Start(cs', usableRows);
    StartValid(cs', usableRows);
    RunKeepsInvariant(chip, L0, calls, []);
    var r := Run(chip, L0, calls, []);
    if r.Ok? {
      var L := r.value.0;
      forall cp | cp in L.copies
        ensures cp.left.column in L.cs.equality && cp.right.column in L.cs.equality
      {
        assert CopyShape(L, cp);
      }
      forall inst: map<Cell, Fe>
        ensures Satisfied(L, inst) <==> MatchesExposed(L, inst)
      {
        SatisfiedIffMatchesExposed(L, inst);
      }
    }
  }

  // ---------------------------------------------------------------------
  // Results equal the plain field expression
  // ---------------------------------------------------------------------

  /** An arithmetic expression over private inputs. */
  datatype Term =
    | Private(value: Fe)
    | Times(left: Term, right: Term)
    | Minus(left: Term, right: Term)

  /** The expression's value computed directly over the field. */
  function Evaluate(t: Term): Fe {
    match t
    case Private(v) => v
    case Times(l, r) => Field.Mul(Evaluate(l), Evaluate(r))
    case Minus(l, r) => Field.Sub(Evaluate(l), Evaluate(r))
  }

  /** Lays out `t` bottom-up, left operand first: loads for the leaves, the
      chips' operations for the inner nodes. The number it returns holds the
      plain field value of `t`. */
  function Synthesize(chip: ArithmeticChip, L: Layouter, t: Term): (r: Result<(Layouter, Number)>)
    ensures r.Ok? ==> r.value.1.value == Evaluate(t)
    decreases t
  {
    match t
    case Private(v) => LoadPrivate(chip, L, v)
    case Times(l, rt) =>
      var (L1, x) :- Synthesize(chip, L, l);
      var (L2, y) :- Synthesize(chip, L1, rt);
      Arithmetic.Mul(chip, L2, x, y)
    case Minus(l, rt) =>
      var (L1, x) :- Synthesize(chip, L, l);
      var (L2, y) :- Synthesize(chip, L1, rt);
      Arithmetic.Sub(chip, L2, x, y)
  }

  /** Synthesizing an expression keeps the invariant and leaves its value in a
      fresh cell of column a. */
  lemma {:induction false} SynthesizeKeepsInvariant(chip: ArithmeticChip, L: Layouter, t: Term)
    requires Valid(L) && Configured(L.cs, chip.config)
    decreases t
    ensures var r := Synthesize(chip, L, t);
            r.Ok? ==> && Valid(r.value.0) && Extends(L, r.value.0)
                      && Holds(r.value.0, r.value.1) && r.value.1.cell.column == chip.config.a
  {
    match t
    case Private(v) =>
      LoadPrivateKeepsValid(chip, L, v);
    case Times(l, rt) =>
      SynthesizeKeepsInvariant(chip, L, l);
      var r1 := Synthesize(chip, L, l);
      if r1.Ok? {
        var (L1, x) := r1.value;
        SynthesizeKeepsInvariant(chip, L1, rt);
        var r2 := Synthesize(chip, L1, rt);
        if r2.Ok? {
          var (L2, y) := r2.value;
          ExtendsKeepsHolds(L1, L2, x);
          Arithmetic.MulKeepsValid(chip, L2, x, y);
          if Arithmetic.Mul(chip, L2, x, y).Ok? {
            ExtendsTransitive(L, L1, L2);
            ExtendsTransitive(L, L2, Arithmetic.Mul(chip, L2, x, y).value.0);
          }
        }
      }
    case Minus(l, rt) =>
      SynthesizeKeepsInvariant(chip, L, l);
      var r1 := Synthesize(chip, L, l);
      if r1.Ok? {
        var (L1, x) := r1.value;
        SynthesizeKeepsInvariant(chip, L1, rt);
        var r2 := Synthesize(chip, L1, rt);
        if r2.Ok? {
          var (L2, y) := r2.value;
          ExtendsKeepsHolds(L1, L2, x);
          Arithmetic.SubKeepsValid(chip, L2, x, y);
          if Arithmetic.Sub(chip, L2, x, y).Ok? {
            ExtendsTransitive(L, L1, L2);
            ExtendsTransitive(L, L2, Arithmetic.Sub(chip, L2, x, y).value.0);
          }
        }
      }
  }

  // ---------------------------------------------------------------------
  // Concrete scenarios
  // ---------------------------------------------------------------------

  /** The layer configured on columns 0 and 1 and instance column 0 of an
      empty constraint system. */
  function ScenarioConfig(): (r: (ConstraintSystem, ArithmeticConfig))
    ensures r.1.a == AdviceColumn(0) && r.1.b == AdviceColumn(1) && r.1.instance == InstanceColumn(0)
    ensures Configured(r.0, r.1) && WellFormed(r.0)
  {
    assert WellFormed(Empty);
    Arithmetic.Configure(Empty, AdviceColumn(0), AdviceColumn(1), InstanceColumn(0))
  }

  /** No copy constraint reaches an instance column. */
  predicate NoInstanceCopies(L: Layouter) {
    forall cp | cp in L.copies :: cp.right.column.AdviceColumn?
  }

  /** A load with a free row left succeeds and appends a cell holding `v`. */
  lemma LoadStep(chip: ArithmeticChip, L: Layouter, v: Fe, nums: seq<Number>) returns (L': Layouter, n: Number)
    requires RunInvariant(chip, L, nums) && NoInstanceCopies(L)
    requires L.nextRow < L.usableRows
    ensures Step(chip, L, Load(v), nums) == Ok((L', nums + [n]))
    ensures RunInvariant(chip, L', nums + [n]) && NoInstanceCopies(L')
    ensures n.value == v && L'.nextRow == L.nextRow + 1 && L'.usableRows == L.usableRows
  {
    LoadPrivateKeepsValid(chip, L, v);
    LoadKeepsRunInvariant(chip, L, v, nums);
    var r := LoadPrivate(chip, L, v);
    L', n := r.value.0, r.value.1;
  }

  /** A multiplication with two free rows left succeeds and appends the
      product. */
  lemma MulStep(chip: ArithmeticChip, L: Layouter, i: nat, j: nat, nums: seq<Number>) returns (L': Layouter, n: Number)
    requires RunInvariant(chip, L, nums) && NoInstanceCopies(L)
    requires i < |nums| && j < |nums|
    requires L.nextRow + 1 < L.usableRows && chip.config.a != chip.config.b
    ensures Step(chip, L, MulOf(i, j), nums) == Ok((L', nums + [n]))
    ensures RunInvariant(chip, L', nums + [n]) && NoInstanceCopies(L')
    ensures n.value == Field.Mul(nums[i].value, nums[j].value)
    ensures L'.nextRow == L.nextRow + 2 && L'.usableRows == L.usableRows
  {
    var x, y := nums[i], nums[j];
    Arithmetic.MulKeepsValid(chip, L, x, y);
    MulKeepsRunInvariant(chip, L, x, y, nums);
    var r := Arithmetic.Mul(chip, L, x, y);
    L', n := r.value.0, r.value.1;
    assert L' == Filled(L, chip.config.mulConfig, x, y, n.value);
  }

  /** A subtraction with two free rows left succeeds and appends the
      difference. */
  lemma SubStep(chip: ArithmeticChip, L: Layouter, i: nat, j: nat, nums: seq<Number>) returns (L': Layouter, n: Number)
    requires RunInvariant(chip, L, nums) && NoInstanceCopies(L)
    requires i < |nums| && j < |nums|
    requires L.nextRow + 1 < L.usableRows && chip.config.a != chip.config.b
    ensures Step(chip, L, SubOf(i, j), nums) == Ok((L', nums + [n]))
    ensures RunInvariant(chip, L', nums + [n]) && NoInstanceCopies(L')
    ensures n.value == Field.Sub(nums[i].value, nums[j].value)
    ensures L'.nextRow == L.nextRow + 2 && L'.usableRows == L.usableRows
  {
    var x, y := nums[i], nums[j];
    Arithmetic.SubKeepsValid(chip, L, x, y);
    SubKeepsRunInvariant(chip, L, x, y, nums);
    var r := Arithmetic.Sub(chip, L, x, y);
    L', n := r.value.0, r.value.1;
    assert L' == Filled(L, chip.config.subConfig, x, y, n.value);
  }

  /** Exposing a produced number on a row of the table succeeds and adds
      exactly the copy into the instance column. */
  lemma ExposeStep(chip: ArithmeticChip, L: Layouter, i: nat, row: nat, nums: seq<Number>) returns (L': Layouter)
    requires RunInvariant(chip, L, nums)
    requires i < |nums| && row < L.usableRows
    ensures Step(chip, L, Expose(i, row), nums) == Ok((L', nums))
    ensures L' == L.(copies := L.copies + {Copy(nums[i].cell, Cell(chip.config.instance, row))})
    ensures Holds(L, nums[i]) && Valid(L')
  {
    assert Holds(L, nums[i]) && nums[i].cell.column == chip.config.a;
    ExposeKeepsRunInvariant(chip, L, nums[i], row, nums);
    L' := ExposePublic(chip, L, nums[i], row).value;
  }

  /** Load 3 and 4, multiply (12), load 2, subtract (10), expose on instance
      row 0. The list is spelled as nested `[call] + rest` rather than as the
      literal `[Load(3), Load(4), MulOf(0, 1), Load(2), SubOf(2, 3), Expose(4, 0)]`
      so that each `RunCons` step below matches it syntactically: proving the
      literal equal to its nested form is costly for the solver. `RunCons`,
      `RunSingle`, `ScenarioRunTail` and `ScenarioRunSteps` only unfold `Run`
      along this list. */
  function ScenarioCalls(): seq<Call>
    requires 4 < P
  {
    [Load(3)] + ([Load(4)] + ([MulOf(0, 1)] + ScenarioTailCalls()))
  }

  function ScenarioTailCalls(): seq<Call>
    requires 2 < P
  {
    [Load(2)] + ([SubOf(2, 3)] + [Expose(4, 0)])
  }

  /** A run that starts with a successful call continues from its state. */
  lemma RunCons(chip: ArithmeticChip, L: Layouter, call: Call, rest: seq<Call>, nums: seq<Number>,
                L1: Layouter, nums1: seq<Number>, res: Result<(Layouter, seq<Number>)>)
    requires InScope(call, |nums|)
    requires Step(chip, L, call, nums) == Ok((L1, nums1))
    requires Scoped(rest, |nums1|) && Run(chip, L1, rest, nums1) == res
    ensures Scoped([call] + rest, |nums|)
    ensures Run(chip, L, [call] + rest, nums) == res
  {
    assert ([call] + rest)[0] == call && ([call] + rest)[1..] == rest;
  }

  /** A run of one successful call ends where the call does. */
  lemma RunSingle(chip: ArithmeticChip, L: Layouter, call: Call, nums: seq<Number>, L1: Layouter, nums1: seq<Number>)
    requires InScope(call, |nums|)
    requires Step(chip, L, call, nums) == Ok((L1, nums1))
    ensures Scoped([call], |nums|)
    ensures Run(chip, L, [call], nums) == Ok((L1, nums1))
  {
    assert [call][1..] == [];
  }

  /** The last three calls of the scenario: load, subtract, expose. */
  lemma ScenarioRunTail(chip: ArithmeticChip, L3: Layouter, L4: Layouter, L5: Layouter, L6: Layouter,
                        s3: seq<Number>, s4: seq<Number>, s5: seq<Number>)
    requires 2 < P
    requires |s3| == 3 && |s4| == 4 && |s5| == 5
    requires Step(chip, L3, Load(2), s3) == Ok((L4, s4))
    requires Step(chip, L4, SubOf(2, 3), s4) == Ok((L5, s5))
    requires Step(chip, L5, Expose(4, 0), s5) == Ok((L6, s5))
    ensures Scoped(ScenarioTailCalls(), 3)
    ensures Run(chip, L3, ScenarioTailCalls(), s3) == Ok((L6, s5))
  {
    var res := Ok((L6, s5));
    RunSingle(chip, L5, Expose(4, 0), s5, L6, s5);
    RunCons(chip, L4, SubOf(2, 3), [Expose(4, 0)], s4, L5, s5, res);
    RunCons(chip, L3, Load(2), [SubOf(2, 3)] + [Expose(4, 0)], s3, L4, s4, res);
  }

  /** The run of `ScenarioCalls`, one step at a time. */
  lemma ScenarioRunSteps(chip: ArithmeticChip, L0: Layouter, L1: Layouter, L2: Layouter, L3: Layouter,
                         L6: Layouter, s1: seq<Number>, s2: seq<Number>, s3: seq<Number>, s5: seq<Number>)
    requires 4 < P
    requires |s1| == 1 && |s2| == 2 && |s3| == 3
    requires Step(chip, L0, Load(3), []) == Ok((L1, s1))
    requires Step(chip, L1, Load(4), s1) == Ok((L2, s2))
    requires Step(chip, L2, MulOf(0, 1), s2) == Ok((L3, s3))
    requires Scoped(ScenarioTailCalls(), 3)
    requires Run(chip, L3, ScenarioTailCalls(), s3) == Ok((L6, s5))
    ensures Scoped(ScenarioCalls(), 0)
    ensures Run(chip, L0, ScenarioCalls(), []) == Ok((L6, s5))
  {
    var res := Ok((L6, s5));
    var c3 := ScenarioTailCalls();
    RunCons(chip, L2, MulOf(0, 1), c3, s2, L3, s3, res);
    RunCons(chip, L1, Load(4), [MulOf(0, 1)] + c3, s1, L2, s2, res);
    RunCons(chip, L0, Load(3), [Load(4)] + ([MulOf(0, 1)] + c3), [], L1, s1, res);
  }

  /** The first half of the scenario: load 3 and 4 and multiply them. */
  lemma ScenarioMulHalf(chip: ArithmeticChip, L0: Layouter)
    returns (L1: Layouter, L2: Layouter, L3: Layouter, s1: seq<Number>, s2: seq<Number>, s3: seq<Number>)
    requires 12 < P
    requires RunInvariant(chip, L0, []) && NoInstanceCopies(L0)
    requires L0.nextRow == 0 && L0.usableRows == 7 && chip.config.a != chip.config.b
    ensures Step(chip, L0, Load(3), []) == Ok((L1, s1))
    ensures Step(chip, L1, Load(4), s1) == Ok((L2, s2))
    ensures Step(chip, L2, MulOf(0, 1), s2) == Ok((L3, s3))
    ensures |s1| == 1 && |s2| == 2 && |s3| == 3 && s3[2].value == 12
    ensures RunInvariant(chip, L3, s3) && NoInstanceCopies(L3)
    ensures L3.nextRow == 4 && L3.usableRows == 7
  {
    var n0, n1, n2;
    L1, n0 := LoadStep(chip, L0, 3, []);
    s1 := [] + [n0];
    L2, n1 := LoadStep(chip, L1, 4, s1);
    s2 := s1 + [n1];
    L3, n2 := MulStep(chip, L2, 0, 1, s2);
    s3 := s2 + [n2];
    ScenarioProduct(s2);
  }

  lemma ScenarioProduct(s2: seq<Number>)
    requires 12 < P && |s2| == 2 && s2[0].value == 3 && s2[1].value == 4
    ensures Field.Mul(s2[0].value, s2[1].value) == 12
  {
    DivModUnique(3 * 4, 0, 12);
  }

  /** The second half: load 2, subtract it from the product, expose the
      difference on instance row 0. */
  lemma ScenarioSubHalf(chip: ArithmeticChip, L3: Layouter, s3: seq<Number>)
    returns (L4: Layouter, L5: Layouter, L6: Layouter, s4: seq<Number>, s5: seq<Number>)
    requires 12 < P
    requires RunInvariant(chip, L3, s3) && NoInstanceCopies(L3)
    requires |s3| == 3 && s3[2].value == 12
    requires L3.nextRow == 4 && L3.usableRows == 7 && chip.config.a != chip.config.b
    requires chip.config.instance == InstanceColumn(0)
    ensures Step(chip, L3, Load(2), s3) == Ok((L4, s4))
    ensures Step(chip, L4, SubOf(2, 3), s4) == Ok((L5, s5))
    ensures Step(chip, L5, Expose(4, 0), s5) == Ok((L6, s5))
    ensures |s4| == 4 && |s5| == 5 && s5[4].value == 10
    ensures forall pub: map<Cell, Fe> ::
              Satisfied(L6, pub) <==> InstanceValue(pub, Cell(InstanceColumn(0), 0)) == 10
  {
    var n3, n4;
    L4, n3 := LoadStep(chip, L3, 2, s3);
    s4 := s3 + [n3];
    L5, n4 := SubStep(chip, L4, 2, 3, s4);
    s5 := s4 + [n4];
    assert n4.value == 10;
    L6 := ExposeStep(chip, L5, 4, 0, s5);
    assert s5[4] == n4;
    ScenarioExposed(L5, L6, n4);
  }

  /** In a seven-row table the scenario's run succeeds, its last result holds
      10, and the table is completed exactly by public inputs that put 10 on
      instance row 0. */
  lemma Scenario()
    requires 12 < P
    ensures var (cs, cfg) := ScenarioConfig();
            var r := Run(Construct(cfg), Start(cs, 7), ScenarioCalls(), []);
            && r.Ok?
            && r.value.1[4].value == 10
            && forall pub: map<Cell, Fe> ::
                 Satisfied(r.value.0, pub) <==> InstanceValue(pub, Cell(InstanceColumn(0), 0)) == 10
  {
    var (cs, cfg) := ScenarioConfig();
    var chip := Construct(cfg);
    var L0 := Start(cs, 7);
    StartValid(cs, 7);
    assert RunInvariant(chip, L0, []);
    var L1, L2, L3, s1, s2, s3 := ScenarioMulHalf(chip, L0);
    var L4, L5, L6, s4, s5 := ScenarioSubHalf(chip, L3, s3);
    ScenarioRunTail(chip, L3, L4, L5, L6, s3, s4, s5);
    ScenarioRunSteps(chip, L0, L1, L2, L3, L6, s1, s2, s3, s5);
  }

  /** Before the exposure the table has no copy into an instance column, so
      the exposure is the only public constraint. */
  lemma ScenarioExposed(L5: Layouter, L6: Layouter, n4: Number)
    requires NoInstanceCopies(L5) && Valid(L6)
    requires L6 == L5.(copies := L5.copies + {Copy(n4.cell, Cell(InstanceColumn(0), 0))})
    requires n4.value == 10 && Holds(L5, n4)
    ensures forall pub: map<Cell, Fe> ::
              Satisfied(L6, pub) <==> InstanceValue(pub, Cell(InstanceColumn(0), 0)) == 10
  {
    forall pub: map<Cell, Fe>
      ensures Satisfied(L6, pub) <==> InstanceValue(pub, Cell(InstanceColumn(0), 0)) == 10
    {
      SatisfiedIffMatchesExposed(L6, pub);
      assert Copy(n4.cell, Cell(InstanceColumn(0), 0)) in L6.copies;
    }
  }

  /** Values at the modulus boundary wrap as field elements: `0 - 1` is
      `P - 1`, and `(P - 1) * (P - 1)` is 1. */
  lemma BoundaryScenario(chip: ArithmeticChip, L: Layouter)
    ensures var r := Synthesize(chip, L, Minus(Private(0), Private(1)));
            r.Ok? ==> r.value.1.value == P - 1
    ensures var r := Synthesize(chip, L, Times(Private(P - 1), Private(P - 1)));
            r.Ok? ==> r.value.1.value == 1
  {
    var m := P - 1;
    assert m * m == (P - 2) * P + 1;
    DivModUnique(m * m, P - 2, 1);
  }
}
