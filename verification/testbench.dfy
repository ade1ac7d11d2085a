/**
 * The standalone multiply/divide testbench: clock and reset sequencing, the start/done
 * handshake drivers for single-cycle multiplies and multi-cycle divides, the pass/fail
 * checker and the test campaign of `main` with its exit status.
 *
 * The unit under test is opaque: a type of internal states `S`, one evaluation function
 * (the simulator's `eval()`, a function of the state and the driven pins) and the three
 * observed outputs `o_done`, `o_busy` and `o_result`.
 */
module MulDivTestbench {
  import opened Words
  import opened Wrappers
  import opened MulDivOracle

  /** The polling bound of the divide driver, in clock cycles. */
  const POLL_LIMIT: nat := 200
  /** The value the divide driver returns when `o_done` never rises. */
  const TIMEOUT_SENTINEL: u32 := 0xDEAD_BEEF
  /** Clock cycles with `i_rst_n` held low at reset. */
  const RESET_CYCLES: nat := 5

  /** The driven inputs of the unit: `i_clk`, `i_rst_n`, `i_start`, `i_op`, `i_a`, `i_b`. */
  datatype Pins = Pins(clk: bool, rstN: bool, start: bool, op: nat, a: u32, b: u32)

  /** The unit under test as seen through its ports. */
  datatype Unit<!S> = Unit(eval: (S, Pins) -> S, done: S -> bool, busy: S -> bool, result: S -> u32)

  /** The testbench globals: the unit's state and pins, `sim_time`, `pass_count`, `fail_count`. */
  datatype Bench<!S> = Bench(state: S, pins: Pins, simTime: nat, passCount: nat, failCount: nat)

  /** `tick`: one clock cycle, a falling-edge then a rising-edge evaluation. */
  function Tick<S>(u: Unit<S>, tb: Bench<S>): (t: Bench<S>)
    ensures t.simTime == tb.simTime + 2
    ensures t.pins == tb.pins.(clk := true)
    ensures t.passCount == tb.passCount && t.failCount == tb.failCount
  {
    var low := tb.pins.(clk := false);
    var high := tb.pins.(clk := true);
    tb.(state := u.eval(u.eval(tb.state, low), high), pins := high, simTime := tb.simTime + 2)
  }

  /** `n` clock cycles with the pins held. */
  function Ticks<S>(u: Unit<S>, tb: Bench<S>, n: nat): (t: Bench<S>)
    ensures t.simTime == tb.simTime + 2 * n
    ensures t.pins == if n == 0 then tb.pins else tb.pins.(clk := true)
    ensures t.passCount == tb.passCount && t.failCount == tb.failCount
  {
    if n == 0 then tb else Tick(u, Ticks(u, tb, n - 1))
  }

  /** `o_done` as sampled after the `k`-th of the cycles that follow `tb`. */
  predicate DoneAfter<S>(u: Unit<S>, tb: Bench<S>, k: nat)
  {
    u.done(Ticks(u, tb, k).state)
  }

  /** The first of the cycles `from + 1 .. bound` after `tb` at whose end `o_done` is high. */
  function FirstDoneFrom<S>(u: Unit<S>, tb: Bench<S>, from: nat, bound: nat): (r: Option<nat>)
    ensures r.Some? ==> from < r.value <= bound && DoneAfter(u, tb, r.value)
    ensures r.Some? ==> forall j :: from < j < r.value ==> !DoneAfter(u, tb, j)
    ensures r.None? ==> forall j :: from < j <= bound ==> !DoneAfter(u, tb, j)
    decreases bound - from
  {
    if from >= bound then None
    else if DoneAfter(u, tb, from + 1) then Some(from + 1)
    else FirstDoneFrom(u, tb, from + 1, bound)
  }

  /** The first cycle (counting from 1) within `bound` at which the unit reports done. */
  function FirstDone<S>(u: Unit<S>, tb: Bench<S>, bound: nat): Option<nat>
  {
    FirstDoneFrom(u, tb, 0, bound)
  }

  /** The pins as `reset` leaves them: reset released, no request, operands zero. */
  const RELEASED_PINS := Pins(true, true, false, 0, 0, 0)

  /** `reset`: five cycles with reset asserted and every request input low, then one
      cycle with reset released. */
  function Reset<S>(u: Unit<S>, tb: Bench<S>): (t: Bench<S>)
    ensures t.pins == RELEASED_PINS
    ensures t.simTime == tb.simTime + 2 * (RESET_CYCLES + 1)
    ensures t.passCount == tb.passCount && t.failCount == tb.failCount
  {
    var held := tb.(pins := tb.pins.(rstN := false, start := false, op := 0, a := 0, b := 0));
    var inReset := Ticks(u, held, RESET_CYCLES);
    Tick(u, inReset.(pins := inReset.pins.(rstN := true)))
  }

  /** The pins a driver sets up before the first cycle of a request. */
  function Issue<S>(tb: Bench<S>, op: MdOp, a: u32, b: u32): (t: Bench<S>)
    ensures t.pins.start && t.pins.op == Code(op) && t.pins.a == a && t.pins.b == b
    ensures t.pins.clk == tb.pins.clk && t.pins.rstN == tb.pins.rstN
    ensures t.state == tb.state && t.simTime == tb.simTime
    ensures t.passCount == tb.passCount && t.failCount == tb.failCount
  {
    tb.(pins := tb.pins.(op := Code(op), a := a, b := b, start := true))
  }

  /** `i_start = 0`: the request is withdrawn and every other pin is held. */
  function Release<S>(tb: Bench<S>): (t: Bench<S>)
    ensures !t.pins.start
    ensures t.pins.op == tb.pins.op && t.pins.a == tb.pins.a && t.pins.b == tb.pins.b
    ensures t.pins.clk == tb.pins.clk && t.pins.rstN == tb.pins.rstN
    ensures t.state == tb.state && t.simTime == tb.simTime
    ensures t.passCount == tb.passCount && t.failCount == tb.failCount
  {
    tb.(pins := tb.pins.(start := false))
  }

  /** What `run_div_op` leaves behind: the bench, the returned value and `*cycles_out`
      (`None` for a null pointer). */
  function DivDriver<S>(u: Unit<S>, tb: Bench<S>, op: MdOp, a: u32, b: u32, cycles: Option<int>)
    : (r: (Bench<S>, u32, Option<int>))
    ensures r.0.passCount == tb.passCount
    ensures r.0.failCount == tb.failCount + (if FirstDone(u, Issue(tb, op, a, b), POLL_LIMIT).None? then 1 else 0)
    ensures !r.0.pins.start && r.0.pins.op == Code(op) && r.0.pins.a == a && r.0.pins.b == b
    ensures tb.simTime + 4 <= r.0.simTime <= tb.simTime + 2 * (POLL_LIMIT + 1)
    ensures r.2.None? <==> cycles.None?
    ensures FirstDone(u, Issue(tb, op, a, b), POLL_LIMIT).None? ==> r.2 == cycles
    ensures FirstDone(u, Issue(tb, op, a, b), POLL_LIMIT).Some? && cycles.Some? ==>
              r.2 == FirstDone(u, Issue(tb, op, a, b), POLL_LIMIT)
  {
    var t0 := Issue(tb, op, a, b);
    match FirstDone(u, t0, POLL_LIMIT)
    case Some(k) =>
      var t := Ticks(u, t0, k);
      (Tick(u, Release(t)), u.result(t.state), if cycles.Some? then Some(k) else None)
    case None =>
      var t := Ticks(u, t0, POLL_LIMIT);
      (Tick(u, Release(t.(failCount := t.failCount + 1))), TIMEOUT_SENTINEL, cycles)
  }

  /** `run_div_op`: drive the request with `i_start` held, poll at most 200 cycles for
      `o_done`, capture `o_result` on the first cycle it is high, then drop `i_start` for one
      more cycle; on a timeout count a failure and return the sentinel, leaving
      `*cycles_out` alone. */
  method RunDivOp<S>(u: Unit<S>, tb: Bench<S>, op: MdOp, a: u32, b: u32, cycles: Option<int>)
    returns (tb': Bench<S>, result: u32, cycles': Option<int>)
    ensures (tb', result, cycles') == DivDriver(u, tb, op, a, b, cycles)
    ensures var t0 := Issue(tb, op, a, b);
      match FirstDone(u, t0, POLL_LIMIT)
      case Some(k) =>
        && 1 <= k <= POLL_LIMIT && DoneAfter(u, t0, k)
        && (forall j :: 1 <= j < k ==> !DoneAfter(u, t0, j))
        && result == u.result(Ticks(u, t0, k).state)
        && tb'.simTime == tb.simTime + 2 * (k + 1)
      case None =>
        && (forall j :: 1 <= j <= POLL_LIMIT ==> !DoneAfter(u, t0, j))
        && result == TIMEOUT_SENTINEL && cycles' == cycles
        && tb'.failCount == tb.failCount + 1
        && tb'.simTime == tb.simTime + 2 * (POLL_LIMIT + 1)
  {
    var t := Issue(tb, op, a, b);
    ghost var t0 := t;
    var count, captured;
    t, count, captured, result := PollDone(u, t);

    if !captured {
      t := t.(failCount := t.failCount + 1);
      t := Release(t);
      tb' := Tick(u, t);
      assert DivDriver(u, tb, op, a, b, cycles) == (tb', TIMEOUT_SENTINEL, cycles);
      return tb', TIMEOUT_SENTINEL, cycles;
    }

    t := Release(t);
    tb' := Tick(u, t);
    cycles' := if cycles.Some? then Some(count) else None;
    assert DivDriver(u, tb, op, a, b, cycles) == (tb', result, cycles');
  }

  /** The polling loop of `run_div_op`: at most `POLL_LIMIT` cycles with the request held,
      stopping after the first one that ends with `o_done` high and sampling `o_result` there. */
  method PollDone<S>(u: Unit<S>, t0: Bench<S>) returns (t: Bench<S>, count: nat, captured: bool, result: u32)
    ensures captured <==> FirstDone(u, t0, POLL_LIMIT).Some?
    ensures captured ==> FirstDone(u, t0, POLL_LIMIT) == Some(count) && t == Ticks(u, t0, count)
    ensures captured ==> result == u.result(t.state)
    ensures !captured ==> count == POLL_LIMIT && t == Ticks(u, t0, POLL_LIMIT)
  {
    t := t0;
    count := 0;
    result := 0;
    captured := false;
    var i := 0;
    while i < POLL_LIMIT
      invariant 0 <= i <= POLL_LIMIT
      invariant count == i && !captured
      invariant t == Ticks(u, t0, i)
      invariant forall j :: 1 <= j <= i ==> !DoneAfter(u, t0, j)
    {
      t := Tick(u, t);
      count := count + 1;
      if u.done(t.state) && !captured {
        result := u.result(t.state);
        captured := true;
        // a high `o_busy` here is only reported on the console
        break;
      }
      i := i + 1;
    }
    if captured {
      FirstDoneSome(u, t0, count, POLL_LIMIT);
    } else {
      FirstDoneNone(u, t0, POLL_LIMIT);
    }
  }

  /** The first-done index is the unique cycle with `o_done` high and no earlier one. */
  lemma FirstDoneSome<S>(u: Unit<S>, tb: Bench<S>, k: nat, bound: nat)
    requires 1 <= k <= bound && DoneAfter(u, tb, k)
    requires forall j :: 1 <= j < k ==> !DoneAfter(u, tb, j)
    ensures FirstDone(u, tb, bound) == Some(k)
  {
  }

  lemma FirstDoneNone<S>(u: Unit<S>, tb: Bench<S>, bound: nat)
    requires forall j :: 1 <= j <= bound ==> !DoneAfter(u, tb, j)
    ensures FirstDone(u, tb, bound) == None
  {
  }

  /** `run_mul_op`: one cycle with the request driven, `o_result` sampled after it, a failure
      counted when `o_done` is not high then, and one more cycle with `i_start` low. */
  function RunMulOp<S>(u: Unit<S>, tb: Bench<S>, op: MdOp, a: u32, b: u32): (r: (Bench<S>, u32))
    ensures var t1 := Ticks(u, Issue(tb, op, a, b), 1);
      && r.1 == u.result(t1.state)
      && r.0.failCount == tb.failCount + (if DoneAfter(u, Issue(tb, op, a, b), 1) then 0 else 1)
      && r.0.state == Tick(u, Release(t1)).state
    ensures r.0.passCount == tb.passCount
    ensures r.0.simTime == tb.simTime + 4
    ensures !r.0.pins.start && r.0.pins.op == Code(op) && r.0.pins.a == a && r.0.pins.b == b
  {
    var t := Tick(u, Issue(tb, op, a, b));
    var result := u.result(t.state);
    var t' := if u.done(t.state) then t else t.(failCount := t.failCount + 1);
    (Tick(u, Release(t')), result)
  }

  /** A unit that answers within the first cycle looks the same to both drivers; one that
      does not is charged a failure by the multiply driver but still polled by the divide
      driver. */
  lemma MulDriverAgreesOnSingleCycle<S>(u: Unit<S>, tb: Bench<S>, op: MdOp, a: u32, b: u32)
    ensures var m := RunMulOp(u, tb, op, a, b);
      var d := DivDriver(u, tb, op, a, b, None);
      DoneAfter(u, Issue(tb, op, a, b), 1) <==> (m.0 == d.0 && m.1 == d.1)
  {
    var t0 := Issue(tb, op, a, b);
    var m := RunMulOp(u, tb, op, a, b);
    var d := DivDriver(u, tb, op, a, b, None);
    if DoneAfter(u, t0, 1) {
      assert FirstDone(u, t0, POLL_LIMIT) == Some(1);
    } else {
      assert m.0.simTime == tb.simTime + 4;
      assert d.0.simTime > tb.simTime + 4 by {
        match FirstDone(u, t0, POLL_LIMIT)
        case Some(k) => assert k >= 2;
        case None =>
      }
    }
  }

  /** `check`: one comparison, counted as a pass exactly when the values agree. */
  function Check<S>(tb: Bench<S>, got: u32, expected: u32): (t: Bench<S>)
    ensures t.passCount + t.failCount == tb.passCount + tb.failCount + 1
    ensures t.passCount == tb.passCount + 1 <==> got == expected
    ensures t.failCount == tb.failCount + 1 <==> got != expected
    ensures t.state == tb.state && t.pins == tb.pins && t.simTime == tb.simTime
  {
    if got == expected then tb.(passCount := tb.passCount + 1)
    else tb.(failCount := tb.failCount + 1)
  }

  /** The exit status of `main`. */
  function ExitStatus<S>(tb: Bench<S>): (status: int)
    ensures status == 0 || status == 1
    ensures status == 1 <==> tb.failCount > 0
  {
    if tb.failCount > 0 then 1 else 0
  }

  /** One checked case of `main`: an operation, its operands and the value `main` expects. */
  datatype Case = Case(op: MdOp, a: u32, b: u32, expected: u32)

  /** Run one case with the driver its operation needs, then check the value it returned:
      the case passes exactly when that value is the expectation. */
  method RunCase<S>(u: Unit<S>, tb: Bench<S>, c: Case, cycles: Option<int>)
    returns (tb': Bench<S>, got: u32, cycles': Option<int>)
    ensures tb'.passCount == tb.passCount + 1 <==> got == c.expected
    ensures tb.passCount <= tb'.passCount <= tb.passCount + 1
    ensures tb'.passCount == tb.passCount + 1 || tb'.failCount > tb.failCount
    ensures tb.failCount <= tb'.failCount <= tb.failCount + 2
    ensures tb'.passCount + tb'.failCount > tb.passCount + tb.failCount
    ensures !IsDivClass(c.op) ==>
              var m := RunMulOp(u, tb, c.op, c.a, c.b);
              got == m.1 && tb' == Check(m.0, got, c.expected) && cycles' == cycles
    ensures !IsDivClass(c.op) ==> got == u.result(Ticks(u, Issue(tb, c.op, c.a, c.b), 1).state)
    ensures !IsDivClass(c.op) && DoneAfter(u, Issue(tb, c.op, c.a, c.b), 1) && got == c.expected
            ==> tb'.failCount == tb.failCount
    ensures IsDivClass(c.op) ==>
              var d := DivDriver(u, tb, c.op, c.a, c.b, cycles);
              got == d.1 && tb' == Check(d.0, got, c.expected) && cycles' == d.2
    ensures IsDivClass(c.op) ==>
              var t0 := Issue(tb, c.op, c.a, c.b);
              match FirstDone(u, t0, POLL_LIMIT)
              case Some(k) => got == u.result(Ticks(u, t0, k).state)
              case None => got == TIMEOUT_SENTINEL
    ensures IsDivClass(c.op) && FirstDone(u, Issue(tb, c.op, c.a, c.b), POLL_LIMIT).Some? && got == c.expected
            ==> tb'.failCount == tb.failCount
    ensures IsDivClass(c.op) && FirstDone(u, Issue(tb, c.op, c.a, c.b), POLL_LIMIT).None?
            && c.expected != TIMEOUT_SENTINEL
            ==> tb'.failCount == tb.failCount + 2 && tb'.passCount == tb.passCount
  {
    var t: Bench<S>;
    if IsDivClass(c.op) {
      t, got, cycles' := RunDivOp(u, tb, c.op, c.a, c.b, cycles);
    } else {
      var r := RunMulOp(u, tb, c.op, c.a, c.b);
      t, got, cycles' := r.0, r.1, cycles;
    }
    tb' := Check(t, got, c.expected);
  }

  /** Test 1: basic multiplies. */
  const MUL_CASES: seq<Case> := [
    Case(Mul, 3, 7, 21),
    Case(Mul, Wrap(-3), 7, Wrap(-21)),
    Case(Mul, Wrap(-3), Wrap(-7), 21) ]

  /** Test 2: unsigned division. */
  const UNSIGNED_CASES: seq<Case> := [
    Case(Divu, 10, 3, 3),
    Case(Remu, 10, 3, 1),
    Case(Divu, 100, 10, 10),
    Case(Remu, 100, 10, 0) ]

  /** Test 3: signed division, checked against the oracle. */
  const SIGNED_CASES: seq<Case> := [
    Case(Div, Wrap(-10), 3, RiscvDiv(Wrap(-10), 3)),
    Case(Rem, Wrap(-10), 3, RiscvRem(Wrap(-10), 3)),
    Case(Div, 10, Wrap(-3), RiscvDiv(10, Wrap(-3))),
    Case(Rem, 10, Wrap(-3), RiscvRem(10, Wrap(-3))),
    Case(Div, Wrap(-10), Wrap(-3), RiscvDiv(Wrap(-10), Wrap(-3))),
    Case(Rem, Wrap(-10), Wrap(-3), RiscvRem(Wrap(-10), Wrap(-3))) ]

  /** Test 4: division by zero. */
  const ZERO_CASES: seq<Case> := [
    Case(Divu, 42, 0, ALL_ONES),
    Case(Remu, 42, 0, 42),
    Case(Div, Wrap(-42), 0, ALL_ONES),
    Case(Rem, Wrap(-42), 0, Wrap(-42)) ]

  /** Test 5: signed overflow. */
  const OVERFLOW_CASES: seq<Case> := [
    Case(Div, INT_MIN_BITS, ALL_ONES, INT_MIN_BITS),
    Case(Rem, INT_MIN_BITS, ALL_ONES, 0) ]

  /** Test 6: operands taken from a failing instruction trace. */
  const TRACE_CASES: seq<Case> := [
    Case(Rem, 0x0eca_293d, 0xeca2_93d0, RiscvRem(0x0eca_293d, 0xeca2_93d0)),
    Case(Divu, 0xf01b_3076, 0x69cc_592b, RiscvDivu(0xf01b_3076, 0x69cc_592b)),
    Case(Divu, 1, 2, 0),
    Case(Remu, 1, 2, 1) ]

  /** Test 7: divisions issued back to back. */
  const CONSECUTIVE_CASES: seq<Case> := [
    Case(Divu, 100, 7, RiscvDivu(100, 7)),
    Case(Divu, 200, 13, RiscvDivu(200, 13)),
    Case(Rem, 0x1234_5678, 0xABCD, RiscvRem(0x1234_5678, 0xABCD)) ]

  /** The checks of `main` in order, one group per `reset`, with the expectations it writes. */
  const MAIN_GROUPS: seq<seq<Case>> :=
    [MUL_CASES, UNSIGNED_CASES, SIGNED_CASES, ZERO_CASES, OVERFLOW_CASES, TRACE_CASES, CONSECUTIVE_CASES]

  function CaseCount(groups: seq<seq<Case>>): nat
  {
    if groups == [] then 0 else CaseCount(groups[..|groups| - 1]) + |groups[|groups| - 1]|
  }

  /** The oracle's value for a case: the reference function of its operation, and the low
      32 bits of the product for MUL. */
  function OracleValue(c: Case): u32
  {
    match c.op
    case Div => RiscvDiv(c.a, c.b)
    case Divu => RiscvDivu(c.a, c.b)
    case Rem => RiscvRem(c.a, c.b)
    case Remu => RiscvRemu(c.a, c.b)
    case _ => Wrap(c.a * c.b)
  }

  /** Every case of the group expects the oracle's value, never the timeout sentinel, and is
      a multiply or a divide-class operation. */
  predicate OracleChecked(cases: seq<Case>)
  {
    forall i :: 0 <= i < |cases| ==>
      cases[i].expected == OracleValue(cases[i]) && cases[i].expected != TIMEOUT_SENTINEL
      && (cases[i].op.Mul? || IsDivClass(cases[i].op))
  }

  /** Every expectation `main` writes is the oracle's value (the low product for MUL), so by
      `RunCase` a case passes exactly when the unit returns the oracle's value in time. */
  lemma MainExpectationsAreOracleValues()
    ensures CaseCount(MAIN_GROUPS) == 26
    ensures forall g :: 0 <= g < |MAIN_GROUPS| ==> OracleChecked(MAIN_GROUPS[g])
  {
    GroupSizes();
    MulCasesChecked();
    UnsignedCasesChecked();
    SignedCasesChecked();
    ZeroCasesChecked();
    OverflowCasesChecked();
    TraceCasesChecked();
    ConsecutiveCasesChecked();
  }

  lemma MulCasesChecked()
    ensures OracleChecked(MUL_CASES)
  {
    MulExpectations();
  }

  lemma UnsignedCasesChecked()
    ensures OracleChecked(UNSIGNED_CASES)
  {
    assert RiscvDivu(10, 3) == 3 && RiscvRemu(10, 3) == 1;
    assert RiscvDivu(100, 10) == 10 && RiscvRemu(100, 10) == 0;
  }

  /** These expectations are oracle calls in `main` itself. */
  lemma SignedCasesChecked()
    ensures OracleChecked(SIGNED_CASES)
  {
  }

  lemma ZeroCasesChecked()
    ensures OracleChecked(ZERO_CASES)
  {
    DivisionByZero(42);
    DivisionByZero(Wrap(-42));
  }

  lemma OverflowCasesChecked()
    ensures OracleChecked(OVERFLOW_CASES)
  {
    SignedOverflow();
  }

  lemma TraceCasesChecked()
    ensures OracleChecked(TRACE_CASES)
  {
    assert RiscvDivu(1, 2) == 0 && RiscvRemu(1, 2) == 1;
  }

  /** These expectations are oracle calls in `main` itself. */
  lemma ConsecutiveCasesChecked()
    ensures OracleChecked(CONSECUTIVE_CASES)
  {
  }

  lemma GroupSizes()
    ensures CaseCount(MAIN_GROUPS) == 26
  {
    var gs := MAIN_GROUPS;
    assert gs[..7] == gs;
    assert gs[..7][..6] == gs[..6];
    assert gs[..6][..5] == gs[..5];
    assert gs[..5][..4] == gs[..4];
    assert gs[..4][..3] == gs[..3];
    assert gs[..3][..2] == gs[..2];
    assert gs[..2][..1] == gs[..1];
    assert gs[..1][..0] == [];
    assert CaseCount(gs[..1]) == 3;
    assert CaseCount(gs[..2]) == 7;
    assert CaseCount(gs[..3]) == 13;
    assert CaseCount(gs[..4]) == 17;
    assert CaseCount(gs[..5]) == 19;
    assert CaseCount(gs[..6]) == 23;
  }

  /** `main`: each group starts with a reset; the exit status is 1 exactly when a failure was
      counted, and 0 only when all 26 checks passed. */
  method RunMain<S>(u: Unit<S>, s0: S) returns (tb: Bench<S>, status: int)
    ensures status == 0 || status == 1
    ensures status == 1 <==> tb.failCount > 0
    ensures tb.passCount <= 26 && tb.passCount + tb.failCount >= 26
    ensures status == 0 ==> tb.passCount == 26
  {
    MainExpectationsAreOracleValues();
    tb := Bench(s0, Pins(false, false, false, 0, 0, 0), 0, 0, 0);
    var cyc: Option<int> := Some(0);
    ghost var failedChecks := 0;
    var g := 0;
    while g < |MAIN_GROUPS|
      invariant 0 <= g <= |MAIN_GROUPS|
      invariant tb.passCount + failedChecks == CaseCount(MAIN_GROUPS[..g])
      invariant failedChecks <= tb.failCount
    {
      tb := Reset(u, tb);
      var group := MAIN_GROUPS[g];
      var i := 0;
      while i < |group|
        invariant 0 <= i <= |group|
        invariant tb.passCount + failedChecks == CaseCount(MAIN_GROUPS[..g]) + i
        invariant failedChecks <= tb.failCount
      {
        ghost var before := tb;
        var got;
        tb, got, cyc := RunCase(u, tb, group[i], cyc);
        if tb.passCount == before.passCount {
          failedChecks := failedChecks + 1;
        }
        i := i + 1;
      }
      assert MAIN_GROUPS[..g + 1][..g] == MAIN_GROUPS[..g];
      g := g + 1;
    }
    assert MAIN_GROUPS[..|MAIN_GROUPS|] == MAIN_GROUPS;
    status := ExitStatus(tb);
  }
}
