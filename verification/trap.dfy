/**
 * The firmware self-test's trap handler and the arithmetic facts its first test asserts.
 *
 * `mcause` is read as in the RISC-V Privileged Architecture, section 3.1.15 (Table 3.6):
 * bit 31 tells an interrupt from an exception and the remaining bits hold the cause code.
 * The `mie` enable bits are those of section 3.1.9: MSIE is bit 3, MTIE bit 7, MEIE bit 11.
 */
module K10SelfTest {
  import MulDivOracle
  import Words

  const MIE_MSIE: bv32 := 0x8    // 1 << 3
  const MIE_MTIE: bv32 := 0x80   // 1 << 7
  const MIE_MEIE: bv32 := 0x800  // 1 << 11
  const MSTATUS_MIE: bv32 := 0x8 // 1 << 3

  /** Bit 31 of `mcause`: set for an interrupt, clear for an exception. */
  const INTERRUPT_FLAG: bv32 := 0x8000_0000
  /** Bit 31 of a 32-bit value: the sign bit of its `int32_t` reading. */
  const SIGN_BIT: bv32 := 0x8000_0000

  /** Cause codes the handler recognises. */
  const MACHINE_SOFTWARE_INTERRUPT: bv32 := 3
  const MACHINE_TIMER_INTERRUPT: bv32 := 7
  const BREAKPOINT: bv32 := 3
  const ECALL_FROM_M_MODE: bv32 := 11

  /** A decoded `mcause`. */
  datatype Cause = Interrupt(code: bv32) | Exception(code: bv32)

  function Classify(mcause: bv32): (c: Cause)
    ensures c.code < INTERRUPT_FLAG
    ensures c.Interrupt? <==> mcause >= INTERRUPT_FLAG
    ensures (if c.Interrupt? then c.code | INTERRUPT_FLAG else c.code) == mcause
  {
    if mcause & INTERRUPT_FLAG != 0 then Interrupt(mcause & 0x7FFF_FFFF) else Exception(mcause)
  }

  /** `x & ~m`: `x` with the bits of `m` cleared. */
  function ClearMask(x: bv32, m: bv32): (r: bv32)
    ensures r & m == 0
    ensures r | (x & m) == x
  {
    x & !m
  }

  /** Bit `k` of `x`. */
  predicate Bit(x: bv32, k: bv32)
    requires k < 32
  {
    (x >> k) & 1 == 1
  }

  /** The handler's view of the machine: its volatile globals, `mie` and the simulator's MSIP
      register. A flag the C code sets to 1 is `true` here. */
  datatype TrapState = TrapState(
    trapCount: bv32,
    lastMcause: bv32,
    timerFired: bool,
    swIrqFired: bool,
    ecallFired: bool,
    ebreakFired: bool,
    mie: bv32,
    simMsip: bv32)

  /** `trap_handler(mcause, mepc)`: the state after the trap and the address to resume at. */
  function TrapHandler(st: TrapState, mcause: bv32, mepc: bv32): (r: (TrapState, bv32))
    ensures r.0.trapCount == st.trapCount + 1 && r.0.lastMcause == mcause
    ensures mcause & INTERRUPT_FLAG != 0 ==> r.1 == mepc
    ensures mcause & INTERRUPT_FLAG == 0 ==> r.1 == mepc + 4
  {
    var st := st.(trapCount := st.trapCount + 1, lastMcause := mcause);
    match Classify(mcause)
    case Interrupt(code) =>
      if code == MACHINE_TIMER_INTERRUPT then
        (st.(timerFired := true, mie := ClearMask(st.mie, MIE_MTIE)), mepc)
      else if code == MACHINE_SOFTWARE_INTERRUPT then
        (st.(swIrqFired := true, simMsip := 0, mie := ClearMask(st.mie, MIE_MSIE)), mepc)
      else
        (st, mepc)
    case Exception(code) =>
      if code == ECALL_FROM_M_MODE then
        (st.(ecallFired := true), mepc + 4)
      else if code == BREAKPOINT then
        (st.(ebreakFired := true), mepc + 4)
      else
        (st, mepc + 4)
  }

  /** Every trap is counted (modulo 2^32) and its cause recorded. */
  lemma TrapBookkeeping(st: TrapState, mcause: bv32, mepc: bv32)
    ensures TrapHandler(st, mcause, mepc).0.trapCount == st.trapCount + 1
    ensures TrapHandler(st, mcause, mepc).0.lastMcause == mcause
  {
  }

  /** An interrupt resumes at the interrupted instruction and every exception, known or not,
      at the next 4-byte one. */
  lemma TrapResume(st: TrapState, mcause: bv32, mepc: bv32)
    ensures Classify(mcause).Interrupt? ==> TrapHandler(st, mcause, mepc).1 == mepc
    ensures Classify(mcause).Exception? ==> TrapHandler(st, mcause, mepc).1 == mepc + 4
  {
  }

  /** Each flag is raised by exactly its own cause and otherwise left as it was; the
      breakpoint flag in particular is not raised by software interrupt code 3. */
  lemma TrapFlags(st: TrapState, mcause: bv32, mepc: bv32)
    ensures var st' := TrapHandler(st, mcause, mepc).0;
      var c := Classify(mcause);
      && st'.timerFired == (st.timerFired || c == Interrupt(MACHINE_TIMER_INTERRUPT))
      && st'.swIrqFired == (st.swIrqFired || c == Interrupt(MACHINE_SOFTWARE_INTERRUPT))
      && st'.ecallFired == (st.ecallFired || c == Exception(ECALL_FROM_M_MODE))
      && st'.ebreakFired == (st.ebreakFired || c == Exception(BREAKPOINT))
  {
  }

  /** The timer interrupt clears MTIE, the software interrupt clears MSIE, and no other
      trap touches `mie`; `ClearMaskBit` shows that each clears exactly its own bit. */
  lemma TrapInterruptEnables(st: TrapState, mcause: bv32, mepc: bv32)
    ensures Classify(mcause) == Interrupt(MACHINE_TIMER_INTERRUPT) ==>
              TrapHandler(st, mcause, mepc).0.mie == ClearMask(st.mie, MIE_MTIE)
    ensures Classify(mcause) == Interrupt(MACHINE_SOFTWARE_INTERRUPT) ==>
              TrapHandler(st, mcause, mepc).0.mie == ClearMask(st.mie, MIE_MSIE)
    ensures Classify(mcause) != Interrupt(MACHINE_TIMER_INTERRUPT) &&
            Classify(mcause) != Interrupt(MACHINE_SOFTWARE_INTERRUPT) ==>
              TrapHandler(st, mcause, mepc).0.mie == st.mie
  {
  }

  /** Clearing the one-bit mask `1 << j` clears bit `j` and keeps every other bit. */
  lemma ClearMaskBit(x: bv32, j: bv32, k: bv32)
    requires j < 32 && k < 32
    ensures Bit(ClearMask(x, 1 << j), k) == (Bit(x, k) && k != j)
  {
  }

  /** Only the software interrupt acknowledges itself, by clearing the MSIP register. */
  lemma TrapSoftwarePending(st: TrapState, mcause: bv32, mepc: bv32)
    ensures var st' := TrapHandler(st, mcause, mepc).0;
      st'.simMsip == (if Classify(mcause) == Interrupt(MACHINE_SOFTWARE_INTERRUPT) then 0 else st.simMsip)
  {
  }

  /** `mie` bit positions of the RISC-V Privileged Architecture, section 3.1.9. */
  lemma MieBitPositions()
    ensures MIE_MSIE == 1 << 3 && MIE_MTIE == 1 << 7 && MIE_MEIE == 1 << 11 && MSTATUS_MIE == 1 << 3
    ensures forall k: bv32 :: k < 32 ==> (Bit(MIE_MSIE, k) <==> k == 3)
    ensures forall k: bv32 :: k < 32 ==> (Bit(MIE_MTIE, k) <==> k == 7)
    ensures forall k: bv32 :: k < 32 ==> (Bit(MIE_MEIE, k) <==> k == 11)
  {
  }

  /** C's `>>` on an `int32_t` as the compiler implements it: an arithmetic shift. A
      non-negative value is shifted logically; a negative one keeps its sign and has the `n`
      vacated top bits filled with ones. */
  function ShiftRightArith(x: bv32, n: bv32): (r: bv32)
    requires n < 32
    ensures x & SIGN_BIT == 0 ==> r == x >> n
    ensures r & SIGN_BIT == x & SIGN_BIT
    ensures x & SIGN_BIT != 0 ==> r | (0xFFFF_FFFF >> n) == 0xFFFF_FFFF
  {
    if x & SIGN_BIT == 0 then x >> n else !((!x) >> n)
  }

  /** The expectations of `test_arithmetic`: sum, difference, the low product, the quotient
      and remainder of the divide oracle, and the three shifts. */
  lemma ArithmeticExpectations()
    ensures 42 + 17 == 59 && 42 - 17 == 25
    ensures Words.Wrap(42 * 17) == 714
    ensures MulDivOracle.RiscvDiv(42, 17) == 2 && MulDivOracle.RiscvRem(42, 17) == 8
    ensures (0x1234_5678 as bv32) << 4 == 0x2345_6780
    ensures (0x1234_5678 as bv32) >> 4 == 0x0123_4567
    ensures ShiftRightArith(0xF000_0000, 4) == 0xFF00_0000
  {
  }
}
