/**
 * The reference oracle of the multiply/divide testbench: the operation encodings and
 * the expected results of DIV, DIVU, REM and REMU as the RISC-V Unprivileged ISA,
 * "M" Standard Extension, section 7.2 ("Division Operations", Table 7.1) defines them.
 */
module MulDivOracle {
  import opened Words

  /** The eight M-extension operations the unit accepts on its 3-bit `i_op` input. */
  datatype MdOp = Mul | Mulh | Mulhsu | Mulhu | Div | Divu | Rem | Remu

  /** The encoding driven on `i_op`. */
  function Code(op: MdOp): (c: nat)
    ensures c < 8
    ensures (c >= 4) <==> IsDivClass(op)
  {
    match op
    case Mul => 0
    case Mulh => 1
    case Mulhsu => 2
    case Mulhu => 3
    case Div => 4
    case Divu => 5
    case Rem => 6
    case Remu => 7
  }

  function OpOfCode(c: nat): (op: MdOp)
    requires c < 8
    ensures Code(op) == c
  {
    if c == 0 then Mul else if c == 1 then Mulh else if c == 2 then Mulhsu
    else if c == 3 then Mulhu else if c == 4 then Div else if c == 5 then Divu
    else if c == 6 then Rem else Remu
  }

  /** The encoding is a bijection between the operations and 0..7. */
  lemma CodeRoundTrip(op: MdOp)
    ensures OpOfCode(Code(op)) == op
  {
  }

  /** The multi-cycle (divide-class) operations. */
  predicate IsDivClass(op: MdOp)
  {
    op.Div? || op.Divu? || op.Rem? || op.Remu?
  }

  function Abs(x: int): nat
  {
    if x < 0 then -x else x
  }

  /** The quotient of natural numbers is the largest multiple of the divisor within the dividend. */
  lemma DivBounds(a: nat, b: nat)
    requires b > 0
    ensures 0 <= a / b
    ensures (a / b) * b <= a < (a / b) * b + b
  {
    DivAtMost(a, b);
    assert a == (a / b) * b + a % b;
  }

  /** C's `/` on integers: the algebraic quotient with its fractional part discarded. The
      quotient's magnitude times the divisor's stays within the dividend's magnitude and
      falls short of it by less than one divisor, and a non-zero quotient is negative
      exactly when the operands' signs differ. */
  function TruncDiv(n: int, d: int): (q: int)
    requires d != 0
    ensures Abs(q) * Abs(d) <= Abs(n) < Abs(q) * Abs(d) + Abs(d)
    ensures q == 0 || ((q < 0) <==> ((n < 0) != (d < 0)))
  {
    var m := Abs(n) / Abs(d);
    DivBounds(Abs(n), Abs(d));
    var q := if (n < 0) == (d < 0) then m else -m;
    assert Abs(q) == m;
    q
  }

  /** C's `%` on integers: whatever makes `(n / d) * d + n % d == n`. It is smaller than the
      divisor in magnitude and is zero or has the dividend's sign. */
  function TruncRem(n: int, d: int): (r: int)
    requires d != 0
    ensures TruncDiv(n, d) * d + r == n
    ensures Abs(r) < Abs(d)
    ensures r == 0 || ((r < 0) <==> (n < 0))
  {
    TruncRemMagnitude(n, d);
    n - TruncDiv(n, d) * d
  }

  /** `riscv_div`: signed division of the two's-complement readings of `a` and `b`. Outside
      the two special cases of Table 7.1 the result, read as `int32_t`, is C's quotient. */
  function RiscvDiv(a: u32, b: u32): (q: u32)
    ensures b == 0 ==> q == ALL_ONES
    ensures a == INT_MIN_BITS && b == ALL_ONES ==> q == INT_MIN_BITS
    ensures b != 0 && !(a == INT_MIN_BITS && b == ALL_ONES) ==> Signed(q) == TruncDiv(Signed(a), Signed(b))
  {
    if b == 0 then ALL_ONES
    else if a == INT_MIN_BITS && b == ALL_ONES then INT_MIN_BITS
    else
      var sa, sb := Signed(a), Signed(b);
      assert sa == -0x8000_0000 ==> a == INT_MIN_BITS;
      assert sb == -1 ==> b == ALL_ONES;
      QuotientFits(sa, sb);
      SignedWrap(TruncDiv(sa, sb));
      Wrap(TruncDiv(sa, sb))
  }

  /** `riscv_divu`: unsigned division; the largest `q` with `q * b <= a`. */
  function RiscvDivu(a: u32, b: u32): (q: u32)
    ensures b == 0 ==> q == ALL_ONES
    ensures b != 0 ==> q * b <= a < q * b + b
  {
    if b == 0 then ALL_ONES else a / b
  }

  /** `riscv_rem`: signed remainder. Outside the two special cases of Table 7.1 the result,
      read as `int32_t`, is C's remainder. */
  function RiscvRem(a: u32, b: u32): (r: u32)
    ensures b == 0 ==> r == a
    ensures a == INT_MIN_BITS && b == ALL_ONES ==> r == 0
    ensures b != 0 && !(a == INT_MIN_BITS && b == ALL_ONES) ==> Signed(r) == TruncRem(Signed(a), Signed(b))
  {
    if b == 0 then a
    else if a == INT_MIN_BITS && b == ALL_ONES then 0
    else
      var sa, sb := Signed(a), Signed(b);
      SignedWrap(TruncRem(sa, sb));
      Wrap(TruncRem(sa, sb))
  }

  /** `riscv_remu`: unsigned remainder; what the unsigned quotient leaves of the dividend. */
  function RiscvRemu(a: u32, b: u32): (r: u32)
    ensures b == 0 ==> r == a
    ensures b != 0 ==> r < b && RiscvDivu(a, b) * b + r == a
  {
    if b == 0 then a else a % b
  }

  /** Division by zero (Table 7.1): both quotients are all ones, both remainders are the dividend. */
  lemma DivisionByZero(a: u32)
    ensures RiscvDiv(a, 0) == ALL_ONES && RiscvDivu(a, 0) == ALL_ONES
    ensures RiscvRem(a, 0) == a && RiscvRemu(a, 0) == a
  {
  }

  /** Signed overflow (Table 7.1): INT32_MIN / -1 is INT32_MIN with remainder 0. */
  lemma SignedOverflow()
    ensures RiscvDiv(INT_MIN_BITS, ALL_ONES) == INT_MIN_BITS
    ensures RiscvRem(INT_MIN_BITS, ALL_ONES) == 0
    ensures Signed(INT_MIN_BITS) == -0x8000_0000 && Signed(ALL_ONES) == -1
  {
  }

  /** The unsigned quotient and remainder split the dividend exactly. */
  lemma UnsignedDivisionIdentity(a: u32, b: u32)
    requires b != 0
    ensures RiscvDivu(a, b) * b + RiscvRemu(a, b) == a
    ensures RiscvRemu(a, b) < b
    ensures RiscvDivu(a, b) <= a
  {
    DivAtMost(a, b);
  }

  /** C's truncating remainder is the remainder of the magnitudes, with the dividend's sign. */
  lemma TruncRemMagnitude(n: int, d: int)
    requires d != 0
    ensures n - TruncDiv(n, d) * d == (if n < 0 then -(Abs(n) % Abs(d)) else Abs(n) % Abs(d))
  {
    var m := Abs(n) / Abs(d);
    assert TruncDiv(n, d) == if (n < 0) == (d < 0) then m else -m;
    SignedQuotientRemainder(n, d, m);
  }

  /** The identity behind `TruncRemMagnitude`, for the sign-adjusted quotient of the magnitudes. */
  lemma SignedQuotientRemainder(n: int, d: int, m: int)
    requires d != 0 && m == Abs(n) / Abs(d)
    ensures var q := if (n < 0) == (d < 0) then m else -m;
      n - q * d == (if n < 0 then -(Abs(n) % Abs(d)) else Abs(n) % Abs(d))
  {
    var a, b := Abs(n), Abs(d);
    assert a == m * b + a % b;
    if n >= 0 && d < 0 {
      assert (-m) * d == m * b;
    } else if n < 0 && d > 0 {
      assert (-m) * d == -(m * b);
    } else if n < 0 && d < 0 {
      assert m * d == -(m * b);
    }
  }

  /** C's truncating division: the quotient's magnitude is the floor of the magnitudes'
      quotient, its sign is the product of the signs, and the remainder is smaller than the
      divisor and has the sign of the dividend. */
  lemma TruncDivision(n: int, d: int)
    requires d != 0
    ensures Abs(TruncDiv(n, d)) == Abs(n) / Abs(d)
    ensures TruncDiv(n, d) == 0 || ((TruncDiv(n, d) < 0) <==> ((n < 0) != (d < 0)))
    ensures TruncDiv(n, d) * d + TruncRem(n, d) == n
    ensures Abs(TruncRem(n, d)) < Abs(d)
    ensures TruncRem(n, d) == 0 || ((TruncRem(n, d) < 0) <==> (n < 0))
  {
    TruncRemMagnitude(n, d);
    DivAtMost(Abs(n), Abs(d));
    var m := Abs(n) % Abs(d);
    assert Abs(TruncRem(n, d)) == m;
  }

  /** Outside INT32_MIN / -1, the truncated quotient of two int32 values is an int32 value. */
  lemma QuotientFits(n: int, d: int)
    requires -0x8000_0000 <= n < 0x8000_0000 && -0x8000_0000 <= d < 0x8000_0000
    requires d != 0 && !(n == -0x8000_0000 && d == -1)
    ensures -0x8000_0000 <= TruncDiv(n, d) < 0x8000_0000
  {
    var a, b := Abs(n), Abs(d);
    var q := a / b;
    DivAtMost(a, b);
    assert a == q * b + a % b;
    if b >= 2 {
      MulMonotone(2, b, q);
    }
    assert q <= 0x8000_0000;
    if q == 0x8000_0000 {
      assert b == 1 && n == -0x8000_0000;
      assert d == 1;
      assert TruncDiv(n, d) == -0x8000_0000;
    } else {
      assert -0x8000_0000 < TruncDiv(n, d) < 0x8000_0000;
    }
  }

  /** Outside the divide-by-zero and overflow cases, the signed quotient and remainder
      satisfy the identity `q * b + r == a` on the signed readings, the quotient truncates
      toward zero and the remainder is zero or has the dividend's sign and is smaller in
      magnitude than the divisor. */
  lemma SignedDivisionIdentity(a: u32, b: u32)
    requires b != 0 && !(a == INT_MIN_BITS && b == ALL_ONES)
    ensures var q, r, sa, sb := Signed(RiscvDiv(a, b)), Signed(RiscvRem(a, b)), Signed(a), Signed(b);
      && q * sb + r == sa
      && Abs(q) == Abs(sa) / Abs(sb)
      && (q == 0 || ((q < 0) <==> ((sa < 0) != (sb < 0))))
      && Abs(r) < Abs(sb)
      && (r == 0 || ((r < 0) <==> (sa < 0)))
  {
    var sa, sb := Signed(a), Signed(b);
    assert sa == -0x8000_0000 ==> a == INT_MIN_BITS;
    assert sb == -1 ==> b == ALL_ONES;
    QuotientFits(sa, sb);
    TruncDivision(sa, sb);
    SignedWrap(TruncDiv(sa, sb));
    SignedWrap(TruncRem(sa, sb));
  }

  /** The expectations `main` writes as constants or as oracle calls, evaluated: they are the
      values Table 7.1 and truncating division give. */
  lemma MainExpectations()
    ensures RiscvDivu(10, 3) == 3 && RiscvRemu(10, 3) == 1
    ensures RiscvDivu(100, 10) == 10 && RiscvRemu(100, 10) == 0
    ensures RiscvDiv(Wrap(-10), 3) == 0xFFFF_FFFD && RiscvRem(Wrap(-10), 3) == Wrap(-1)
    ensures RiscvDiv(10, Wrap(-3)) == Wrap(-3) && RiscvRem(10, Wrap(-3)) == 1
    ensures RiscvDiv(Wrap(-10), Wrap(-3)) == 3 && RiscvRem(Wrap(-10), Wrap(-3)) == Wrap(-1)
    ensures RiscvDivu(42, 0) == ALL_ONES && RiscvRemu(42, 0) == 42
    ensures RiscvDiv(Wrap(-42), 0) == ALL_ONES && RiscvRem(Wrap(-42), 0) == Wrap(-42)
    ensures RiscvDiv(INT_MIN_BITS, ALL_ONES) == INT_MIN_BITS && RiscvRem(INT_MIN_BITS, ALL_ONES) == 0
    ensures RiscvRem(0x0eca_293d, 0xeca2_93d0) == 0x0eca_293d
    ensures RiscvDivu(0xf01b_3076, 0x69cc_592b) == 2
    ensures RiscvDivu(1, 2) == 0 && RiscvRemu(1, 2) == 1
    ensures RiscvDivu(100, 7) == 14 && RiscvDivu(200, 13) == 15
    ensures RiscvRem(0x1234_5678, 0xABCD) == 0x3dd8
  {
  }

  /** The low 32 bits of the products `main` multiplies, matching its constant expectations. */
  lemma MulExpectations()
    ensures Wrap(3 * 7) == 21
    ensures Wrap(Wrap(-3) * 7) == Wrap(-21)
    ensures Wrap(Wrap(-3) * Wrap(-7)) == 21
  {
  }
}
