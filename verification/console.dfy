/**
 * The console output helpers of the firmware header: `k10_puts`, `k10_put_hex` and
 * `k10_put_dec`. `k10_putchar` appends one character to the console stream, so each
 * helper is modelled as the stream it leaves behind.
 */
module K10Console {
  import opened Words
  import Hex

  /** `k10_putchar(c)`: the console keeps what it has shown and shows `c` after it. */
  function PutChar(out: string, c: char): (out': string)
    ensures |out'| == |out| + 1 && out'[..|out|] == out && out'[|out|] == c
  {
    out + [c]
  }

  /** The characters `k10_puts` sends for a C string: those before the first NUL (all of
      them when there is none). */
  function CString(s: string): (t: string)
    ensures |t| <= |s| && t == s[..|t|]
    ensures forall i :: 0 <= i < |t| ==> t[i] != '\0'
    ensures |t| < |s| ==> s[|t|] == '\0'
  {
    if s == [] || s[0] == '\0' then [] else [s[0]] + CString(s[1..])
  }

  /** `k10_puts(s)`. */
  method Puts(out: string, s: string) returns (out': string)
    ensures out' == out + CString(s)
  {
    out' := out;
    var i := 0;
    while i < |s| && s[i] != '\0'
      invariant 0 <= i <= |CString(s)|
      invariant out' == out + s[..i]
    {
      out' := PutChar(out', s[i]);
      i := i + 1;
      assert s[..i] == s[..i - 1] + [s[i - 1]];
    }
  }

  /** `k10_put_hex(val)`: "0x" and then the eight nibbles of `val`, from the one at bit 28
      down to the one at bit 0, each as a lower-case digit. */
  method PutHex(out: string, val: u32) returns (out': string)
    ensures |out'| == |out| + 10
    ensures out'[..|out|] == out && out'[|out|..|out| + 2] == "0x"
    ensures Hex.AllLowerDigits(out'[|out| + 2..]) && Hex.AllDigits(out'[|out| + 2..])
    ensures Hex.Value(out'[|out| + 2..]) == val
    ensures out'[|out| + 2..] == Hex.Format(val, 8)
  {
    out' := out + "0x";
    var i := 28;
    ghost var digits: string := [];
    assert Hex.Value(digits) == val / Pow2(i + 4) by {
      Pow2Word();
    }
    while i >= 0
      invariant 0 <= |digits| <= 8 && i == 28 - 4 * |digits|
      invariant out' == out + "0x" + digits
      invariant Hex.AllLowerDigits(digits) && Hex.AllDigits(digits)
      invariant Hex.Value(digits) == val / Pow2(i + 4)
    {
      var nibble := (val / Pow2(i)) % 16;
      var c := Hex.DigitChar(nibble);
      out' := PutChar(out', c);
      NibbleStep(val, i, digits);
      digits := digits + [c];
      i := i - 4;
    }
    assert Hex.Value(digits) == val;
    PutHexIsFormat(val, digits);
    PutHexDone(out, out', digits);
  }

  /** Appending the digit of the next nibble down extends the value read so far by it. */
  lemma NibbleStep(val: nat, i: nat, digits: string)
    requires Hex.AllLowerDigits(digits) && Hex.AllDigits(digits)
    requires Hex.Value(digits) == val / Pow2(i + 4)
    ensures var next := digits + [Hex.DigitChar((val / Pow2(i)) % 16)];
      Hex.AllLowerDigits(next) && Hex.AllDigits(next) && Hex.Value(next) == val / Pow2(i)
  {
    var nibble := (val / Pow2(i)) % 16;
    var next := digits + [Hex.DigitChar(nibble)];
    ShiftStep(val, i);
    Hex.DigitRoundTrip(nibble);
    assert next[..|next| - 1] == digits;
  }

  lemma PutHexDone(out: string, out': string, digits: string)
    requires out' == out + "0x" + digits && |digits| == 8
    ensures |out'| == |out| + 10
    ensures out'[..|out|] == out && out'[|out|..|out| + 2] == "0x"
    ensures out'[|out| + 2..] == digits
  {
  }

  /** Shifting by four more bits drops exactly the next nibble. */
  lemma ShiftStep(val: nat, i: nat)
    ensures val / Pow2(i + 4) * 16 + (val / Pow2(i)) % 16 == val / Pow2(i)
  {
    Pow2Add(i, 4);
    assert Pow2(4) == 16;
    DivDiv(val, Pow2(i), 16);
  }

  lemma DivDiv(x: nat, a: nat, b: nat)
    requires a > 0 && b > 0
    ensures x / (a * b) == (x / a) / b
  {
    var q := (x / a) / b;
    var r := (x / a) % b;
    assert x / a == q * b + r;
    assert x == (x / a) * a + x % a;
    assert x == q * (a * b) + (r * a + x % a) by {
      assert (q * b + r) * a == q * (a * b) + r * a;
    }
    MulMonotone(r, b - 1, a);
    assert r * a + x % a < a * b by {
      assert a * (b - 1) == a * b - a;
    }
    DivUnique(x, a * b, q, r * a + x % a);
  }

  /** Eight nibbles that read back as `val` are exactly Python's `format(val, "08x")`:
      the firmware's and the scripts' hex renderings of a word agree. */
  lemma PutHexIsFormat(val: u32, digits: string)
    requires |digits| == 8 && Hex.AllLowerDigits(digits) && Hex.AllDigits(digits)
    requires Hex.Value(digits) == val
    ensures digits == Hex.Format(val, 8)
  {
    Hex.Pow16Words();
    Hex.FormatWidth(val, 8);
    Hex.ValueFormat(val, 8);
    Hex.FixedWidthUnique(digits, Hex.Format(val, 8));
  }

  const DEC_DIGITS: string := "0123456789"

  function DecDigitValue(c: char): int
  {
    (c as int) - ('0' as int)
  }

  predicate AllDecDigits(s: string)
  {
    forall i :: 0 <= i < |s| ==> '0' <= s[i] <= '9'
  }

  /** The value of a decimal digit string, most significant digit first. */
  function DecValue(s: string): int
    requires AllDecDigits(s)
  {
    if s == [] then 0 else DecValue(s[..|s| - 1]) * 10 + DecDigitValue(s[|s| - 1])
  }

  /** The decimal digits of `v`, most significant first ("0" for zero). */
  function DecDigits(v: nat): (s: string)
    ensures 1 <= |s| && AllDecDigits(s)
  {
    if v < 10 then [DEC_DIGITS[v]] else DecDigits(v / 10) + [DEC_DIGITS[v % 10]]
  }

  function Pow10(n: nat): (p: nat)
    ensures p >= 1
  {
    if n == 0 then 1 else 10 * Pow10(n - 1)
  }

  lemma Pow10Ten()
    ensures Pow10(10) == 10_000_000_000
  {
    assert Pow10(1) == 10;
    assert Pow10(2) == 100;
    assert Pow10(3) == 1000;
    assert Pow10(4) == 10_000;
    assert Pow10(5) == 100_000;
    assert Pow10(6) == 1_000_000;
    assert Pow10(7) == 10_000_000;
    assert Pow10(8) == 100_000_000;
    assert Pow10(9) == 1_000_000_000;
  }

  /** Decimal digits read back as the number, start with a non-zero digit unless the number
      is zero, and a number below 10^n needs at most n of them. */
  lemma {:induction false} DecDigitsFacts(v: nat, n: nat)
    requires 1 <= n && v < Pow10(n)
    ensures DecValue(DecDigits(v)) == v
    ensures v > 0 ==> DecDigits(v)[0] != '0'
    ensures |DecDigits(v)| <= n
  {
    if v >= 10 {
      DecDigitsFacts(v / 10, n - 1);
      var s := DecDigits(v);
      assert s[..|s| - 1] == DecDigits(v / 10);
    }
  }

  /** `k10_put_dec(val)`: "0" for zero; otherwise the digits are produced least significant
      first into an 11-character buffer and sent back to front. At most ten digits are
      stored, so the buffer index never leaves the buffer. */
  method PutDec(out: string, val: u32) returns (out': string)
    ensures out' == out + DecDigits(val)
    ensures |DecDigits(val)| <= 10
    ensures DecValue(out'[|out|..]) == val
    ensures val > 0 ==> out'[|out|] != '0'
  {
    if val == 0 {
      out' := PutChar(out, '0');
      PutDecDone(out, out', val);
      return;
    }
    var buf, i := StoreDigits(val);
    ghost var digits := DecDigits(val);
    out' := out;
    ghost var n := i;
    while i > 0
      invariant 0 <= i <= n
      invariant out' == out + digits[..n - i]
    {
      i := i - 1;
      out' := PutChar(out', buf[i]);
      assert digits[..n - i] == digits[..n - i - 1] + [digits[n - 1 - i]];
    }
    assert digits[..n] == digits;
    PutDecDone(out, out', val);
  }

  /** The first loop of `k10_put_dec`: the digits of a positive `val`, least significant
      first, stored at indices 0, 1, ... of the 11-character buffer. Only the first ten
      slots are ever written. */
  method StoreDigits(val: u32) returns (buf: seq<char>, count: nat)
    requires val > 0
    ensures |buf| == 11 && count == |DecDigits(val)| && count <= 10
    ensures forall k :: 0 <= k < count ==> buf[k] == DecDigits(val)[count - 1 - k]
  {
    buf := seq(11, _ => '\0');
    count := 0;
    var v: nat := val;
    ghost var produced: string := [];
    assert v < Pow10(10 - count) by {
      Pow10Ten();
    }
    while v > 0
      invariant 0 <= count <= 10 && |produced| == count
      invariant v < Pow10(10 - count)
      invariant |buf| == 11
      invariant forall k :: 0 <= k < count ==> buf[k] == produced[count - 1 - k]
      invariant v > 0 ==> DecDigits(val) == DecDigits(v) + produced
      invariant v == 0 ==> DecDigits(val) == produced
    {
      DigitRoom(v, count);
      var d := DEC_DIGITS[v % 10];
      DigitsAfterStep(val, v, produced);
      StoreStep(buf, produced, count, d, buf[count := d], [d] + produced);
      buf := buf[count := d];
      produced := [d] + produced;
      count := count + 1;
      v := v / 10;
    }
  }

  /** A positive value below 10^(10-count) leaves room for one more digit, and dropping
      that digit keeps the quotient below 10^(10-count-1). */
  lemma DigitRoom(v: nat, count: nat)
    requires count <= 10 && 0 < v < Pow10(10 - count)
    ensures count < 10 && v / 10 < Pow10(10 - (count + 1))
  {
    assert Pow10(0) == 1;
    assert Pow10(10 - count) == 10 * Pow10(10 - (count + 1));
  }

  /** Writing the next digit at index `count` keeps the buffer the reverse of the digits
      produced so far. */
  lemma StoreStep(buf: seq<char>, produced: string, count: nat, d: char, buf': seq<char>, produced': string)
    requires count < |buf| && |produced| == count
    requires forall k :: 0 <= k < count ==> buf[k] == produced[count - 1 - k]
    requires buf' == buf[count := d] && produced' == [d] + produced
    ensures forall k :: 0 <= k < count + 1 ==> buf'[k] == produced'[count - k]
  {
  }

  /** Storing the lowest digit of `v` moves it from the digits still to produce to the
      front of those produced. */
  lemma DigitsAfterStep(val: nat, v: nat, produced: string)
    requires v > 0 && DecDigits(val) == DecDigits(v) + produced
    ensures v / 10 > 0 ==> DecDigits(val) == DecDigits(v / 10) + ([DEC_DIGITS[v % 10]] + produced)
    ensures v / 10 == 0 ==> DecDigits(val) == [DEC_DIGITS[v % 10]] + produced
  {
    DecStep(v);
  }

  lemma DecStep(v: nat)
    requires v > 0
    ensures DecDigits(v) == (if v < 10 then [] else DecDigits(v / 10)) + [DEC_DIGITS[v % 10]]
  {
  }

  lemma PutDecDone(out: string, out': string, val: u32)
    requires out' == out + DecDigits(val)
    ensures |DecDigits(val)| <= 10
    ensures DecValue(out'[|out|..]) == val
    ensures val > 0 ==> out'[|out|] != '0'
  {
    Pow10Ten();
    DecDigitsFacts(val, 10);
    assert out'[|out|..] == DecDigits(val);
  }
}
