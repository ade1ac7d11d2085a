/**
 * Hexadecimal text: Python's `'{:0Nx}'.format(v)` / `f"{v:0Nx}"` (lower-case digits,
 * zero-padded to at least N characters) and `int(s, 16)`.
 */
module Hex {
  import opened Wrappers
  import Text

  const LOWER_DIGITS: string := "0123456789abcdef"

  function DigitChar(d: nat): (c: char)
    requires d < 16
    ensures IsLowerDigit(c)
  {
    LOWER_DIGITS[d]
  }

  /** A digit Python prints: 0-9 or a-f. */
  predicate IsLowerDigit(c: char)
  {
    ('0' <= c <= '9') || ('a' <= c <= 'f')
  }

  /** A digit `int(_, 16)` accepts: 0-9, a-f or A-F. */
  predicate IsDigit(c: char)
  {
    ('0' <= c <= '9') || ('a' <= c <= 'f') || ('A' <= c <= 'F')
  }

  predicate AllDigits(s: string)
  {
    forall i :: 0 <= i < |s| ==> IsDigit(s[i])
  }

  predicate AllLowerDigits(s: string)
  {
    forall i :: 0 <= i < |s| ==> IsLowerDigit(s[i])
  }

  function DigitValue(c: char): (d: nat)
    requires IsDigit(c)
    ensures d < 16
  {
    if '0' <= c <= '9' then (c as int) - ('0' as int)
    else if 'a' <= c <= 'f' then (c as int) - ('a' as int) + 10
    else (c as int) - ('A' as int) + 10
  }

  /** Printing a digit and reading it back gives the digit; a printed digit is
      determined by its value. */
  lemma DigitRoundTrip(d: nat)
    requires d < 16
    ensures DigitValue(DigitChar(d)) == d
  {
  }

  lemma LowerDigitUnique(c: char, c': char)
    requires IsLowerDigit(c) && IsLowerDigit(c')
    ensures DigitValue(c) == DigitValue(c') ==> c == c'
  {
  }

  /** The value of a digit string, most significant digit first. */
  function Value(s: string): nat
    requires AllDigits(s)
  {
    if s == [] then 0 else Value(s[..|s| - 1]) * 16 + DigitValue(s[|s| - 1])
  }

  /** The shortest hex representation of `v` ("0" for zero), most significant digit first. */
  function Digits(v: nat): (s: string)
    ensures 1 <= |s|
    ensures AllLowerDigits(s) && AllDigits(s)
  {
    if v < 16 then [DigitChar(v)] else Digits(v / 16) + [DigitChar(v % 16)]
  }

  function Zeros(n: nat): (z: string)
    ensures |z| == n && forall i :: 0 <= i < n ==> z[i] == '0'
  {
    seq(n, _ => '0')
  }

  /** `format(v, "0{width}x")`: the digits of `v`, left-padded with '0' to `width`. */
  function Format(v: nat, width: nat): (s: string)
    ensures |s| >= width
    ensures AllLowerDigits(s) && AllDigits(s)
  {
    var d := Digits(v);
    if |d| < width then Zeros(width - |d|) + d else d
  }

  /** `int(s, 16)` for a string that is, after surrounding whitespace, a non-empty run of
      hex digits; anything else is a ValueError. */
  function Parse(s: string): (r: Option<nat>)
    ensures r.Some? <==> (Text.Strip(s) != [] && AllDigits(Text.Strip(s)))
  {
    var t := Text.Strip(s);
    if t != [] && AllDigits(t) then Some(Value(t)) else None
  }

  function Pow16(n: nat): (p: nat)
    ensures p >= 1
  {
    if n == 0 then 1 else 16 * Pow16(n - 1)
  }

  /** Reading back the shortest digits gives the number. */
  lemma {:induction false} ValueDigits(v: nat)
    ensures Value(Digits(v)) == v
  {
    if v >= 16 {
      ValueDigits(v / 16);
      var s := Digits(v);
      assert s[..|s| - 1] == Digits(v / 16);
    }
  }

  /** Leading zeros do not change the value. */
  lemma {:induction false} ValueZerosPrefix(n: nat, s: string)
    requires AllDigits(s)
    ensures Value(Zeros(n) + s) == Value(s)
  {
    if s == [] {
      assert Zeros(n) + s == Zeros(n);
      ValueZeros(n);
    } else {
      var t := Zeros(n) + s;
      assert t[..|t| - 1] == Zeros(n) + s[..|s| - 1];
      ValueZerosPrefix(n, s[..|s| - 1]);
    }
  }

  lemma {:induction false} ValueZeros(n: nat)
    ensures Value(Zeros(n)) == 0
  {
    if n > 0 {
      assert Zeros(n)[..n - 1] == Zeros(n - 1);
      ValueZeros(n - 1);
    }
  }

  /** Round trip: reading back a formatted number gives the number, whatever the width. */
  lemma ValueFormat(v: nat, width: nat)
    ensures Value(Format(v, width)) == v
  {
    var d := Digits(v);
    ValueDigits(v);
    if |d| < width {
      ValueZerosPrefix(width - |d|, d);
    }
  }

  /** Round trip through `int(_, 16)`. */
  lemma ParseFormat(v: nat, width: nat)
    ensures Parse(Format(v, width)) == Some(v)
  {
    var s := Format(v, width);
    NoSpaceStrip(s);
    ValueFormat(v, width);
  }

  lemma NoSpaceStrip(s: string)
    requires s != [] && AllDigits(s)
    ensures Text.Strip(s) == s
  {
    assert !Text.IsSpace(s[0]);
    assert Text.StripLeft(s) == s;
    assert !Text.IsSpace(s[|s| - 1]);
  }

  /** A number below 16^n needs at most n digits. */
  lemma {:induction false} DigitsLength(v: nat, n: nat)
    requires 1 <= n && v < Pow16(n)
    ensures |Digits(v)| <= n
  {
    if v >= 16 {
      DigitsLength(v / 16, n - 1);
    }
  }

  /** A number below 16^width is printed in exactly `width` digits. */
  lemma FormatWidth(v: nat, width: nat)
    requires 1 <= width && v < Pow16(width)
    ensures |Format(v, width)| == width
  {
    DigitsLength(v, width);
  }

  /** Two lower-case digit strings of equal length and equal value are equal:
      a fixed-width representation is unique. */
  lemma {:induction false} FixedWidthUnique(s: string, t: string)
    requires |s| == |t| && AllLowerDigits(s) && AllLowerDigits(t)
    requires AllDigits(s) && AllDigits(t)
    requires Value(s) == Value(t)
    ensures s == t
  {
    if s != [] {
      var n := |s| - 1;
      LowerDigitUnique(s[n], t[n]);
      assert s[..n] == t[..n] by {
        FixedWidthUnique(s[..n], t[..n]);
      }
      assert s == s[..n] + [s[n]];
      assert t == t[..n] + [t[n]];
    }
  }

  lemma Pow16Words()
    ensures Pow16(8) == 0x1_0000_0000
  {
  }

  /** One `format(w, "08x")` line per word. */
  function FormatWords(ws: seq<nat>): (lines: seq<string>)
    ensures |lines| == |ws|
    ensures forall i :: 0 <= i < |ws| ==> lines[i] == Format(ws[i], 8)
  {
    if ws == [] then [] else [Format(ws[0], 8)] + FormatWords(ws[1..])
  }

  /** `[int(l, 16) for l in lines]`; `None` if any line is not a hex number. */
  function ParseAll(lines: seq<string>): (r: Option<seq<nat>>)
    ensures r.Some? ==> |r.value| == |lines|
    ensures r.Some? ==> forall i :: 0 <= i < |lines| ==> Parse(lines[i]) == Some(r.value[i])
    ensures r.None? ==> exists i :: 0 <= i < |lines| && Parse(lines[i]).None?
  {
    if lines == [] then Some([])
    else
      match Parse(lines[0])
      case None => None
      case Some(v) =>
        match ParseAll(lines[1..])
        case None => None
        case Some(vs) => Some([v] + vs)
  }

  /** Reading back formatted words gives the words. */
  lemma {:induction false} ParseFormatWords(ws: seq<nat>)
    ensures ParseAll(FormatWords(ws)) == Some(ws)
  {
    if ws != [] {
      ParseFormat(ws[0], 8);
      ParseFormatWords(ws[1..]);
      assert FormatWords(ws)[1..] == FormatWords(ws[1..]);
      assert ws == [ws[0]] + ws[1..];
    }
  }
}
