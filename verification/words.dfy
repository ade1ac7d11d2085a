/**
 * 32-bit words, bytes and their little-endian packing.
 *
 * A 32-bit register or C `uint32_t` is modelled as an integer in [0, 2^32);
 * a right shift of an unsigned value by `n` is the division by 2^n it equals,
 * and a C cast to `uint32_t` is reduction modulo 2^32.
 */
module Words {

  const WORD_MOD: int := 0x1_0000_0000
  /** The bit pattern of INT32_MIN. */
  const INT_MIN_BITS: int := 0x8000_0000
  /** The bit pattern of -1, also the "all ones" divide-by-zero quotient. */
  const ALL_ONES: int := 0xFFFF_FFFF

  type u32 = x: int | 0 <= x < 0x1_0000_0000
  type byte = x: int | 0 <= x < 0x100

  function Pow2(n: nat): (p: nat)
    ensures p >= 1
  {
    if n == 0 then 1 else 2 * Pow2(n - 1)
  }

  lemma {:induction false} Pow2Add(m: nat, n: nat)
    ensures Pow2(m + n) == Pow2(m) * Pow2(n)
  {
    if n > 0 {
      Pow2Add(m, n - 1);
      assert Pow2(m + n) == 2 * Pow2(m + n - 1);
    }
  }

  lemma MulAtLeast(k: int, d: int)
    requires k >= 1 && d > 0
    ensures k * d >= d
  {
    assert k * d == (k - 1) * d + d;
    assert (k - 1) * d >= 0;
  }

  lemma MulMonotone(x: nat, y: nat, k: nat)
    requires x <= y
    ensures k * x <= k * y
  {
    assert k * y == k * x + k * (y - x);
    assert k * (y - x) >= 0;
  }

  /** Quotient and remainder are determined by `x == q * d + r` with `0 <= r < d`. */
  lemma DivUnique(x: int, d: int, q: int, r: int)
    requires d > 0 && 0 <= r < d && x == q * d + r
    ensures x / d == q && x % d == r
  {
    var q', r' := x / d, x % d;
    assert x == q' * d + r';
    assert (q - q') * d == r' - r;
    if q > q' { MulAtLeast(q - q', d); }
    if q < q' { MulAtLeast(q' - q, d); }
  }

  /** A quotient of a natural number is no larger than the number. */
  lemma DivAtMost(a: nat, b: int)
    requires b > 0
    ensures 0 <= a / b <= a
  {
    var q := a / b;
    assert a == q * b + a % b;
    if q >= 1 {
      MulAtLeast(b, q);
      assert b * q == q * b;
    }
  }

  lemma Pow2Word()
    ensures Pow2(4) == 16 && Pow2(8) == 0x100 && Pow2(32) == WORD_MOD
  {
    assert Pow2(4) == 16;
    assert Pow2(8) == 0x100;
    Pow2Add(8, 8);
    Pow2Add(16, 16);
  }

  /** The two's-complement reading of a 32-bit pattern (a C cast to `int32_t`). */
  function Signed(x: u32): (s: int)
    ensures -0x8000_0000 <= s < 0x8000_0000
    ensures (s < 0) <==> (x >= INT_MIN_BITS)
    ensures s % WORD_MOD == x
  {
    if x < INT_MIN_BITS then x else x - WORD_MOD
  }

  /** Any integer converted to `uint32_t`: its residue modulo 2^32. */
  function Wrap(v: int): (w: u32)
    ensures (v - w) % WORD_MOD == 0
  {
    v % WORD_MOD
  }

  /** Reading a pattern as signed and converting back gives the pattern. */
  lemma WrapSigned(x: u32)
    ensures Wrap(Signed(x)) == x
  {
  }

  /** Every value of the int32 range has exactly one pattern, and reading it back gives the value. */
  lemma SignedWrap(s: int)
    requires -0x8000_0000 <= s < 0x8000_0000
    ensures Signed(Wrap(s)) == s
  {
  }

  /** The little-endian word of four bytes: b0 is the least significant. */
  function PackLE(b0: byte, b1: byte, b2: byte, b3: byte): u32
  {
    b0 + 0x100 * b1 + 0x1_0000 * b2 + 0x100_0000 * b3
  }

  /** The four bytes of a word, least significant first. */
  function UnpackLE(w: u32): (bs: seq<byte>)
    ensures |bs| == 4
  {
    [w % 0x100, (w / 0x100) % 0x100, (w / 0x100 / 0x100) % 0x100, w / 0x100 / 0x100 / 0x100]
  }

  lemma UnpackPack(b0: byte, b1: byte, b2: byte, b3: byte)
    ensures UnpackLE(PackLE(b0, b1, b2, b3)) == [b0, b1, b2, b3]
  {
    var w := PackLE(b0, b1, b2, b3);
    DivUnique(w, 0x100, b1 + 0x100 * b2 + 0x1_0000 * b3, b0);
    DivUnique(w / 0x100, 0x100, b2 + 0x100 * b3, b1);
    DivUnique(w / 0x100 / 0x100, 0x100, b3, b2);
  }

  lemma PackUnpack(w: u32)
    ensures var bs := UnpackLE(w); PackLE(bs[0], bs[1], bs[2], bs[3]) == w
  {
  }

  /** `xs` with zeros appended until its length is a multiple of 4, one at a time, as the
      padding loops of the hex converters do. */
  function PadToWord<T>(xs: seq<T>, zero: T): (padded: seq<T>)
    ensures |padded| % 4 == 0
    ensures |xs| <= |padded| < |xs| + 4
    ensures padded[..|xs|] == xs
    ensures forall i :: |xs| <= i < |padded| ==> padded[i] == zero
    decreases (4 - |xs| % 4) % 4
  {
    if |xs| % 4 == 0 then xs else PadToWord(xs + [zero], zero)
  }

  /** The number of words a sequence of `n` bytes occupies: ceil(n / 4). */
  function WordCount(n: nat): nat
  {
    (n + 3) / 4
  }

  /** Padding to whole words leaves exactly `WordCount` words. */
  lemma PaddedWordCount<T>(xs: seq<T>, zero: T)
    ensures |PadToWord(xs, zero)| == 4 * WordCount(|xs|)
  {
    var n := |PadToWord(xs, zero)|;
    DivUnique(|xs| + 3, 4, n / 4, |xs| + 3 - n);
  }

  /** The little-endian words of a byte sequence whose length is a multiple of 4. */
  function PackWords(p: seq<byte>): (ws: seq<u32>)
    requires |p| % 4 == 0
    ensures |ws| == |p| / 4
    ensures forall i :: 0 <= i < |ws| ==> ws[i] == PackLE(p[4 * i], p[4 * i + 1], p[4 * i + 2], p[4 * i + 3])
  {
    if p == [] then [] else [PackLE(p[0], p[1], p[2], p[3])] + PackWords(p[4..])
  }

  /** The bytes of a sequence of words, each word least significant byte first. */
  function UnpackWords(ws: seq<u32>): (p: seq<byte>)
    ensures |p| == 4 * |ws|
  {
    if ws == [] then [] else UnpackLE(ws[0]) + UnpackWords(ws[1..])
  }

  /** Splitting packed words back into bytes gives the bytes. */
  lemma {:induction false} UnpackPackWords(p: seq<byte>)
    requires |p| % 4 == 0
    ensures UnpackWords(PackWords(p)) == p
  {
    if p != [] {
      UnpackPack(p[0], p[1], p[2], p[3]);
      UnpackPackWords(p[4..]);
      assert PackWords(p)[1..] == PackWords(p[4..]);
      assert p == p[..4] + p[4..];
    }
  }

  /** Packing the bytes of words gives the words back. */
  lemma {:induction false} PackUnpackWords(ws: seq<u32>)
    ensures PackWords(UnpackWords(ws)) == ws
  {
    if ws != [] {
      PackUnpack(ws[0]);
      PackUnpackWords(ws[1..]);
      var p := UnpackWords(ws);
      assert p[4..] == UnpackWords(ws[1..]);
      assert ws == [ws[0]] + ws[1..];
    }
  }
}
