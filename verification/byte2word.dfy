/**
 * scripts/verilog_byte2word.py: re-packs the byte-addressed Verilog hex
 * that `objcopy -O verilog` writes into the 32-bit word lines that
 * `$readmemh` expects for a word-wide memory.
 *
 * The file is read as lines: blank lines are skipped, `@addr` lines set
 * the byte address of the bytes that follow, and every other line holds
 * whitespace-separated hex bytes. Bytes accumulate until the next address
 * line or the end of the file, and are then flushed as one `@word_addr`
 * line followed by one 8-digit little-endian word per four bytes.
 *
 * `None` stands for the `ValueError` that `int(tok, 16)` raises on a
 * malformed token: the script stops and writes no output file.
 */
module VerilogByte2Word {
  import opened Wrappers
  import opened Words
  import Text
  import Hex

  /** Python's `|` on non-negative integers, bit by bit from the least significant. */
  function BitOr(x: nat, y: nat): (r: nat)
    ensures x <= r && y <= r && r <= x + y
    decreases x + y
  {
    if x == 0 then y
    else if y == 0 then x
    else 2 * BitOr(x / 2, y / 2) + (if x % 2 == 1 || y % 2 == 1 then 1 else 0)
  }

  /** Or-ing a value below 2^k with a multiple of 2^k is addition: the bits do not overlap. */
  lemma {:induction false} OrDisjoint(x: nat, y: nat, k: nat)
    requires x < Pow2(k)
    ensures BitOr(x, y * Pow2(k)) == x + y * Pow2(k)
  {
    if k == 0 {
      assert x == 0;
    } else if x != 0 && y != 0 {
      var h := Pow2(k - 1);
      assert y * Pow2(k) == 2 * (y * h);
      assert (y * Pow2(k)) / 2 == y * h;
      assert (y * Pow2(k)) % 2 == 0;
      assert x / 2 < h;
      OrDisjoint(x / 2, y, k - 1);
    }
  }

  /** `buf[i] | (buf[i+1] << 8) | (buf[i+2] << 16) | (buf[i+3] << 24)` for the `i`-th group of
    * four: at least the top token's shifted value and at most the little-endian sum, which
    * it equals when the tokens are bytes (`WordAtIsPackLE`). */
  function WordAt(p: seq<nat>, i: nat): (w: nat)
    requires 4 * i + 3 < |p|
    ensures p[4 * i + 3] * 0x100_0000 <= w
    ensures w <= p[4 * i] + p[4 * i + 1] * 0x100 + p[4 * i + 2] * 0x1_0000 + p[4 * i + 3] * 0x100_0000
  {
    BitOr(BitOr(BitOr(p[4 * i], p[4 * i + 1] * 0x100), p[4 * i + 2] * 0x1_0000), p[4 * i + 3] * 0x100_0000)
  }

  /** When every token is a byte, the or-ed word is the little-endian packing of its four bytes. */
  lemma WordAtIsPackLE(p: seq<byte>, i: nat)
    requires 4 * i + 3 < |p|
    ensures WordAt(p, i) == PackLE(p[4 * i], p[4 * i + 1], p[4 * i + 2], p[4 * i + 3])
  {
    Pow2Word();
    Pow2Add(8, 8);
    Pow2Add(16, 8);
    var b0: nat, b1: nat, b2: nat, b3: nat := p[4 * i], p[4 * i + 1], p[4 * i + 2], p[4 * i + 3];
    OrDisjoint(b0, b1, 8);
    OrDisjoint(b0 + b1 * 0x100, b2, 16);
    OrDisjoint(b0 + b1 * 0x100 + b2 * 0x1_0000, b3, 24);
  }

  /** The word lines of a padded buffer, one per group of four tokens. */
  function WordLines(p: seq<nat>): (lines: seq<string>)
    requires |p| % 4 == 0
    ensures |lines| == |p| / 4
    ensures forall i :: 0 <= i < |lines| ==> lines[i] == Hex.Format(WordAt(p, i), 8)
  {
    if p == [] then []
    else
      var rest := WordLines(p[4..]);
      assert forall i :: 0 <= i < |rest| ==> WordAt(p[4..], i) == WordAt(p, i + 1) by {
        forall i | 0 <= i < |rest| {
          WordAtTail(p, i);
        }
      }
      [Hex.Format(WordAt(p, 0), 8)] + rest
  }

  /** Dropping the first four tokens shifts the word indices down by one. */
  lemma WordAtTail(p: seq<nat>, i: nat)
    requires 4 * i + 7 < |p|
    ensures WordAt(p[4..], i) == WordAt(p, i + 1)
  {
    var q := p[4..];
    assert q[4 * i] == p[4 * (i + 1)] && q[4 * i + 1] == p[4 * (i + 1) + 1];
    assert q[4 * i + 2] == p[4 * (i + 1) + 2] && q[4 * i + 3] == p[4 * (i + 1) + 3];
  }

  /** `flush(buf, start_addr)`: pad with zero tokens to a multiple of four, then one
    * `@` line holding the word address and one line per word. */
  function Flush(buf: seq<nat>, startAddr: nat): (lines: seq<string>)
    ensures |lines| == 1 + WordCount(|buf|)
    ensures lines[0] == "@" + Hex.Format(startAddr / 4, 8)
    ensures lines[1..] == WordLines(PadToWord(buf, 0))
  {
    var padded := PadToWord(buf, 0);
    PaddedWordCount(buf, 0);
    var header := "@" + Hex.Format(startAddr / 4, 8);
    var words := WordLines(padded);
    assert ([header] + words)[1..] == words;
    [header] + words
  }

  /** For byte tokens the word lines are the formatted little-endian words of the padded buffer. */
  lemma FlushBytes(buf: seq<byte>, startAddr: nat)
    ensures Flush(buf, startAddr)[1..] == Hex.FormatWords(PackWords(PadToWord(buf, 0)))
  {
    var padded: seq<byte> := PadToWord(buf, 0);
    var tokens: seq<nat> := PadToWord<nat>(buf, 0);
    assert tokens == padded by {
      PadToWordSame(buf);
    }
    PaddedWordCount(buf, 0);
    var words := Flush(buf, startAddr)[1..];
    var expected := Hex.FormatWords(PackWords(padded));
    assert |words| == |expected|;
    forall i | 0 <= i < |words|
      ensures words[i] == expected[i]
    {
      WordAtIsPackLE(padded, i);
    }
  }

  lemma {:induction false} PadToWordSame(buf: seq<byte>)
    ensures PadToWord<nat>(buf, 0) == PadToWord<byte>(buf, 0)
    decreases (4 - |buf| % 4) % 4
  {
    if |buf| % 4 != 0 {
      PadToWordSame(buf + [0]);
    }
  }

  /** Reading a flushed segment back, as `$readmemh` does, recovers its word address and
    * its bytes followed by fewer than four zero bytes of padding. */
  lemma FlushRoundTrip(buf: seq<byte>, startAddr: nat)
    ensures Flush(buf, startAddr)[0][0] == '@'
    ensures Hex.Parse(Flush(buf, startAddr)[0][1..]) == Some(startAddr / 4)
    ensures Hex.ParseAll(Flush(buf, startAddr)[1..]) == Some(PackWords(PadToWord(buf, 0)))
    ensures UnpackWords(PackWords(PadToWord(buf, 0)))[..|buf|] == buf
    ensures forall i :: |buf| <= i < 4 * WordCount(|buf|) ==> UnpackWords(PackWords(PadToWord(buf, 0)))[i] == 0
  {
    FlushHeader(buf, startAddr);
    FlushWords(buf, startAddr);
    PaddedWordCount(buf, 0);
    UnpackPackWords(PadToWord(buf, 0));
  }

  lemma FlushHeader(buf: seq<nat>, startAddr: nat)
    ensures Flush(buf, startAddr)[0][0] == '@'
    ensures Hex.Parse(Flush(buf, startAddr)[0][1..]) == Some(startAddr / 4)
  {
    var header := Flush(buf, startAddr)[0];
    assert header[1..] == Hex.Format(startAddr / 4, 8);
    Hex.ParseFormat(startAddr / 4, 8);
  }

  lemma FlushWords(buf: seq<byte>, startAddr: nat)
    ensures Hex.ParseAll(Flush(buf, startAddr)[1..]) == Some(PackWords(PadToWord(buf, 0)))
  {
    FlushBytes(buf, startAddr);
    Hex.ParseFormatWords(PackWords(PadToWord(buf, 0)));
  }

  /** One input line, classified as the loop body of `convert` sees it. */
  datatype Line = Blank | Address(byteAddr: nat) | Bytes(values: seq<nat>)

  /** Strip the line; empty is blank, a leading `@` makes an address line, anything
    * else is a list of hex byte tokens. `None` if a number does not parse. */
  function ClassifyLine(raw: string): (r: Option<Line>)
    ensures Text.Strip(raw) == [] ==> r == Some(Blank)
    ensures r.Some? && r.value.Address? <==>
              Text.Strip(raw) != [] && Text.Strip(raw)[0] == '@' && Hex.Parse(Text.Strip(raw)[1..]).Some?
    ensures r.Some? && r.value.Address? ==> Hex.Parse(Text.Strip(raw)[1..]) == Some(r.value.byteAddr)
    ensures r.Some? && r.value.Bytes? ==>
              Text.Strip(raw) != [] && Text.Strip(raw)[0] != '@' &&
              Hex.ParseAll(Text.Tokens(Text.Strip(raw))) == Some(r.value.values)
    ensures r == Some(Blank) ==> Text.Strip(raw) == []
    ensures Text.Strip(raw) != [] && Text.Strip(raw)[0] != '@' ==>
              (r.Some? <==> Hex.ParseAll(Text.Tokens(Text.Strip(raw))).Some?) && (r.Some? ==> r.value.Bytes?)
  {
    var line := Text.Strip(raw);
    if line == [] then Some(Blank)
    else if line[0] == '@' then
      var a :- Hex.Parse(line[1..]);
      Some(Address(a))
    else
      var vs :- Hex.ParseAll(Text.Tokens(line));
      Some(Bytes(vs))
  }

  /** Classifies every line; `None` as soon as one is malformed. */
  function ClassifyAll(raws: seq<string>): (r: Option<seq<Line>>)
    ensures r.Some? ==> |r.value| == |raws|
    ensures r.Some? ==> forall i :: 0 <= i < |raws| ==> ClassifyLine(raws[i]) == Some(r.value[i])
    ensures r.None? ==> exists i :: 0 <= i < |raws| && ClassifyLine(raws[i]).None?
  {
    if raws == [] then Some([])
    else
      match ClassifyLine(raws[0])
      case None => None
      case Some(l) =>
        match ClassifyAll(raws[1..])
        case None => None
        case Some(ls) => Some([l] + ls)
  }

  /** The local state of `convert`: lines written so far, the current byte address and the
    * tokens not yet flushed. */
  datatype Converter = Converter(out: seq<string>, byteAddr: nat, pending: seq<nat>)

  const START := Converter([], 0, [])

  /** The output lines with the pending tokens flushed, if there are any. */
  function Emit(c: Converter): (out: seq<string>)
    ensures c.pending == [] ==> out == c.out
    ensures c.pending != [] ==> |out| == |c.out| + 1 + WordCount(|c.pending|) && out[..|c.out|] == c.out
  {
    if c.pending != [] then c.out + Flush(c.pending, c.byteAddr) else c.out
  }

  /** One iteration of the line loop. */
  function Step(c: Converter, line: Line): (c': Converter)
    ensures line.Blank? ==> c' == c
    ensures line.Address? ==> c'.pending == [] && c'.byteAddr == line.byteAddr && c'.out == Emit(c)
    ensures line.Bytes? ==> c'.out == c.out && c'.byteAddr == c.byteAddr && c'.pending == c.pending + line.values
  {
    match line
    case Blank => c
    case Address(a) => Converter(Emit(c), a, [])
    case Bytes(vs) => c.(pending := c.pending + vs)
  }

  /** The line loop, from the first line to the last. */
  function Feed(c: Converter, lines: seq<Line>): (r: Converter)
    ensures c.out <= r.out
    ensures (forall i :: 0 <= i < |lines| ==> lines[i].Blank?) ==> r == c
    decreases |lines|
  {
    if lines == [] then c
    else
      var before := Feed(c, lines[..|lines| - 1]);
      assert forall i :: 0 <= i < |lines| - 1 ==> lines[..|lines| - 1][i] == lines[i];
      Step(before, lines[|lines| - 1])
  }

  /** The loop over two pieces of input is the loop over the second started where the
    * loop over the first stopped. */
  lemma {:induction false} FeedAppend(c: Converter, a: seq<Line>, b: seq<Line>)
    ensures Feed(c, a + b) == Feed(Feed(c, a), b)
    decreases |b|
  {
    if b == [] {
      assert a + b == a;
    } else {
      FeedAppend(c, a, b[..|b| - 1]);
      assert (a + b)[..|a + b| - 1] == a + b[..|b| - 1];
      assert (a + b)[|a + b| - 1] == b[|b| - 1];
    }
  }

  /** `convert` on the file's text: the text written to the output file, or `None`
    * when a line is malformed and nothing is written. */
  function Convert(content: string): (r: Option<string>)
    ensures r.Some? <==> ClassifyAll(Text.Split(Text.Strip(content), '\n')).Some?
  {
    ConvertLines(Text.Split(Text.Strip(content), '\n'))
  }

  /** The line loop and the final flush over the lines of the stripped text. */
  function ConvertLines(raws: seq<string>): (r: Option<string>)
    ensures r.Some? <==> ClassifyAll(raws).Some?
  {
    var lines :- ClassifyAll(raws);
    Some(Text.Join(Emit(Feed(START, lines)), "\n") + "\n")
  }

  /** A run of bytes that follow one address: the unit the script flushes. */
  datatype Segment = Segment(addr: nat, bytes: seq<nat>)

  /** Reference reading of an input: its segments in order. The first starts at byte
    * address 0, every address line opens a new one, every byte line extends the latest. */
  function Segments(lines: seq<Line>): (segs: seq<Segment>)
    ensures |segs| >= 1
    decreases |lines|
  {
    if lines == [] then [Segment(0, [])]
    else NextSegments(Segments(lines[..|lines| - 1]), lines[|lines| - 1])
  }

  /** The segments after one more line. */
  function NextSegments(segs: seq<Segment>, line: Line): (segs': seq<Segment>)
    requires |segs| >= 1
    ensures |segs'| >= 1
  {
    var last := segs[|segs| - 1];
    match line
    case Blank => segs
    case Address(a) => segs + [Segment(a, [])]
    case Bytes(vs) => segs[..|segs| - 1] + [Segment(last.addr, last.bytes + vs)]
  }

  /** The flushed lines of every segment that holds bytes, in order. */
  function FlushAll(segs: seq<Segment>): (out: seq<string>)
    ensures segs == [] ==> out == []
    decreases |segs|
  {
    if segs == [] then []
    else
      var s := segs[|segs| - 1];
      FlushAll(segs[..|segs| - 1]) + (if s.bytes != [] then Flush(s.bytes, s.addr) else [])
  }

  /** All tokens of the byte lines, in input order. */
  function AllValues(lines: seq<Line>): seq<nat>
    decreases |lines|
  {
    if lines == [] then []
    else AllValues(lines[..|lines| - 1]) + (if lines[|lines| - 1].Bytes? then lines[|lines| - 1].values else [])
  }

  /** All bytes of all segments, in order. */
  function AllBytes(segs: seq<Segment>): seq<nat>
    decreases |segs|
  {
    if segs == [] then [] else AllBytes(segs[..|segs| - 1]) + segs[|segs| - 1].bytes
  }

  /** The converter state agrees with a segment reading: everything before the latest
    * segment has been written, and the latest segment's address and bytes are the current
    * address and the pending tokens. */
  predicate Tracks(c: Converter, segs: seq<Segment>)
    requires |segs| >= 1
  {
    && c.out == FlushAll(segs[..|segs| - 1])
    && c.byteAddr == segs[|segs| - 1].addr
    && c.pending == segs[|segs| - 1].bytes
  }

  /** The loop keeps its state in step with the segment reading of the lines seen so far. */
  lemma {:induction false} FeedTracksSegments(lines: seq<Line>)
    ensures Tracks(Feed(START, lines), Segments(lines))
    decreases |lines|
  {
    if lines != [] {
      var init := lines[..|lines| - 1];
      FeedTracksSegments(init);
      StepTracksSegments(Feed(START, init), Segments(init), lines[|lines| - 1]);
    }
  }

  /** One line keeps the loop state and the segment reading in step. */
  lemma StepTracksSegments(c: Converter, segs: seq<Segment>, line: Line)
    requires |segs| >= 1 && Tracks(c, segs)
    ensures Tracks(Step(c, line), NextSegments(segs, line))
  {
    var n := |segs|;
    match line
    case Blank =>
    case Address(a) =>
      assert FlushAll(segs) == FlushAll(segs[..n - 1]) +
        (if segs[n - 1].bytes != [] then Flush(segs[n - 1].bytes, segs[n - 1].addr) else []);
      assert (segs + [Segment(a, [])])[..n] == segs;
    case Bytes(vs) =>
      assert (segs[..n - 1] + [Segment(segs[n - 1].addr, segs[n - 1].bytes + vs)])[..n - 1] == segs[..n - 1];
  }

  /** The streaming loop writes exactly the flushes of the segments that hold bytes. */
  lemma ConvertWritesSegments(lines: seq<Line>)
    ensures Emit(Feed(START, lines)) == FlushAll(Segments(lines))
  {
    FeedTracksSegments(lines);
    var segs := Segments(lines);
    var n := |segs|;
    var last := segs[n - 1];
    assert FlushAll(segs) == FlushAll(segs[..n - 1]) + (if last.bytes != [] then Flush(last.bytes, last.addr) else []);
  }

  /** No token is lost or repeated: the segments hold exactly the tokens of the byte lines. */
  lemma {:induction false} SegmentsKeepAllValues(lines: seq<Line>)
    ensures AllBytes(Segments(lines)) == AllValues(lines)
    decreases |lines|
  {
    if lines != [] {
      var init := lines[..|lines| - 1];
      SegmentsKeepAllValues(init);
      var segs := Segments(init);
      var n := |segs|;
      match lines[|lines| - 1]
      case Blank =>
      case Address(a) =>
        assert (segs + [Segment(a, [])])[..n] == segs;
      case Bytes(vs) =>
        var segs' := segs[..n - 1] + [Segment(segs[n - 1].addr, segs[n - 1].bytes + vs)];
        assert segs'[..n - 1] == segs[..n - 1];
        assert segs[..n - 1] == segs[..n][..n - 1];
        assert AllBytes(segs) == AllBytes(segs[..n - 1]) + segs[n - 1].bytes;
    }
  }

  /** An input without a single byte token produces only the final newline. */
  lemma NoBytesNoOutput(lines: seq<Line>)
    requires AllValues(lines) == []
    ensures Emit(Feed(START, lines)) == []
  {
    ConvertWritesSegments(lines);
    SegmentsKeepAllValues(lines);
    NoBytesFlushNothing(Segments(lines));
  }

  lemma {:induction false} NoBytesFlushNothing(segs: seq<Segment>)
    requires AllBytes(segs) == []
    ensures FlushAll(segs) == []
    decreases |segs|
  {
    if segs != [] {
      NoBytesFlushNothing(segs[..|segs| - 1]);
    }
  }

  /** The written text is the output lines, each terminated by a newline (a lone newline
    * when there are none). */
  lemma ConvertText(raws: seq<string>)
    requires ClassifyAll(raws).Some?
    ensures var out := FlushAll(Segments(ClassifyAll(raws).value));
            ConvertLines(raws) == Some(if out == [] then "\n" else Text.Terminated(out))
  {
    var lines := ClassifyAll(raws).value;
    ConvertWritesSegments(lines);
    var out := FlushAll(Segments(lines));
    assert ConvertLines(raws) == Some(Text.Join(out, "\n") + "\n");
    if out != [] {
      Text.JoinTerminated(out);
    } else {
      assert Text.Join(out, "\n") + "\n" == "\n";
    }
  }
}
