/**
 * scripts/bin2hex.py: writes a flat binary image as `$readmemh` text for a
 * 32-bit-wide memory. The image is padded with zero bytes to a whole number
 * of words; every group of four bytes is read as one little-endian word
 * (`struct.unpack("<I", ...)`) and written as eight lower-case hex digits
 * followed by a newline.
 */
module Bin2Hex {
  import opened Wrappers
  import opened Words
  import Text
  import Hex
  import VerilogByte2Word

  /** `bin2hex` on the bytes read from the input file: the text written to the output file. */
  function Bin2Hex(data: seq<byte>): (text: string)
    ensures |text| == 9 * WordCount(|data|)
  {
    PaddedWordCount(data, 0);
    WordText(PadToWord(data, 0))
  }

  /** The loop over the padded image, four bytes at a time. */
  function WordText(p: seq<byte>): (text: string)
    requires |p| % 4 == 0
    ensures 4 * |text| == 9 * |p|
  {
    if p == [] then []
    else
      var w := PackLE(p[0], p[1], p[2], p[3]);
      WordWidth(w);
      Hex.Format(w, 8) + "\n" + WordText(p[4..])
  }

  /** Eight hex digits hold any 32-bit word. */
  lemma WordWidth(w: u32)
    ensures |Hex.Format(w, 8)| == 8
  {
    Hex.Pow16Words();
    Hex.FormatWidth(w, 8);
  }

  /** The written text is one newline-terminated line per little-endian word of the padded image. */
  lemma {:induction false} WordTextLines(p: seq<byte>)
    requires |p| % 4 == 0
    ensures WordText(p) == Text.Terminated(Hex.FormatWords(PackWords(p)))
  {
    if p != [] {
      WordTextLines(p[4..]);
      assert PackWords(p)[1..] == PackWords(p[4..]);
      assert Hex.FormatWords(PackWords(p))[1..] == Hex.FormatWords(PackWords(p)[1..]);
    }
  }

  /** Every word line holds exactly eight lower-case hex digits: no value needs more. */
  lemma WordLinesAreEightDigits(data: seq<byte>)
    ensures var lines := Hex.FormatWords(PackWords(PadToWord(data, 0)));
            forall k :: 0 <= k < |lines| ==> |lines[k]| == 8 && Hex.AllLowerDigits(lines[k])
  {
    var ws := PackWords(PadToWord(data, 0));
    forall k | 0 <= k < |ws|
      ensures |Hex.Format(ws[k], 8)| == 8
    {
      WordWidth(ws[k]);
    }
  }

  /** Reading the text back line by line, as `$readmemh` does, gives words whose bytes are
    * the image followed by fewer than four zero bytes; the text ends with a newline. */
  lemma Bin2HexRoundTrip(data: seq<byte>)
    ensures var lines := Text.Split(Bin2Hex(data), '\n');
            |lines| == WordCount(|data|) + 1 && lines[|lines| - 1] == [] &&
            Hex.ParseAll(lines[..|lines| - 1]) == Some(PackWords(PadToWord(data, 0)))
    ensures UnpackWords(PackWords(PadToWord(data, 0)))[..|data|] == data
    ensures forall i :: |data| <= i < 4 * WordCount(|data|) ==> UnpackWords(PackWords(PadToWord(data, 0)))[i] == 0
  {
    var padded := PadToWord(data, 0);
    PaddedWordCount(data, 0);
    var ws := PackWords(padded);
    var words := Hex.FormatWords(ws);
    WordTextLines(padded);
    WordLinesAreEightDigits(data);
    forall k, i | 0 <= k < |words| && 0 <= i < |words[k]|
      ensures words[k][i] != '\n'
    {
      assert Hex.IsLowerDigit(words[k][i]);
    }
    Text.SplitTerminated(words);
    assert (words + [""])[..|words|] == words;
    Hex.ParseFormatWords(ws);
    UnpackPackWords(padded);
  }

  /** A binary image gives the same word lines as the byte-to-word converter's flush of the
    * same bytes, without the `@` address line. */
  lemma SameWordsAsByte2Word(data: seq<byte>, startAddr: nat)
    ensures Bin2Hex(data) == Text.Terminated(VerilogByte2Word.Flush(data, startAddr)[1..])
  {
    VerilogByte2Word.FlushBytes(data, startAddr);
    WordTextLines(PadToWord(data, 0));
  }
}
