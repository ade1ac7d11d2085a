# K10 multiply/divide testbench and helper tools, modelled in Dafny

This project models the checking logic around the K10 RISC-V core's multiply/divide unit,
together with the small host and firmware tools that build and drive its tests.

- **Reference oracle** (`oracle.dfy`, module `MulDivOracle`): `riscv_div`, `riscv_divu`,
  `riscv_rem` and `riscv_remu` of the standalone testbench. These are the RISC-V M-extension
  results, including division by zero and the signed-overflow case. C's truncating `/` and `%`
  on `int32_t` are written out explicitly.
- **Testbench drivers** (`testbench.dfy`, module `MulDivTestbench`):
  - the clock `tick` and the `reset` sequence;
  - the divide driver with its 200-cycle poll and the `0xDEADBEEF` timeout sentinel;
  - the single-cycle multiply driver and the pass/fail `check`;
  - the 26 checks of `main` in seven reset groups, and the exit status.

  The simulated unit is an opaque state machine: an evaluation function and the three observed
  outputs `o_done`, `o_busy` and `o_result`.
- **Firmware console** (`console.dfy`, module `K10Console`): `k10_puts`, `k10_put_hex` and
  `k10_put_dec`, as functions from the output written so far to the output after the call.
- **Self-test trap handler** (`trap.dfy`, module `K10SelfTest`): `trap_handler` over the
  handler's globals, `mie` and the simulator's MSIP register. Also the `mie` bit constants and
  the facts that `test_arithmetic` asserts. `mcause` is decoded as in the RISC-V Privileged
  Architecture, section 3.1.15.
- **`verilog_byte2word.py`** (`byte2word.dfy`, module `VerilogByte2Word`): turns the
  byte-addressed Verilog hex that `objcopy` writes into word lines for `$readmemh`.
- **`bin2hex.py`** (`bin2hex.dfy`, module `Bin2Hex`): turns a flat binary into word lines.

Shared pieces:

- `words.dfy`: 32-bit words as a bounded integer type, two's-complement views, and
  little-endian packing and padding.
- `text.dfy`: Python's `strip`, `split("\n")`, `split()` and `"\n".join`.
- `hex.dfy`: `int(s, 16)` and `"{:0Nx}".format`.
- `wrappers.dfy`: the `Option` type. `None` stands for a Python `ValueError` that ends a
  script before it writes any output.

## Model

| member | source | states |
|---|---|---|
| MulDivOracle.Code | rtl/k10/tb/tb_mul_div.cpp:23-32 | Each operation has one of the eight encodings 0..7, and the divide class is exactly the encodings 4..7. |
| MulDivOracle.CodeRoundTrip | rtl/k10/tb/tb_mul_div.cpp:23-32 | No two operations share an encoding: decoding an operation's code gives the operation back. |
| MulDivOracle.TruncDiv | rtl/k10/tb/tb_mul_div.cpp:141 | C's `/` truncates toward zero: abs(q)*abs(d) <= abs(n) < abs(q)*abs(d) + abs(d), and a non-zero quotient is negative iff the operands' signs differ. |
| MulDivOracle.TruncRem | rtl/k10/tb/tb_mul_div.cpp:152 | C's `%` completes the division, (n / d) * d + n % d == n, is smaller than the divisor in magnitude, and is zero or has the dividend's sign. |
| MulDivOracle.RiscvDiv | rtl/k10/tb/tb_mul_div.cpp:138-142 | Division by zero gives all ones and INT_MIN / -1 gives INT_MIN; otherwise the result read as `int32_t` is C's truncated quotient of the operands read as `int32_t`. |
| MulDivOracle.RiscvDivu | rtl/k10/tb/tb_mul_div.cpp:144-147 | Division by zero gives all ones; otherwise the result is the largest q with q*b <= a. |
| MulDivOracle.RiscvRem | rtl/k10/tb/tb_mul_div.cpp:149-153 | A zero divisor returns the dividend and INT_MIN % -1 gives 0; otherwise the result read as `int32_t` is C's remainder of the operands read as `int32_t`. |
| MulDivOracle.RiscvRemu | rtl/k10/tb/tb_mul_div.cpp:155-158 | A zero divisor returns the dividend; otherwise the result is below the divisor and is what the unsigned quotient leaves: divu(a,b)*b + remu(a,b) == a. |
| MulDivOracle.DivisionByZero | rtl/k10/tb/tb_mul_div.cpp:138-158 | A zero divisor gives all ones for both quotients and returns the dividend unchanged for both remainders. |
| MulDivOracle.SignedOverflow | rtl/k10/tb/tb_mul_div.cpp:138-153 | INT_MIN / -1 gives INT_MIN and INT_MIN % -1 gives 0, where INT_MIN is 0x80000000 and -1 is 0xFFFFFFFF read as `int32_t`. |
| MulDivOracle.UnsignedDivisionIdentity | rtl/k10/tb/tb_mul_div.cpp:144-158 | For a non-zero divisor, quotient * divisor + remainder equals the dividend, the remainder is below the divisor, and the quotient is at most the dividend. |
| MulDivOracle.TruncDivision | rtl/k10/tb/tb_mul_div.cpp:141-152 | C's `/` and `%` on integers: the quotient's magnitude is the floor of the magnitudes' quotient, its sign is negative iff the operands' signs differ, q*d + r == n, abs(r) < abs(d), and a non-zero r takes the dividend's sign. |
| MulDivOracle.QuotientFits | rtl/k10/tb/tb_mul_div.cpp:140-141 | Apart from INT_MIN / -1, which the oracle handles first, the signed quotient fits in `int32_t`, so the cast back to `uint32_t` loses nothing. |
| MulDivOracle.SignedDivisionIdentity | rtl/k10/tb/tb_mul_div.cpp:138-153 | Read as `int32_t`, the oracle's DIV and REM results satisfy q*b + r == a, the truncation and sign rules above, and abs(r) < abs(b), for every non-zero divisor outside the overflow case. |
| MulDivOracle.MainExpectations | rtl/k10/tb/tb_mul_div.cpp:185-292 | The oracle's value for every divide-class case of `main`, including the RISC-DV trace cases: 0x0eca293d rem 0xeca293d0 is 0x0eca293d, 0xf01b3076 divu 0x69cc592b is 2, and 0x12345678 rem 0xABCD is 0x3dd8. |
| MulDivOracle.MulExpectations | rtl/k10/tb/tb_mul_div.cpp:172-174 | The low 32 bits of the three products `main` checks are 21, -21 and 21. |
| MulDivTestbench.Tick | rtl/k10/tb/tb_mul_div.cpp:39-46 | One cycle advances simulated time by two edges, leaves the clock pin high, and leaves both counters alone. |
| MulDivTestbench.Ticks | rtl/k10/tb/tb_mul_div.cpp:75-77 | n held cycles advance time by 2n and change no counter. |
| MulDivTestbench.FirstDoneFrom | rtl/k10/tb/tb_mul_div.cpp:75-89 | The captured cycle is the earliest one within the bound whose sampled `o_done` is high; `None` means no cycle within the bound has it high. |
| MulDivTestbench.Reset | rtl/k10/tb/tb_mul_div.cpp:48-57 | Reset takes six cycles, then releases reset with no request and zero operands on the pins; neither counter changes. |
| MulDivTestbench.Issue | rtl/k10/tb/tb_mul_div.cpp:66-69 | A driver sets `i_start` and writes the operation's encoding and both operands, and leaves the clock, the reset pin, the unit's state, the time and the counters as they were. |
| MulDivTestbench.Release | rtl/k10/tb/tb_mul_div.cpp:94-100 | Dropping `i_start` withdraws the request and holds the operation, the operands, the clock, the reset pin, the unit's state, the time and the counters. |
| MulDivTestbench.PollDone | rtl/k10/tb/tb_mul_div.cpp:75-89 | The poll captures iff some cycle 1..200 ends with `o_done` high; it then stops after the first such cycle and samples its `o_result`, and otherwise runs all 200 cycles. |
| MulDivTestbench.DivDriver | rtl/k10/tb/tb_mul_div.cpp:64-105 | The divide driver adds exactly one failure on a timeout and none otherwise, never adds a pass, and leaves `i_start` low. It takes 2 to 201 cycles. `*cycles_out` is written only when done is seen and the pointer is non-null. |
| MulDivTestbench.RunDivOp | rtl/k10/tb/tb_mul_div.cpp:64-105 | The polling loop returns `o_result` from the first cycle (1..200) at which `o_done` is high, and takes one cycle more to drop `i_start`. On a timeout it returns 0xDEADBEEF, counts one failure, and leaves the cycle count as it was. |
| MulDivTestbench.RunMulOp | rtl/k10/tb/tb_mul_div.cpp:108-125 | The multiply driver samples `o_result` after exactly one cycle and counts a failure iff `o_done` is low then. It then spends one cycle with `i_start` low: two cycles in all. |
| MulDivTestbench.MulDriverAgreesOnSingleCycle | rtl/k10/tb/tb_mul_div.cpp:64-125 | The two drivers leave the same bench and the same result exactly when the unit raises `o_done` after the first cycle. |
| MulDivTestbench.Check | rtl/k10/tb/tb_mul_div.cpp:127-135 | Exactly one counter goes up: the pass counter iff the values agree, the fail counter iff they differ. |
| MulDivTestbench.ExitStatus | rtl/k10/tb/tb_mul_div.cpp:301 | The exit status is 0 or 1, and 1 exactly when a failure was counted. |
| MulDivTestbench.RunCase | rtl/k10/tb/tb_mul_div.cpp:172-292 | A case passes iff the value its driver returned equals the expectation. That value is `o_result` after the first cycle for MUL, and for a divide the `o_result` of the first done cycle, or the sentinel on a timeout. The bench is `check` applied to what the driver left, so a unit that answers in time with the expected value adds one pass and no failure. A case adds at most one pass and at most two failures, at least one outcome in all. A divide that times out, with an expectation other than the sentinel, adds two failures and no pass. |
| MulDivTestbench.MAIN_GROUPS | rtl/k10/tb/tb_mul_div.cpp:170-292 | The cases of `main` in order, one group per `reset` (one constant per test), with the operands and expectations `main` writes (data; its facts are stated by the next row). |
| MulDivTestbench.MainExpectationsAreOracleValues | rtl/k10/tb/tb_mul_div.cpp:170-292 | `main` checks 26 cases. In every group each expectation is the oracle's value for its operation (the low product for MUL), differs from the timeout sentinel, and belongs to a multiply or a divide-class operation. |
| MulDivTestbench.RunMain | rtl/k10/tb/tb_mul_div.cpp:160-302 | `main` exits with 1 iff any failure was counted. It records at most 26 passes and at least 26 outcomes, and it exits with 0 only when all 26 checks passed. |
| K10Console.PutChar | sw/k10/test/include/k10.h:78-86 | A character write keeps everything the console has shown and shows that character after it. |
| K10Console.CString | sw/k10/test/include/k10.h:88-92 | The characters the loop visits form the prefix of the string before its first NUL: none of them is NUL, and the string either ends there or has a NUL next. |
| K10Console.Puts | sw/k10/test/include/k10.h:88-92 | The console receives the characters of the string up to, not including, its first NUL. |
| K10Console.PutHex | sw/k10/test/include/k10.h:94-100 | The console receives "0x" and then exactly eight lower-case hex digits whose value, most significant first, is `val`. |
| K10Console.PutHexIsFormat | sw/k10/test/include/k10.h:94-100 | Eight lower-case digits with the value `val` are exactly Python's `{:08x}` rendering of `val`. |
| K10Console.PutDec | sw/k10/test/include/k10.h:102-111 | The console receives at most ten decimal digits that read back as `val`, with no leading zero except for `val == 0`, which prints a single "0". |
| K10Console.StoreDigits | sw/k10/test/include/k10.h:103-109 | The first loop stores the decimal digits least significant first and never writes past the 11-character buffer. |
| K10Console.DecDigitsFacts | sw/k10/test/include/k10.h:102-111 | The printed decimal digits read back as the value, have no leading zero, and number at most n when the value is below 10^n. |
| K10SelfTest.Classify | sw/k10/test/k10_c_selftest.c:37-39 | `mcause` is an interrupt iff its top bit is set, and the cause code is the other 31 bits: decoding loses nothing. |
| K10SelfTest.TrapHandler | sw/k10/test/k10_c_selftest.c:33-69 | Every trap counts itself modulo 2^32 and records its `mcause`; a trap with bit 31 set resumes at `mepc`, any other at `mepc + 4` modulo 2^32. |
| K10SelfTest.TrapBookkeeping | sw/k10/test/k10_c_selftest.c:33-35 | Every trap increments the trap count modulo 2^32 and records its `mcause`. |
| K10SelfTest.TrapResume | sw/k10/test/k10_c_selftest.c:54-67 | An interrupt resumes at `mepc`. Every exception, known or not, resumes at `mepc + 4`. |
| K10SelfTest.TrapFlags | sw/k10/test/k10_c_selftest.c:41-65 | Each "fired" flag is raised exactly by its own cause and otherwise keeps its value. Software-interrupt code 3 does not raise the breakpoint flag, nor does the breakpoint exception (also 3) raise the software-interrupt flag. |
| K10SelfTest.TrapInterruptEnables | sw/k10/test/k10_c_selftest.c:41-53 | The timer interrupt clears the MTIE mask from `mie` and the software interrupt clears the MSIE mask. No other trap changes `mie`. |
| K10SelfTest.ClearMask | sw/k10/test/include/k10.h:61-62 | `csrc` leaves no bit of the mask set and keeps every other bit: the result or-ed with the masked bits of the old value gives the old value back. |
| K10SelfTest.ClearMaskBit | sw/k10/test/k10_c_selftest.c:45-52 | Clearing a one-bit mask clears exactly that bit of `mie`. |
| K10SelfTest.TrapSoftwarePending | sw/k10/test/k10_c_selftest.c:46-53 | Only the software interrupt clears the MSIP register; every other trap leaves it as it was. |
| K10SelfTest.MieBitPositions | sw/k10/test/include/k10.h:68-72 | MSIE, MTIE and MEIE are the single bits 3, 7 and 11 of `mie`, and MSTATUS_MIE is bit 3 of `mstatus`. |
| K10SelfTest.ShiftRightArith | sw/k10/test/k10_c_selftest.c:92-93 | `>>` on an `int32_t`: a non-negative value is shifted logically; a negative one keeps its sign bit and has its vacated top bits set. |
| K10SelfTest.ArithmeticExpectations | sw/k10/test/k10_c_selftest.c:75-97 | The values `test_arithmetic` asserts hold for the model's arithmetic: 59, 25 and 714; the oracle's DIV and REM give 2 and 8; the logical shifts give 0x23456780 and 0x01234567; the arithmetic shift of 0xF0000000 by 4 gives 0xFF000000. |
| Words.Signed | rtl/k10/tb/tb_mul_div.cpp:138-153 | The `(int32_t)` reading of a pattern lies in the int32 range, is negative iff bit 31 is set, and is congruent to the pattern modulo 2^32. |
| Words.Wrap | rtl/k10/tb/tb_mul_div.cpp:138-153 | The `(uint32_t)` conversion of an integer differs from it by a multiple of 2^32. |
| Words.WrapSigned | rtl/k10/tb/tb_mul_div.cpp:138-153 | Converting the signed reading of a pattern back gives the pattern. |
| Words.SignedWrap | rtl/k10/tb/tb_mul_div.cpp:138-153 | Every int32 value survives the round trip through its pattern. |
| Words.PadToWord | scripts/verilog_byte2word.py:23-25 | Padding appends fewer than four zeros, keeps the original as a prefix, and reaches a multiple of four. |
| Words.PaddedWordCount | scripts/bin2hex.py:20-22 | The padded image holds exactly ceil(n/4) words. |
| Words.PackLE | scripts/bin2hex.py:26 | `struct.unpack("<I", ...)`: the first byte is the least significant (data; its meaning is stated by the next two rows). |
| Words.UnpackPack | scripts/bin2hex.py:26 | Splitting the little-endian word of four bytes gives the four bytes back in order. |
| Words.PackUnpack | scripts/bin2hex.py:26 | Every 32-bit word is the little-endian packing of its own four bytes. |
| Words.PackWords | scripts/bin2hex.py:24-27 | One word per four bytes, each the little-endian packing of its group, in order. |
| Words.UnpackPackWords | scripts/bin2hex.py:25-26 | Splitting the little-endian words of a byte sequence back into bytes restores the sequence. |
| Words.PackUnpackWords | scripts/bin2hex.py:25-26 | Packing the bytes of words restores the words, so packing is a bijection. |
| Hex.Parse | scripts/verilog_byte2word.py:40-43 | `int(s, 16)` succeeds iff the stripped text is a non-empty run of hex digits. |
| Hex.Format | scripts/verilog_byte2word.py:27-30 | `{:0Nx}` gives at least N characters, all lower-case hex digits. |
| Hex.ParseFormat | scripts/verilog_byte2word.py:27-30 | Reading a `{:0Nx}` rendering back with `int(s, 16)` gives the value. |
| Hex.FormatWidth | scripts/bin2hex.py:27 | A value below 16^N renders in exactly N digits. |
| Hex.ParseFormatWords | scripts/bin2hex.py:25-27 | Reading back a list of `{:08x}` lines gives the words that were formatted. |
| Text.StripLeft | scripts/verilog_byte2word.py:32-33 | The result is a suffix of the text, does not start with whitespace, and everything removed before it is whitespace. |
| Text.StripRight | scripts/verilog_byte2word.py:32-33 | The result is a prefix of the text, does not end with whitespace, and everything removed after it is whitespace. |
| Text.Strip | scripts/verilog_byte2word.py:32-33 | `str.strip()`: the text with leading whitespace and then trailing whitespace removed, so it neither starts nor ends with whitespace. |
| Text.Split | scripts/verilog_byte2word.py:32 | `split("\n")` gives at least one field, no field holds the separator, and joining the fields with it gives the text back. |
| Text.Tokens | scripts/verilog_byte2word.py:42 | `split()` gives non-empty tokens without whitespace which, written one after another, are exactly the text's non-whitespace characters in order. |
| Text.TokensJoin | scripts/verilog_byte2word.py:42 | Tokens are maximal runs: splitting non-empty, whitespace-free tokens joined by single spaces gives exactly those tokens back. |
| Text.Join | scripts/verilog_byte2word.py:49 | `sep.join(parts)` is empty for no parts, and otherwise as long as the parts together plus one separator between each pair of neighbours. |
| Text.SplitJoin | scripts/verilog_byte2word.py:32 | Splitting text joined with a separator that occurs in no part gives the parts back. |
| VerilogByte2Word.BitOr | scripts/verilog_byte2word.py:29 | Python's `|` on non-negative integers is at least each operand and at most their sum. |
| VerilogByte2Word.WordAt | scripts/verilog_byte2word.py:29 | The or of the four shifted tokens is at least the top token shifted by 24 and at most their little-endian sum. |
| VerilogByte2Word.OrDisjoint | scripts/verilog_byte2word.py:29 | Or-ing a value below 2^k with a multiple of 2^k is addition, because the bits do not overlap. |
| VerilogByte2Word.WordAtIsPackLE | scripts/verilog_byte2word.py:29 | When all four tokens are bytes, the or of the shifted tokens is their little-endian 32-bit word. |
| VerilogByte2Word.WordLines | scripts/verilog_byte2word.py:28-30 | One word line per group of four tokens, in order. |
| VerilogByte2Word.Flush | scripts/verilog_byte2word.py:22-30 | A flush writes one `@` line with the byte address divided by four, then ceil(n/4) word lines: the lines of the zero-padded buffer, one per group of four tokens. |
| VerilogByte2Word.FlushBytes | scripts/verilog_byte2word.py:22-30 | For byte tokens, the word lines are the `{:08x}` renderings of the padded buffer's little-endian words. |
| VerilogByte2Word.FlushRoundTrip | scripts/verilog_byte2word.py:22-30 | Reading a flushed segment back gives its word address and, once unpacked, the original bytes followed only by zero padding. |
| VerilogByte2Word.ClassifyLine | scripts/verilog_byte2word.py:33-43 | A line is blank iff it is empty once stripped. A line starting with `@` is an address line iff the rest parses as hex, and holds that number. Any other non-blank line classifies iff all its whitespace-separated tokens parse as hex, and is then a byte line holding those numbers in order. |
| VerilogByte2Word.ClassifyAll | scripts/verilog_byte2word.py:32-43 | Classifying all lines succeeds iff every line classifies, and then keeps their order. |
| VerilogByte2Word.Emit | scripts/verilog_byte2word.py:45-46 | The final flush adds a segment only when tokens are pending, and never changes what was already written. |
| VerilogByte2Word.Step | scripts/verilog_byte2word.py:32-43 | A blank line changes nothing. An address line flushes the pending tokens, empties the buffer and moves to the new address. A byte line appends its tokens and changes nothing else. |
| VerilogByte2Word.Feed | scripts/verilog_byte2word.py:32-43 | The loop only appends to the output lines, and blank lines alone change nothing. |
| VerilogByte2Word.FeedAppend | scripts/verilog_byte2word.py:32-43 | The loop over two pieces of input is the loop over the second piece started from the state the first left. |
| VerilogByte2Word.Convert | scripts/verilog_byte2word.py:14-49 | An output file is written iff every line of the stripped input is well-formed. |
| VerilogByte2Word.ConvertLines | scripts/verilog_byte2word.py:32-49 | Output is written iff every line classifies. |
| VerilogByte2Word.FeedTracksSegments | scripts/verilog_byte2word.py:18-43 | The loop state matches the reference reading of the input as address-headed segments. Everything before the latest segment has been written, and the current address and buffer are that segment's. |
| VerilogByte2Word.StepTracksSegments | scripts/verilog_byte2word.py:32-43 | One more line keeps the loop state and the segment reading in step. |
| VerilogByte2Word.ConvertWritesSegments | scripts/verilog_byte2word.py:32-46 | The output lines are exactly the flushes, in order, of the segments that hold bytes. |
| VerilogByte2Word.SegmentsKeepAllValues | scripts/verilog_byte2word.py:37-43 | No token is lost or repeated: the segments together hold the input's byte tokens in input order. |
| VerilogByte2Word.NoBytesNoOutput | scripts/verilog_byte2word.py:45-49 | An input without byte tokens writes no lines: address lines alone produce nothing. |
| VerilogByte2Word.ConvertText | scripts/verilog_byte2word.py:48-49 | The written file is every output line followed by a newline, or a single newline when there are none. |
| Bin2Hex.Bin2Hex | scripts/bin2hex.py:16-27 | The output holds exactly 9 characters per word of the zero-padded image. |
| Bin2Hex.WordText | scripts/bin2hex.py:24-27 | The loop writes nine characters for every four bytes of the padded image. |
| Bin2Hex.WordTextLines | scripts/bin2hex.py:24-27 | The output is the `{:08x}` rendering of each little-endian word of the padded image, each followed by a newline. |
| Bin2Hex.WordLinesAreEightDigits | scripts/bin2hex.py:26-27 | Every output line has exactly eight lower-case hex digits. |
| Bin2Hex.Bin2HexRoundTrip | scripts/bin2hex.py:16-27 | Reading the output back line by line gives ceil(n/4) words whose bytes are the image followed by fewer than four zeros. |
| Bin2Hex.SameWordsAsByte2Word | scripts/bin2hex.py:20-27 | A binary image gives exactly the word lines the byte-to-word converter flushes for the same bytes, minus the `@` line. |

## Left out

- Verilator plumbing (`Verilated::commandArgs`, `new`/`final`/`delete` of the model) and all
  `printf` text are left out: they affect only the log, not the counters, results or exit
  status.
- The `o_busy` warning in `run_div_op` only prints; the model keeps `o_busy` as an observed
  output and does not act on it.
- The hardware behaviour of the unit, including MULH/MULHSU/MULHU: `main` never checks those
  operations, and the unit itself is Verilog, which is not part of this model.
- MulDivTestbench.RunCase: dispatches on the operation's class instead of naming the driver at
  each call site as `main` does. The calls made are the same.
- MulDivTestbench.RunMain: the `cyc` variable is uninitialised in C. The model starts it as
  `Some(0)`, because its value is never checked.
- `sim_time` (`uint64_t`) and the `int` counters are unbounded `nat`s. Their wrap-around would
  need more than 2^63 cycles or 2^31 failures.
- rtl/k10/tb/k10_tb.cpp and scripts/patch_riscv_dv.py are not part of this model.
- The firmware's MMIO and CSR accesses are modelled as state:
  - `SIM_CHAR_OUT` is the output string;
  - `clear_csr(mie, ...)` is an update of the `mie` field;
  - `SIM_MSIP` is a field.

  The `K10_REAL_HW` UART polling loop is left out.
- The other self-test bodies (unaligned access, timer, software interrupt, ECALL and EBREAK
  setup) are left out: they depend on the core's hardware. `TEST_ASSERT`/`TEST_OK` reporting
  and `sim_pass`/`sim_fail` are also left out.
- K10SelfTest.ShiftRightArith: the contract does not state that the low 32-n bits of a
  negative value's shift are its bits shifted down. Only the shift that `test_arithmetic`
  asserts is pinned down bit for bit, by `ArithmeticExpectations`.
- K10SelfTest.ArithmeticExpectations: `>>` on a negative `int32_t` is implementation-defined in
  C. The model takes it to be the arithmetic shift that the RISC-V compiler emits (`sra`).
- The "fired" flags are `bool`s; the C code stores 1 into `int`s.
- Hex.Parse: accepts only optional surrounding whitespace and hex digits. Python's `int(s, 16)`
  also accepts a sign, a `0x` prefix and `_` separators. Such inputs do not occur in `objcopy`
  output, and the model rejects them.
- Text.Strip: treats only ASCII whitespace and the separators U+001C..U+001F as whitespace, not
  the rest of Unicode's.
- Text.Tokens: splits at the same whitespace as `Text.Strip`, so the same limit applies.
- File I/O, `sys.argv` handling and the "Converted N bytes -> N words" message of
  verilog_byte2word.py are left out. Both scripts are modelled from file contents to file
  contents.
- `flush` also pads the caller's list in place. That list is dropped right afterwards, so the
  model does not keep the mutation.
- The divide driver's `*cycles_out` is an `Option`, with `None` for a null pointer.

## Design and code

`main` passes the `0xDEADBEEF` sentinel that `run_div_op` returns on a timeout to `check`
(rtl/k10/tb/tb_mul_div.cpp:91-97 and 185-186). A timed-out divide therefore counts two
failures (`MulDivTestbench.RunCase`).
