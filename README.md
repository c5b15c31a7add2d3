# 4-bit ALU reference model

The repository is a cocotb harness for a small 4-bit arithmetic/logic unit.
The circuit itself is not in the repository. The harness does contain a
complete oracle for it: for each of eleven opcodes, it asserts an exact integer
expression of the two operands `a`, `b` in [0, 15] against the 8-bit output
`uo_out`. The operands reach the circuit packed onto the input bus `ui_in` as
`(a << 4) | b`, and the opcode comes on `uio_in`.

This project models that oracle in Dafny and proves what each expected value
means, for all 256 operand pairs instead of the harness's random samples:

- `bits.dfy`, module `Bits`: Python's integer operators `&`, `|`, `^`, `~`
  and `<<`. `&`, `|` and `^` are defined bit by bit with division and
  remainder by 2; `~` and `<<` are given in closed form, as `-x - 1` and
  `x * 2**n`. `|` and `^` are defined for non-negative operands only, which
  is all the harness applies them to. Python's `&` works on negative
  integers as infinite two's complement, and so does `BitAnd` for its left
  operand; its right operand, the mask, is non-negative, as every mask the
  harness uses (`0xF`, `0xFF`, a nibble) is. So `(a - b) & 0xF` and
  `~a & 0xF` mean exactly what they mean in the harness.
  The lemmas give the bit-level meaning of `&`, `|`, `^` and `~`, show that
  the masks `& 0xF` and `& 0xFF` are reduction modulo 16 and 256, bound the
  widths, and show that XOR with a fixed key undoes itself.
- `alu.dfy`, module `Alu`: operands, opcodes (`Op`, `Code`, `DecodeOp`), the
  bus packing `Pack`/`UnpackA`/`UnpackB`, one function per operation holding
  the harness's expression (`AddResult` … `SeqResult`), the dispatch
  `Expected`/`Evaluate`, and `EvaluateBus`, which gives the output for the raw
  input-bus byte.
- `alu_properties.dfy`, module `AluProperties`: the properties of each
  operation, the packing round trips, the output widths and the harness's
  fixed boundary cases.

The harness defines no output for opcodes 11 to 15. `Evaluate` gives 0 for
them; this is the model's own choice.

ENC can be undone by ENC. Put the ENC output back on the input bus and run
ENC again: the result is the original packed byte `(a << 4) | b`, so both
operands come back (`EncRoundTrip`). This holds because XOR with the fixed
key undoes itself and every output byte splits back into two nibbles.

## Model

| member | source | states |
|---|---|---|
| `Bits.BitAnd` | test/test.py:38 | Python's `x & y` for any integer x and non-negative y never exceeds y |
| `Bits.BitAndBits` | test/test.py:59 | bit i of `x & y` is set exactly when bit i is set in both x and y |
| `Bits.BitOrBits` | test/test.py:64 | bit i of x OR y is set exactly when bit i is set in x or y |
| `Bits.BitXorBits` | test/test.py:69 | bit i of `x ^ y` is set exactly when x and y differ at bit i |
| `Bits.BitNotBits` | test/test.py:74 | bit i of `~x` is the complement of bit i of x, negative values included |
| `Bits.MaskIsMod` | test/test.py:38 | `x & (2**k - 1)` equals x modulo 2**k for every integer x, negative ones too |
| `Bits.OrXorWidth` | test/test.py:64-69 | OR and XOR of two k-bit values are k-bit values |
| `Bits.OrDisjoint` | test/test.py:29 | OR-ing a value below 2**k onto `x << k` is addition: the bits do not overlap |
| `Bits.XorInvolution` | test/test.py:79 | `(x ^ y) ^ y == x` for all non-negative x, y |
| `Alu.DecodeOp` | test/test.py:30 | a 4-bit opcode selects an operation exactly when it is at most 10, and the operation's code is that opcode |
| `AluProperties.DecodeCode` | test/test.py:36-92 | each operation's opcode decodes back to it and selects its expected value in `Evaluate` |
| `AluProperties.UndefinedOpcode` | test/test.py:30 | opcodes 11 to 15, which the harness never drives, give the model's default output 0 |
| `AluProperties.PackValue` | test/test.py:29 | the packing (a shifted left by 4) OR b equals `16 * a + b` |
| `AluProperties.PackUnpack` | test/test.py:29 | the packed pair fits 8 bits, its high nibble is a and its low nibble is b |
| `AluProperties.UnpackPack` | test/test.py:95 | every input-bus byte is the packing of its two nibbles |
| `AluProperties.Mask4` | test/test.py:38 | `x & 0xF` equals x modulo 16 for every integer x |
| `AluProperties.Mask8` | test/test.py:48 | `x & 0xFF` equals x modulo 256 for every integer x |
| `AluProperties.AddWraps` | test/test.py:38 | ADD is `(a + b) mod 16`: a + b below 16, and a + b - 16 past 15 |
| `AluProperties.SubWraps` | test/test.py:43 | SUB is `(a - b) mod 16`: a - b when a >= b, and a - b + 16 otherwise, never negative |
| `AluProperties.MulExact` | test/test.py:48 | MUL is exactly a * b, at most 225: the 8-bit mask loses nothing |
| `AluProperties.DivByZero` | test/test.py:53 | DIV by zero gives 0 |
| `AluProperties.DivPacked` | test/test.py:53 | DIV by a non-zero b is `16 * (a % b) + a / b`, below 256; its high nibble is the remainder, its low nibble the quotient, and `b * quotient + remainder == a` |
| `AluProperties.AndBitwise` | test/test.py:59 | AND is `a & b`, below 16, set at bit i exactly when both operands are |
| `AluProperties.OrBitwise` | test/test.py:64 | OR is bitwise a OR b, below 16, set at bit i exactly when either operand is |
| `AluProperties.XorBitwise` | test/test.py:69 | XOR is `a ^ b`, below 16, set at bit i exactly when the operands differ there |
| `AluProperties.NotValue` | test/test.py:74 | NOT is 15 - a |
| `AluProperties.NotInvolution` | test/test.py:73-74 | NOT does not depend on b, and NOT of NOT of a is a |
| `AluProperties.NotBitwise` | test/test.py:74 | each of the four low bits of NOT's result is the complement of a's bit |
| `AluProperties.EncXorKey` | test/test.py:79 | ENC is the packed pair XOR 0xAB, below 256, bitwise the difference from the key, and XOR-ing it with 0xAB again gives the packed pair |
| `AluProperties.EncRoundTrip` | test/test.py:79 | running ENC on its own output, read back from the input bus, gives the original packed pair |
| `AluProperties.CompareFlags` | test/test.py:85-91 | SLT is 1 exactly when a < b and SEQ is 1 exactly when a == b; otherwise both are 0 |
| `AluProperties.OutputWidth` | test/test.py:36-92 | every output fits its opcode's width (4 bits, 8 bits for MUL/DIV/ENC, 1 bit for SLT/SEQ), so it fits the 8-bit output bus |
| `AluProperties.BoundaryCases` | test/test.py:95-118 | the fixed bytes 0x2C, 0xA3, 0x55 and 0x25 are the pairs (2,12), (10,3), (5,5), (2,5), and give SLT 1 and 0 and SEQ 1 and 0 |
| `AluProperties.SampleValues` | test/test.py:43-79 | SUB of 0 and 1 is 15, MUL of 15 and 15 is 225, DIV of 10 by 3 is 0x13, NOT of 0 is 15 and of 15 is 0, ENC of (0, 0) is 0xAB |

## Left out

- Clock generation, reset sequencing, `Timer` waits and the `async` coroutines (test/test.py:9-19, 31): these are simulation timing, and the modelled oracle is combinational.
- Writes to and reads from the simulator's signal handles (`ui_in`, `uio_in`, `uo_out`, `uio_out`, `ena`, `rst_n`): these are calls into a hardware simulator whose design is not in the repository. `EvaluateBus` stands for what the circuit is expected to drive for a given input-bus byte and opcode.
- `random.randint` stimulus and the iteration counts of the loops (test/test.py:27-28, 36-89): the lemmas quantify over all operands in [0, 15] instead.
- `display_result` printing (test/test.py:22-23): output only.
- Opcodes 11 to 15: the harness never uses them. The model gives 0 for them; that value is a choice, not something the harness states.
- Any other test source that describes the ALU is not part of this model.
