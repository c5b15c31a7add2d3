/**
 The reference model of a 4-bit arithmetic/logic unit: what the cocotb
 harness in test/test.py expects the circuit to drive on its 8-bit output
 `uo_out` for two 4-bit operands and a 4-bit opcode.

 The operands reach the circuit packed onto the 8-bit input bus `ui_in`
 (operand a in the high nibble, b in the low nibble); the opcode comes on
 `uio_in`. Each expected value is written here with the same Python
 operators the harness uses, taken from module Bits.
 */
module Alu {
  import opened Bits

  /** A 4-bit value: an operand or an opcode. */
  type Nibble = x: nat | x < 16

  /** An 8-bit value: what the input bus carries. */
  type Byte = x: nat | x < 256

  datatype Option<T> = None | Some(value: T)

  /** The eleven operations the harness exercises. */
  datatype Op = Add | Sub | Mul | Div | And | Or | Xor | Not | Enc | Slt | Seq

  /** The fixed key of the ENC operation. */
  const EncKey: nat := 0xAB

  /** The value the harness drives on `uio_in` to select op. */
  function Code(op: Op): nat
  {
    match op
    case Add => 0
    case Sub => 1
    case Mul => 2
    case Div => 3
    case And => 4
    case Or => 5
    case Xor => 6
    case Not => 7
    case Enc => 8
    case Slt => 9
    case Seq => 10
  }

  /** The operation a 4-bit opcode selects; opcodes 11 to 15 select none. */
  function DecodeOp(n: Nibble): (r: Option<Op>)
    ensures r.Some? <==> n <= 10
    ensures r.Some? ==> Code(r.value) == n
  {
    if n == 0 then Some(Add)
    else if n == 1 then Some(Sub)
    else if n == 2 then Some(Mul)
    else if n == 3 then Some(Div)
    else if n == 4 then Some(And)
    else if n == 5 then Some(Or)
    else if n == 6 then Some(Xor)
    else if n == 7 then Some(Not)
    else if n == 8 then Some(Enc)
    else if n == 9 then Some(Slt)
    else if n == 10 then Some(Seq)
    else None
  }

  /** `(a << 4) | b`: the two operands as the harness puts them on `ui_in`. */
  function Pack(a: Nibble, b: Nibble): nat
  {
    BitOr(ShiftLeft(a, 4), b)
  }

  /** The operand in bits 7..4 of the input bus. */
  function UnpackA(x: Byte): Nibble
  {
    x / 16
  }

  /** The operand in bits 3..0 of the input bus. */
  function UnpackB(x: Byte): Nibble
  {
    x % 16
  }

  /** The value the harness asserts on `uo_out` for op applied to a and b. */
  function Expected(op: Op, a: Nibble, b: Nibble): nat
  {
    match op
    case Add => AddResult(a, b)
    case Sub => SubResult(a, b)
    case Mul => MulResult(a, b)
    case Div => DivResult(a, b)
    case And => AndResult(a, b)
    case Or => OrResult(a, b)
    case Xor => XorResult(a, b)
    case Not => NotResult(a, b)
    case Enc => EncResult(a, b)
    case Slt => SltResult(a, b)
    case Seq => SeqResult(a, b)
  }

  /** ADD: `(a + b) & 0xF`. */
  function AddResult(a: Nibble, b: Nibble): nat
  {
    BitAnd(a + b, 0xF)
  }

  /** SUB: `(a - b) & 0xF`. */
  function SubResult(a: Nibble, b: Nibble): nat
  {
    BitAnd(a - b, 0xF)
  }

  /** MUL: `(a * b) & 0xFF`. */
  function MulResult(a: Nibble, b: Nibble): nat
  {
    BitAnd(a * b, 0xFF)
  }

  /** DIV: `((a % b) << 4) | (a // b) if b != 0 else 0`. */
  function DivResult(a: Nibble, b: Nibble): nat
  {
    if b != 0 then BitOr(ShiftLeft(a % b, 4), a / b) else 0
  }

  /** AND: `(a & b) & 0xF`. */
  function AndResult(a: Nibble, b: Nibble): nat
  {
    BitAnd(BitAnd(a, b), 0xF)
  }

  /** OR: `(a | b) & 0xF`. */
  function OrResult(a: Nibble, b: Nibble): nat
  {
    BitAnd(BitOr(a, b), 0xF)
  }

  /** XOR: `(a ^ b) & 0xF`. */
  function XorResult(a: Nibble, b: Nibble): nat
  {
    BitAnd(BitXor(a, b), 0xF)
  }

  /** NOT: `~a & 0xF`; the harness draws b but does not use it. */
  function NotResult(a: Nibble, b: Nibble): nat
  {
    BitAnd(BitNot(a), 0xF)
  }

  /** ENC: `((a << 4) | b) ^ 0xAB`. */
  function EncResult(a: Nibble, b: Nibble): nat
  {
    BitXor(BitOr(ShiftLeft(a, 4), b), EncKey)
  }

  /** SLT: `1 if a < b else 0`. */
  function SltResult(a: Nibble, b: Nibble): nat
  {
    if a < b then 1 else 0
  }

  /** SEQ: `1 if a == b else 0`. */
  function SeqResult(a: Nibble, b: Nibble): nat
  {
    if a == b then 1 else 0
  }

  /**
   The output for operands a, b and a 4-bit opcode. The harness defines no
   output for opcodes 11 to 15; the model gives 0 for them.
   */
  function Evaluate(a: Nibble, b: Nibble, opcode: Nibble): nat
  {
    match DecodeOp(opcode)
    case None => 0
    case Some(op) => Expected(op, a, b)
  }

  /** The output as the circuit sees its inputs: the packed input bus and the opcode bus. */
  function EvaluateBus(ui: Byte, uio: Nibble): nat
  {
    Evaluate(UnpackA(ui), UnpackB(ui), uio)
  }

  /** How many low bits of `uo_out` an opcode's result may occupy (0 for undefined opcodes). */
  function ResultWidth(opcode: Nibble): nat
  {
    match DecodeOp(opcode)
    case None => 0
    case Some(op) =>
      match op
      case Mul => 8
      case Div => 8
      case Enc => 8
      case Slt => 1
      case Seq => 1
      case _ => 4
  }
}
