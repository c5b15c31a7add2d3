/**
 What the harness's expected values mean, stated for all operands in
 [0, 15] instead of the harness's random samples.
 */
module AluProperties {
  import opened Bits
  import opened Alu

  /** The powers of two behind the 4-bit and 8-bit widths. */
  lemma Pow2Nibble()
    ensures Pow2(4) == 16 && Pow2(8) == 256
  {
  }

  /** `(a << 4) | b` is `16 * a + b`: the shifted operand and b share no bit. */
  lemma {:induction false} PackValue(a: Nibble, b: Nibble)
    ensures Pack(a, b) == 16 * a + b
  {
    Pow2Nibble();
    OrDisjoint(a, b, 4);
  }

  /** Packing two operands fits the 8-bit bus, and each operand reads back from its nibble. */
  lemma {:induction false} PackUnpack(a: Nibble, b: Nibble)
    ensures Pack(a, b) < 256
    ensures UnpackA(Pack(a, b)) == a && UnpackB(Pack(a, b)) == b
  {
    PackValue(a, b);
  }

  /** Every byte on the input bus is the packing of its two nibbles. */
  lemma {:induction false} UnpackPack(x: Byte)
    ensures Pack(UnpackA(x), UnpackB(x)) == x
  {
    PackValue(UnpackA(x), UnpackB(x));
  }

  /** Opcode numbering and decoding agree, and an opcode number runs its operation. */
  lemma DecodeCode(op: Op, a: Nibble, b: Nibble)
    ensures Code(op) <= 10 && DecodeOp(Code(op)) == Some(op)
    ensures Evaluate(a, b, Code(op)) == Expected(op, a, b)
  {
  }

  /** Opcodes 11 to 15 are undefined; the model drives 0 for them. */
  lemma UndefinedOpcode(a: Nibble, b: Nibble, opcode: Nibble)
    requires opcode > 10
    ensures Evaluate(a, b, opcode) == 0
  {
  }

  /** ADD is addition modulo 16: it wraps past 15 instead of saturating. */
  lemma {:induction false} AddWraps(a: Nibble, b: Nibble)
    ensures AddResult(a, b) == (a + b) % 16
    ensures AddResult(a, b) == if a + b < 16 then a + b else a + b - 16
  {
    Mask4(a + b);
    if a + b < 16 {
      DivModUnique(a + b, 16, 0, a + b);
    } else {
      DivModUnique(a + b, 16, 1, a + b - 16);
    }
  }

  /** SUB is subtraction modulo 16: it wraps below 0 instead of going negative. */
  lemma {:induction false} SubWraps(a: Nibble, b: Nibble)
    ensures SubResult(a, b) == (a - b) % 16
    ensures SubResult(a, b) == if a >= b then a - b else a - b + 16
  {
    Mask4(a - b);
    if a >= b {
      DivModUnique(a - b, 16, 0, a - b);
    } else {
      DivModUnique(a - b, 16, -1, a - b + 16);
    }
  }

  /** MUL keeps the whole product: 8 bits hold 15 * 15 = 225. */
  lemma {:induction false} MulExact(a: Nibble, b: Nibble)
    ensures MulResult(a, b) == a * b
    ensures MulResult(a, b) <= 225
  {
    assert a * b <= 15 * b;
    MaskByte(a * b);
  }

  /** DIV by zero is defined and gives 0. */
  lemma DivByZero(a: Nibble)
    ensures DivResult(a, 0) == 0
  {
  }

  /**
   DIV with a non-zero divisor packs the remainder into the high nibble and
   the quotient into the low nibble; reading both back rebuilds the dividend.
   */
  lemma {:induction false} DivPacked(a: Nibble, b: Nibble)
    requires b != 0
    ensures DivResult(a, b) == 16 * (a % b) + a / b
    ensures DivResult(a, b) < 256
    ensures UnpackA(DivResult(a, b)) == a % b && UnpackB(DivResult(a, b)) == a / b
    ensures b * UnpackB(DivResult(a, b)) + UnpackA(DivResult(a, b)) == a
  {
    var q, r := a / b, a % b;
    QuotientBound(a, b);
    PackValue(r, q);
    assert DivResult(a, b) == Pack(r, q);
    var v := 16 * r + q;
    assert v / 16 == r && v % 16 == q;
  }

  /** Dividing a 4-bit value leaves a quotient no larger than it and a remainder below the divisor. */
  lemma QuotientBound(a: Nibble, b: Nibble)
    requires b != 0
    ensures a / b <= a && a % b < b && a == b * (a / b) + a % b
  {
  }

  /** `x & 0xF` is x modulo 16, for negative x too. */
  lemma {:induction false} Mask4(x: int)
    ensures BitAnd(x, 0xF) == x % 16
  {
    Pow2Nibble();
    MaskIsMod(x, 4);
  }

  /** `x & 0xFF` is x modulo 256. */
  lemma {:induction false} Mask8(x: int)
    ensures BitAnd(x, 0xFF) == x % 256
  {
    Pow2Nibble();
    MaskIsMod(x, 8);
  }

  /** An 8-bit value is unchanged by the mask `& 0xFF`. */
  lemma {:induction false} MaskByte(x: nat)
    requires x < 256
    ensures BitAnd(x, 0xFF) == x
  {
    Mask8(x);
    DivModUnique(x, 256, 0, x);
  }

  /** A 4-bit value is unchanged by the mask `& 0xF`. */
  lemma {:induction false} MaskNibble(x: nat)
    requires x < 16
    ensures BitAnd(x, 0xF) == x
  {
    Mask4(x);
    DivModUnique(x, 16, 0, x);
  }

  /** AND is bitwise conjunction of the operands and stays within 4 bits. */
  lemma {:induction false} AndBitwise(a: Nibble, b: Nibble)
    ensures AndResult(a, b) == BitAnd(a, b) && AndResult(a, b) < 16
    ensures forall i: nat :: Bit(AndResult(a, b), i) == (Bit(a, i) && Bit(b, i))
  {
    MaskNibble(BitAnd(a, b));
    forall i: nat ensures Bit(BitAnd(a, b), i) == (Bit(a, i) && Bit(b, i)) {
      BitAndBits(a, b, i);
    }
  }

  /** OR is bitwise disjunction of the operands and stays within 4 bits. */
  lemma {:induction false} OrBitwise(a: Nibble, b: Nibble)
    ensures OrResult(a, b) == BitOr(a, b) && OrResult(a, b) < 16
    ensures forall i: nat :: Bit(OrResult(a, b), i) == (Bit(a, i) || Bit(b, i))
  {
    Pow2Nibble();
    OrXorWidth(a, b, 4);
    MaskNibble(BitOr(a, b));
    forall i: nat ensures Bit(BitOr(a, b), i) == (Bit(a, i) || Bit(b, i)) {
      BitOrBits(a, b, i);
    }
  }

  /** XOR is bitwise difference of the operands and stays within 4 bits. */
  lemma {:induction false} XorBitwise(a: Nibble, b: Nibble)
    ensures XorResult(a, b) == BitXor(a, b) && XorResult(a, b) < 16
    ensures forall i: nat :: Bit(XorResult(a, b), i) == (Bit(a, i) != Bit(b, i))
  {
    Pow2Nibble();
    OrXorWidth(a, b, 4);
    MaskNibble(BitXor(a, b));
    forall i: nat ensures Bit(BitXor(a, b), i) == (Bit(a, i) != Bit(b, i)) {
      BitXorBits(a, b, i);
    }
  }

  /** NOT is 15 - a: the complement of a within four bits, whatever b is. */
  lemma {:induction false} NotValue(a: Nibble, b: Nibble)
    ensures NotResult(a, b) == 15 - a
  {
    Mask4(BitNot(a));
  }

  /** NOT ignores its second operand, and applying it twice gives a back. */
  lemma {:induction false} NotInvolution(a: Nibble, b: Nibble, c: Nibble)
    ensures NotResult(a, b) == NotResult(a, c)
    ensures NotResult(NotResult(a, b), c) == a
  {
    NotValue(a, b);
    NotValue(a, c);
    NotValue(15 - a, c);
  }

  /** NOT flips each of the four bits of a. */
  lemma {:induction false} NotBitwise(a: Nibble, b: Nibble)
    ensures forall i: nat :: i < 4 ==> Bit(NotResult(a, b), i) == !Bit(a, i)
  {
    forall i: nat | i < 4 ensures Bit(NotResult(a, b), i) == !Bit(a, i) {
      BitAndBits(BitNot(a), 0xF, i);
      BitNotBits(a, i);
      LowNibbleOnes(i);
    }
  }

  /** The four low bits of 0xF are set. */
  lemma LowNibbleOnes(i: nat)
    requires i < 4
    ensures Bit(0xF, i)
  {
  }

  /**
   ENC XORs the packed operands with the key 0xAB. The result is a byte,
   and XOR-ing it with the key again gives back the packed operands.
   */
  lemma {:induction false} EncXorKey(a: Nibble, b: Nibble)
    ensures EncResult(a, b) == BitXor(Pack(a, b), EncKey)
    ensures EncResult(a, b) < 256
    ensures BitXor(EncResult(a, b), EncKey) == Pack(a, b)
    ensures forall i: nat :: Bit(EncResult(a, b), i) == (Bit(Pack(a, b), i) != Bit(EncKey, i))
  {
    Pow2Nibble();
    PackUnpack(a, b);
    OrXorWidth(Pack(a, b), EncKey, 8);
    XorInvolution(Pack(a, b), EncKey);
    forall i: nat ensures Bit(BitXor(Pack(a, b), EncKey), i) == (Bit(Pack(a, b), i) != Bit(EncKey, i)) {
      BitXorBits(Pack(a, b), EncKey, i);
    }
  }

  /**
   Feeding the ENC output back onto the input bus and running ENC again
   decrypts it: the result is the original packed pair, so both operands
   are recovered.
   */
  lemma {:induction false} EncRoundTrip(a: Nibble, b: Nibble)
    ensures EncResult(a, b) < 256
    ensures EvaluateBus(EncResult(a, b), 8) == Pack(a, b)
  {
    EncXorKey(a, b);
    var e := EncResult(a, b);
    UnpackPack(e);
    assert EncResult(UnpackA(e), UnpackB(e)) == BitXor(Pack(UnpackA(e), UnpackB(e)), EncKey);
  }

  /** SLT and SEQ are flags: 1 exactly when a < b, respectively a == b, and 0 otherwise. */
  lemma CompareFlags(a: Nibble, b: Nibble)
    ensures SltResult(a, b) <= 1 && (SltResult(a, b) == 1 <==> a < b)
    ensures SeqResult(a, b) <= 1 && (SeqResult(a, b) == 1 <==> a == b)
  {
  }

  /** Every output fits the width its opcode allows, and so fits the 8-bit output bus. */
  lemma {:induction false} OutputWidth(a: Nibble, b: Nibble, opcode: Nibble)
    ensures Evaluate(a, b, opcode) < Pow2(ResultWidth(opcode))
    ensures Evaluate(a, b, opcode) < 256
  {
    Pow2Nibble();
    assert Pow2(1) == 2;
    if opcode == 0 { AddWraps(a, b); }
    else if opcode == 1 { SubWraps(a, b); }
    else if opcode == 2 { MulExact(a, b); }
    else if opcode == 3 { if b != 0 { DivPacked(a, b); } }
    else if opcode == 4 { AndBitwise(a, b); }
    else if opcode == 5 { OrBitwise(a, b); }
    else if opcode == 6 { XorBitwise(a, b); }
    else if opcode == 7 { NotValue(a, b); }
    else if opcode == 8 { EncXorKey(a, b); }
  }

  /** The fixed SLT and SEQ cases the harness drives on the packed input bus. */
  lemma BoundaryCases()
    ensures Pack(2, 12) == 0x2C && EvaluateBus(0x2C, 9) == 1
    ensures Pack(10, 3) == 0xA3 && EvaluateBus(0xA3, 9) == 0
    ensures Pack(5, 5) == 0x55 && EvaluateBus(0x55, 10) == 1
    ensures Pack(2, 5) == 0x25 && EvaluateBus(0x25, 10) == 0
  {
    PackValue(2, 12);
    PackValue(10, 3);
    PackValue(5, 5);
    PackValue(2, 5);
  }

  /**
   Worked values: SUB wraps 0 - 1 to 15, MUL reaches 225 at 15 * 15, DIV of
   10 by 3 packs remainder 1 over quotient 3, NOT maps 0 and 15 to each
   other, and ENC of the zero pair is the key itself.
   */
  lemma {:induction false} SampleValues()
    ensures Evaluate(0, 1, 1) == 15
    ensures Evaluate(15, 15, 2) == 225
    ensures Evaluate(10, 3, 3) == 0x13
    ensures Evaluate(0, 9, 7) == 15 && Evaluate(15, 9, 7) == 0
    ensures Evaluate(0, 0, 8) == 0xAB
  {
    SubWraps(0, 1);
    MulExact(15, 15);
    DivPacked(10, 3);
    NotValue(0, 9);
    NotValue(15, 9);
    EncXorKey(0, 0);
    PackValue(0, 0);
  }
}
