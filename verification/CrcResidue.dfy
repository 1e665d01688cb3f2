/** What RFC 1952 (section 8) fixes about the checksum beyond its error detection: where it starts,
    how it ends, and in which order it takes bits and bytes. */
module CrcResidue {
  import opened Bytes
  import opened Crc
  import F = Fields

  // ----- Numbers as bits

  lemma {:induction false} LowBitsOfNumber(bits: seq<bool>)
    ensures LowBits(Number(bits), |bits|) == bits
  {
    if |bits| > 0 {
      LowBitsOfNumber(bits[1..]);
      assert bits == [bits[0]] + bits[1..];
    }
  }

  /** The bits of a number written low byte first. */
  lemma {:induction false} BitsOfLittleEndian(bits: seq<bool>, width: nat)
    requires |bits| == 8 * width
    ensures AllBits(F.LittleEndian(Number(bits), width)) == bits
  {
    if width > 0 {
      var low, high := bits[..8], bits[8..];
      assert bits == low + high;
      FirstByte(low, high);
      BitsOfLittleEndian(high, width - 1);
      NextByte(Number(bits), width, low, high);
    }
  }

  lemma FirstByte(low: seq<bool>, high: seq<bool>)
    requires |low| == 8
    ensures Number(low + high) % 256 == Number(low) && Number(low + high) / 256 == Number(high)
    ensures Number(low) < 256 && BitsOf(Number(low)) == low
  {
    ByteThen(low, high);
    ByteBelow(low);
    LowBitsOfNumber(low);
    F.LowByte(Number(low), Number(high));
  }

  lemma NextByte(v: nat, width: nat, low: seq<bool>, high: seq<bool>)
    requires width > 0 && |low| == 8 && BitsOf(v % 256) == low
    requires AllBits(F.LittleEndian(v / 256, width - 1)) == high
    ensures AllBits(F.LittleEndian(v, width)) == low + high
  {
    var bytes := F.LittleEndian(v, width);
    assert bytes[0] == v % 256 && bytes[1..] == F.LittleEndian(v / 256, width - 1);
  }

  lemma ByteBelow(bits: seq<bool>)
    requires |bits| == 8
    ensures Number(bits) < 256
  {
    NumberBelow(bits, 8);
    assert Pow2(8) == 256;
  }

  // ----- The division step on hexadecimal digits

  /** Four bits, least significant first. */
  datatype Digit = Digit(b0: bool, b1: bool, b2: bool, b3: bool)

  const X0: Digit := Digit(false, false, false, false)
  const X1: Digit := Digit(true, false, false, false)
  const X2: Digit := Digit(false, true, false, false)
  const X3: Digit := Digit(true, true, false, false)
  const X4: Digit := Digit(false, false, true, false)
  const X5: Digit := Digit(true, false, true, false)
  const X6: Digit := Digit(false, true, true, false)
  const X7: Digit := Digit(true, true, true, false)
  const X8: Digit := Digit(false, false, false, true)
  const X9: Digit := Digit(true, false, false, true)
  const XA: Digit := Digit(false, true, false, true)
  const XB: Digit := Digit(true, true, false, true)
  const XC: Digit := Digit(false, false, true, true)
  const XD: Digit := Digit(true, false, true, true)
  const XE: Digit := Digit(false, true, true, true)
  const XF: Digit := Digit(true, true, true, true)

  /** A word as eight digits, least significant first. */
  datatype Register = Register(d0: Digit, d1: Digit, d2: Digit, d3: Digit, d4: Digit, d5: Digit, d6: Digit, d7: Digit)

  function DigitAt(c: Word, i: nat): Digit
    requires i < 8
  {
    Digit(c[4 * i], c[4 * i + 1], c[4 * i + 2], c[4 * i + 3])
  }

  function RegisterOf(c: Word): Register {
    Register(DigitAt(c, 0), DigitAt(c, 1), DigitAt(c, 2), DigitAt(c, 3),
             DigitAt(c, 4), DigitAt(c, 5), DigitAt(c, 6), DigitAt(c, 7))
  }

  /** A digit shifted down by one bit, with the bits of `p` flipped if a one fell out. */
  function StepDigit(odd: bool, d: Digit, next: bool, p: Digit): Digit {
    Digit(d.b1 != (odd && p.b0), d.b2 != (odd && p.b1), d.b3 != (odd && p.b2), next != (odd && p.b3))
  }

  /** One division step by 0xEDB88320. */
  function Stepped(r: Register): Register {
    var odd := r.d0.b0;
    Register(StepDigit(odd, r.d0, r.d1.b0, X0), StepDigit(odd, r.d1, r.d2.b0, X2),
             StepDigit(odd, r.d2, r.d3.b0, X3), StepDigit(odd, r.d3, r.d4.b0, X8),
             StepDigit(odd, r.d4, r.d5.b0, X8), StepDigit(odd, r.d5, r.d6.b0, XB),
             StepDigit(odd, r.d6, r.d7.b0, XD), StepDigit(odd, r.d7, false, XE))
  }

  lemma PolynomialDigits()
    ensures RegisterOf(POLYNOMIAL) == Register(X0, X2, X3, X8, X8, XB, XD, XE)
  {
  }

  lemma StepBit(c: Word, k: nat)
    requires k < 32
    ensures Step(c)[k] == ((k < 31 && c[k + 1]) != (c[0] && POLYNOMIAL[k]))
  {
  }

  lemma DigitOfStep(c: Word, i: nat)
    requires i < 8
    ensures DigitAt(Step(c), i) == StepDigit(c[0], DigitAt(c, i), i < 7 && c[4 * i + 4], DigitAt(POLYNOMIAL, i))
  {
    StepBit(c, 4 * i);
    StepBit(c, 4 * i + 1);
    StepBit(c, 4 * i + 2);
    StepBit(c, 4 * i + 3);
  }

  lemma RegisterOfStep(c: Word)
    ensures RegisterOf(Step(c)) == Stepped(RegisterOf(c))
  {
    PolynomialDigits();
    forall i | 0 <= i < 8
      ensures DigitAt(Step(c), i) == StepDigit(c[0], DigitAt(c, i), i < 7 && c[4 * i + 4], DigitAt(POLYNOMIAL, i))
    {
      DigitOfStep(c, i);
    }
    SteppedDigits(c, Step(c), POLYNOMIAL);
  }

  lemma SteppedDigits(c: Word, s: Word, p: Word)
    requires forall i :: 0 <= i < 8 ==>
               DigitAt(s, i) == StepDigit(c[0], DigitAt(c, i), i < 7 && c[4 * i + 4], DigitAt(p, i))
    requires RegisterOf(p) == Register(X0, X2, X3, X8, X8, XB, XD, XE)
    ensures RegisterOf(s) == Stepped(RegisterOf(c))
  {
  }

  /** The registers after `n` and `n + 1` empty steps. */
  lemma NextStep(c: Word, n: nat, r: Register, s: Register)
    requires RegisterOf(Steps(c, n)) == r && Stepped(r) == s
    ensures RegisterOf(Steps(c, n + 1)) == s
  {
    StepsLast(c, n);
    RegisterOfStep(Steps(c, n));
  }

  // ----- Thirty-two steps from all ones

  lemma OnesDigits()
    ensures RegisterOf(ONES) == Register(XF, XF, XF, XF, XF, XF, XF, XF)
  {
    AllOnes();
  }

  lemma EightSteps1(c: Word, n: nat)
    requires RegisterOf(Steps(c, n)) == Register(XF, XF, XF, XF, XF, XF, XF, XF)
    ensures RegisterOf(Steps(c, n + 8)) == Register(X2, X7, X0, X1, XD, XF, XD, X2)
  {
    NextStep(c, n, Register(XF, XF, XF, XF, XF, XF, XF, XF), Register(XF, XD, XC, X7, X7, X4, X2, X9));
    NextStep(c, n + 1, Register(XF, XD, XC, X7, X7, X4, X2, X9), Register(XF, X4, XD, X3, XB, X9, X4, XA));
    NextStep(c, n + 2, Register(XF, X4, XD, X3, XB, X9, X4, XA), Register(X7, X8, XD, X1, X5, XF, XF, XB));
    NextStep(c, n + 3, Register(X7, X8, XD, X1, X5, XF, XF, XB), Register(X3, XE, XD, X0, X2, X4, X2, XB));
    NextStep(c, n + 4, Register(X3, XE, XD, X0, X2, X4, X2, XB), Register(X1, XD, X5, X8, X9, X9, X4, XB));
    NextStep(c, n + 5, Register(X1, XD, X5, X8, X9, X9, X4, XB), Register(X8, XC, X1, X4, X4, XF, X7, XB));
    NextStep(c, n + 6, Register(X8, XC, X1, X4, X4, XF, X7, XB), Register(X4, XE, X0, X2, XA, XF, XB, X5));
    NextStep(c, n + 7, Register(X4, XE, X0, X2, XA, XF, XB, X5), Register(X2, X7, X0, X1, XD, XF, XD, X2));
  }

  lemma EightSteps2(c: Word, n: nat)
    requires RegisterOf(Steps(c, n)) == Register(X2, X7, X0, X1, XD, XF, XD, X2)
    ensures RegisterOf(Steps(c, n + 8)) == Register(X0, X0, XD, XE, X6, X2, XE, XB)
  {
    NextStep(c, n, Register(X2, X7, X0, X1, XD, XF, XD, X2), Register(X9, X3, X8, X8, XE, XF, X6, X1));
    NextStep(c, n + 1, Register(X9, X3, X8, X8, XE, XF, X6, X1), Register(XC, X3, X7, XC, X7, XC, X6, XE));
    NextStep(c, n + 2, Register(XC, X3, X7, XC, X7, XC, X6, XE), Register(XE, X9, X3, XE, X3, X6, X3, X7));
    NextStep(c, n + 3, Register(XE, X9, X3, XE, X3, X6, X3, X7), Register(XF, XC, X1, XF, X1, XB, X9, X3));
    NextStep(c, n + 4, Register(XF, XC, X1, XF, X1, XB, X9, X3), Register(X7, XC, XB, X7, X0, X6, X1, XF));
    NextStep(c, n + 5, Register(X7, XC, XB, X7, X0, X6, X1, XF), Register(X3, XC, XE, XB, X8, X0, X5, X9));
    NextStep(c, n + 6, Register(X3, XC, XE, XB, X8, X0, X5, X9), Register(X1, X4, XC, XD, XC, X3, X7, XA));
    NextStep(c, n + 7, Register(X1, X4, XC, XD, XC, X3, X7, XA), Register(X0, X0, XD, XE, X6, X2, XE, XB));
  }

  lemma EightSteps3(c: Word, n: nat)
    requires RegisterOf(Steps(c, n)) == Register(X0, X0, XD, XE, X6, X2, XE, XB)
    ensures RegisterOf(Steps(c, n + 8)) == Register(XD, XE, X6, X2, XE, XB, X0, X0)
  {
    NextStep(c, n, Register(X0, X0, XD, XE, X6, X2, XE, XB), Register(X0, X8, X6, X7, X3, X1, XF, X5));
    NextStep(c, n + 1, Register(X0, X8, X6, X7, X3, X1, XF, X5), Register(X0, X4, XB, XB, X9, X8, XF, X2));
    NextStep(c, n + 2, Register(X0, X4, XB, XB, X9, X8, XF, X2), Register(X0, XA, XD, XD, X4, XC, X7, X1));
    NextStep(c, n + 3, Register(X0, XA, XD, XD, X4, XC, X7, X1), Register(X0, XD, XE, X6, X2, XE, XB, X0));
    NextStep(c, n + 4, Register(X0, XD, XE, X6, X2, XE, XB, X0), Register(X8, X6, X7, X3, X1, XF, X5, X0));
    NextStep(c, n + 5, Register(X8, X6, X7, X3, X1, XF, X5, X0), Register(X4, XB, XB, X9, X8, XF, X2, X0));
    NextStep(c, n + 6, Register(X4, XB, XB, X9, X8, XF, X2, X0), Register(XA, XD, XD, X4, XC, X7, X1, X0));
    NextStep(c, n + 7, Register(XA, XD, XD, X4, XC, X7, X1, X0), Register(XD, XE, X6, X2, XE, XB, X0, X0));
  }

  lemma EightSteps4(c: Word, n: nat)
    requires RegisterOf(Steps(c, n)) == Register(XD, XE, X6, X2, XE, XB, X0, X0)
    ensures RegisterOf(Steps(c, n + 8)) == Register(X3, XE, X0, X2, XB, XB, XE, XD)
  {
    NextStep(c, n, Register(XD, XE, X6, X2, XE, XB, X0, X0), Register(X6, X5, X0, X9, X7, XE, XD, XE));
    NextStep(c, n + 1, Register(X6, X5, X0, X9, X7, XE, XD, XE), Register(XB, X2, X8, XC, X3, XF, X6, X7));
    NextStep(c, n + 2, Register(XB, X2, X8, XC, X3, XF, X6, X7), Register(X5, X3, X7, X6, X1, XC, X6, XD));
    NextStep(c, n + 3, Register(X5, X3, X7, X6, X1, XC, X6, XD), Register(XA, XB, X0, X3, X8, XD, X6, X8));
    NextStep(c, n + 4, Register(XA, XB, X0, X3, X8, XD, X6, X8), Register(XD, X5, X8, X1, XC, X6, X3, X4));
    NextStep(c, n + 5, Register(XD, X5, X8, X1, XC, X6, X3, X4), Register(XE, X0, XF, X8, XE, X0, XC, XC));
    NextStep(c, n + 6, Register(XE, X0, XF, X8, XE, X0, XC, XC), Register(X7, X8, X7, X4, X7, X0, X6, X6));
    NextStep(c, n + 7, Register(X7, X8, X7, X4, X7, X0, X6, X6), Register(X3, XE, X0, X2, XB, XB, XE, XD));
  }

  lemma ThirtyTwoSteps(c: Word, n: nat)
    requires RegisterOf(Steps(c, n)) == Register(XF, XF, XF, XF, XF, XF, XF, XF)
    ensures RegisterOf(Steps(c, n + 32)) == Register(X3, XE, X0, X2, XB, XB, XE, XD)
  {
    EightSteps1(c, n);
    EightSteps2(c, n + 8);
    EightSteps3(c, n + 16);
    EightSteps4(c, n + 24);
  }

  lemma AllOnes()
    ensures forall i :: 0 <= i < 32 ==> ONES[i]
  {
  }

  lemma {:induction false} NumberOfZeros(bits: seq<bool>)
    requires forall i :: 0 <= i < |bits| ==> !bits[i]
    ensures Number(bits) == 0
  {
    if |bits| > 0 { NumberOfZeros(bits[1..]); }
  }

  function DigitNumber(d: Digit): nat {
    (if d.b0 then 1 else 0) + (if d.b1 then 2 else 0) + (if d.b2 then 4 else 0) + (if d.b3 then 8 else 0)
  }

  function RegisterNumber(r: Register): nat {
    DigitNumber(r.d0) + 0x10 * DigitNumber(r.d1) + 0x100 * DigitNumber(r.d2) + 0x1000 * DigitNumber(r.d3)
    + 0x1_0000 * DigitNumber(r.d4) + 0x10_0000 * DigitNumber(r.d5) + 0x100_0000 * DigitNumber(r.d6)
    + 0x1000_0000 * DigitNumber(r.d7)
  }

  lemma DigitThen(c: Word, i: nat)
    requires i < 8
    ensures Number(c[4 * i..]) == DigitNumber(DigitAt(c, i)) + 16 * Number(c[4 * (i + 1)..])
  {
    FourBits(c[4 * i..]);
    assert c[4 * i..][4..] == c[4 * (i + 1)..];
  }

  lemma NumberOfRegister(c: Word)
    ensures Number(c) == RegisterNumber(RegisterOf(c))
  {
    NumberOfHalf(c, 0);
    NumberOfHalf(c, 4);
    assert c[0..] == c && c[32..] == [];
  }

  lemma NumberOfHalf(c: Word, i: nat)
    requires i <= 4
    ensures Number(c[4 * i..])
         == DigitNumber(DigitAt(c, i)) + 0x10 * DigitNumber(DigitAt(c, i + 1))
            + 0x100 * DigitNumber(DigitAt(c, i + 2)) + 0x1000 * DigitNumber(DigitAt(c, i + 3))
            + 0x1_0000 * Number(c[4 * (i + 4)..])
  {
    DigitThen(c, i);
    DigitThen(c, i + 1);
    DigitThen(c, i + 2);
    DigitThen(c, i + 3);
  }

  function Complement(d: Digit): Digit {
    Digit(!d.b0, !d.b1, !d.b2, !d.b3)
  }

  lemma ComplementDigit(c: Word, i: nat)
    requires i < 8
    ensures DigitAt(Xor(c, ONES), i) == Complement(DigitAt(c, i))
  {
    AllOnes();
    XorBit(c, ONES, 4 * i);
    XorBit(c, ONES, 4 * i + 1);
    XorBit(c, ONES, 4 * i + 2);
    XorBit(c, ONES, 4 * i + 3);
  }

  lemma XorBit(c: Word, d: Word, k: nat)
    requires k < 32
    ensures Xor(c, d)[k] == (c[k] != d[k])
  {
  }

  lemma ComplementRegister(c: Word)
    ensures var r := RegisterOf(c);
            RegisterOf(Xor(c, ONES))
            == Register(Complement(r.d0), Complement(r.d1), Complement(r.d2), Complement(r.d3),
                        Complement(r.d4), Complement(r.d5), Complement(r.d6), Complement(r.d7))
  {
    ComplementDigit(c, 0);
    ComplementDigit(c, 1);
    ComplementDigit(c, 2);
    ComplementDigit(c, 3);
    ComplementDigit(c, 4);
    ComplementDigit(c, 5);
    ComplementDigit(c, 6);
    ComplementDigit(c, 7);
  }

  lemma ResidueNumber()
    ensures Number(Xor(Steps(ONES, 32), ONES)) == 0x2144_DF1C
  {
    OnesDigits();
    ThirtyTwoSteps(ONES, 0);
    ComplementRegister(Steps(ONES, 32));
    assert RegisterOf(Xor(Steps(ONES, 32), ONES)) == Register(XC, X1, XF, XD, X4, X4, X1, X2);
    NumberOfRegister(Xor(Steps(ONES, 32), ONES));
  }

  // ----- Main results

  /** The empty message has checksum zero. */
  lemma EmptyChecksum()
    ensures Crc32([]) == 0
  {
    AllOnes();
    NumberOfZeros(Xor(ONES, ONES));
  }

  /** Dividing a register on by its own complement ends where 32 empty steps from all ones end. */
  lemma OwnComplement(register: Word)
    ensures Divide(register, Xor(register, ONES)) == Steps(ONES, 32)
  {
    FoldedGroupDivides(register, Xor(register, ONES));
    AllOnes();
    assert Fold(register, Xor(register, ONES)) == ONES;
  }

  /** A message followed by its own checksum, low byte first, always has the checksum
      0x2144DF1C. */
  lemma ChecksumResidue(message: seq<byte>)
    ensures Crc32(message + F.LittleEndian(Crc32(message), 4)) == 0x2144_DF1C
  {
    var register := Divide(ONES, AllBits(message));
    var sum := Xor(register, ONES);
    AllBitsConcat(message, F.LittleEndian(Crc32(message), 4));
    BitsOfLittleEndian(sum, 4);
    DivideConcat(ONES, AllBits(message), sum);
    OwnComplement(register);
    ResidueNumber();
  }
}
