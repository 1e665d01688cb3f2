/** CRC-32 as the configuration envelopes use it: reflected polynomial 0xEDB88320, initial
    value and final complement all ones (section 8 of RFC 1952, clause 3.2.9 of IEEE 802.3).

    A 32-bit register is the sequence of its bits, least significant first. */
module Crc {

  import opened Bytes

  type Word = bits: seq<bool> | |bits| == 32 witness
    [false, false, false, false, false, false, false, false, false, false, false, false, false, false, false, false,
     false, false, false, false, false, false, false, false, false, false, false, false, false, false, false, false]

  const BYTE_20: seq<bool> := [false, false, false, false, false, true, false, false]
  const BYTE_83: seq<bool> := [true, true, false, false, false, false, false, true]
  const BYTE_B8: seq<bool> := [false, false, false, true, true, true, false, true]
  const BYTE_ED: seq<bool> := [true, false, true, true, false, true, true, true]

  /** 0xEDB88320. */
  const POLYNOMIAL: Word := BYTE_20 + BYTE_83 + BYTE_B8 + BYTE_ED

  lemma PolynomialBytes()
    ensures Number(BYTE_20) == 0x20 && Number(BYTE_83) == 0x83
    ensures Number(BYTE_B8) == 0xB8 && Number(BYTE_ED) == 0xED
  {
    EightBits(BYTE_20);
    EightBits(BYTE_83);
    EightBits(BYTE_B8);
    EightBits(BYTE_ED);
  }

  lemma PolynomialIs()
    ensures Number(POLYNOMIAL) == 0xEDB8_8320
  {
    PolynomialBytes();
    FourBytes(BYTE_20, BYTE_83, BYTE_B8, BYTE_ED);
  }

  lemma FourBytes(a: seq<bool>, b: seq<bool>, c: seq<bool>, d: seq<bool>)
    requires |a| == |b| == |c| == 8
    ensures Number(a + b + c + d) == Number(a) + 0x100 * Number(b) + 0x1_0000 * Number(c) + 0x100_0000 * Number(d)
  {
    assert a + b + c + d == a + (b + (c + d));
    ByteThen(a, b + (c + d));
    ByteThen(b, c + d);
    ByteThen(c, d);
  }

  lemma ByteThen(s: seq<bool>, t: seq<bool>)
    requires |s| == 8
    ensures Number(s + t) == Number(s) + 0x100 * Number(t)
  {
    EightBits(s);
    FourBits(s + t);
    assert (s + t)[4..] == s[4..] + t;
    FourBits(s[4..] + t);
    assert (s[4..] + t)[4..] == t;
  }

  lemma EightBits(s: seq<bool>)
    requires |s| == 8
    ensures Number(s)
         == (if s[0] then 1 else 0) + (if s[1] then 2 else 0) + (if s[2] then 4 else 0) + (if s[3] then 8 else 0)
          + (if s[4] then 16 else 0) + (if s[5] then 32 else 0) + (if s[6] then 64 else 0)
          + (if s[7] then 128 else 0)
  {
    FourBits(s);
    FourBits(s[4..]);
    assert s[4..][4..] == [];
  }

  lemma FourBits(s: seq<bool>)
    requires |s| >= 4
    ensures Number(s)
         == (if s[0] then 1 else 0) + (if s[1] then 2 else 0) + (if s[2] then 4 else 0) + (if s[3] then 8 else 0)
          + 16 * Number(s[4..])
  {
    NextBit(s, 0);
    NextBit(s, 1);
    NextBit(s, 2);
    NextBit(s, 3);
    assert s[0..] == s;
  }

  lemma NextBit(s: seq<bool>, i: nat)
    requires i < |s|
    ensures Number(s[i..]) == (if s[i] then 1 else 0) + 2 * Number(s[i + 1..])
  {
    assert s[i..][1..] == s[i + 1..];
  }

  const ONES: Word :=
    [true, true, true, true, true, true, true, true, true, true, true, true, true, true, true, true,
     true, true, true, true, true, true, true, true, true, true, true, true, true, true, true, true]

  function Xor(c: Word, d: Word): Word {
    seq(32, i requires 0 <= i < 32 => c[i] != d[i])
  }

  function ShiftRight(c: Word): Word {
    c[1..] + [false]
  }

  /** One division step of the register. */
  function Step(c: Word): Word {
    if c[0] then Xor(ShiftRight(c), POLYNOMIAL) else ShiftRight(c)
  }

  /** The register with `bits` folded into its low end. */
  function Fold(c: Word, bits: seq<bool>): Word
    requires |bits| <= 32
  {
    seq(32, i requires 0 <= i < 32 => c[i] != (i < |bits| && bits[i]))
  }

  function LowBits(v: nat, n: nat): (bits: seq<bool>)
    ensures |bits| == n
    decreases n
  {
    if n == 0 then [] else [v % 2 == 1] + LowBits(v / 2, n - 1)
  }

  /** The bits of a byte in the order the division meets them, least significant first. */
  function BitsOf(b: byte): (bits: seq<bool>)
    ensures |bits| == 8
  {
    LowBits(b, 8)
  }

  function AllBits(bytes: seq<byte>): (bits: seq<bool>)
    ensures |bits| == 8 * |bytes|
  {
    if |bytes| == 0 then [] else BitsOf(bytes[0]) + AllBits(bytes[1..])
  }

  /** Polynomial division, one bit at a time, from register `c`. */
  function Divide(c: Word, bits: seq<bool>): Word
    decreases |bits|
  {
    if |bits| == 0 then c else Divide(Step(Fold(c, [bits[0]])), bits[1..])
  }

  /** A word as an unsigned number. */
  function Number(bits: seq<bool>): nat {
    if |bits| == 0 then 0 else (if bits[0] then 1 else 0) + 2 * Number(bits[1..])
  }

  /** The checksum of `bytes` as a 32-bit unsigned number. */
  function Crc32(bytes: seq<byte>): nat {
    Number(Xor(Divide(ONES, AllBits(bytes)), ONES))
  }

  // ----- The source's loop: a byte is folded in at once, then shifted eight times

  function Steps(c: Word, n: nat): Word
    decreases n
  {
    if n == 0 then c else Steps(Step(c), n - 1)
  }

  lemma {:induction false} FoldedGroupDivides(c: Word, bits: seq<bool>)
    requires |bits| <= 32
    ensures Steps(Fold(c, bits), |bits|) == Divide(c, bits)
    decreases |bits|
  {
    if |bits| == 0 {
      assert Fold(c, []) == c;
    } else {
      assert Step(Fold(c, bits)) == Fold(Step(Fold(c, [bits[0]])), bits[1..]);
      FoldedGroupDivides(Step(Fold(c, [bits[0]])), bits[1..]);
    }
  }

  lemma {:induction false} DivideConcat(c: Word, s: seq<bool>, t: seq<bool>)
    ensures Divide(c, s + t) == Divide(Divide(c, s), t)
    decreases |s|
  {
    if |s| == 0 {
      assert s + t == t;
    } else {
      assert (s + t)[1..] == s[1..] + t;
      DivideConcat(Step(Fold(c, [s[0]])), s[1..], t);
    }
  }

  lemma {:induction false} AllBitsConcat(s: seq<byte>, t: seq<byte>)
    ensures AllBits(s + t) == AllBits(s) + AllBits(t)
  {
    if |s| == 0 {
      assert s + t == t;
    } else {
      assert (s + t)[1..] == s[1..] + t;
      AllBitsConcat(s[1..], t);
    }
  }

  lemma {:induction false} StepsLast(c: Word, n: nat)
    ensures Steps(c, n + 1) == Step(Steps(c, n))
    decreases n
  {
    if n > 0 { StepsLast(Step(c), n - 1); }
  }

  /** The checksum loop of the source computes polynomial division. */
  method ComputeCrc32(value: seq<byte>) returns (crc: nat)
    ensures crc == Crc32(value)
  {
    var register := ONES;
    for i := 0 to |value|
      invariant register == Divide(ONES, AllBits(value[..i]))
    {
      ghost var before := register;
      register := Fold(register, BitsOf(value[i]));
      for bit := 0 to 8
        invariant register == Steps(Fold(before, BitsOf(value[i])), bit)
      {
        StepsLast(Fold(before, BitsOf(value[i])), bit);
        register := if register[0] then Xor(ShiftRight(register), POLYNOMIAL) else ShiftRight(register);
      }
      FoldedGroupDivides(before, BitsOf(value[i]));
      AppendByte(value, i);
      DivideConcat(ONES, AllBits(value[..i]), BitsOf(value[i]));
    }
    assert value[..|value|] == value;
    crc := Number(Xor(register, ONES));
  }

  lemma AppendByte(value: seq<byte>, i: nat)
    requires i < |value|
    ensures AllBits(value[..i + 1]) == AllBits(value[..i]) + BitsOf(value[i])
  {
    assert value[..i + 1] == value[..i] + [value[i]];
    AllBitsConcat(value[..i], [value[i]]);
    assert BitsOf(value[i]) + [] == BitsOf(value[i]);
  }

  // ----- Error detection

  /** Two registers with a difference `d`, fed bits that differ in `x`, end with difference
      `Step(Fold(d, [x]))`. */
  lemma DifferenceStep(c: Word, c': Word, b: bool, b': bool)
    ensures Xor(Step(Fold(c, [b])), Step(Fold(c', [b']))) == Step(Fold(Xor(c, c'), [b != b']))
  {
  }

  ghost predicate NonZero(c: Word) {
    exists i :: 0 <= i < 32 && c[i]
  }

  /** Some bit at position `low` or above is set. */
  ghost predicate SetFrom(c: Word, low: nat) {
    exists i :: low <= i < 32 && c[i]
  }

  lemma StepKeepsHighBit(d: Word, x: bool, low: nat)
    requires 1 <= low < 32 && SetFrom(d, low)
    ensures SetFrom(Step(Fold(d, [x])), low - 1)
  {
    var i :| low <= i < 32 && d[i];
    var f := Fold(d, [x]);
    assert f[i];
    if f[0] {
      assert Step(f)[31];
    } else {
      assert Step(f)[i - 1];
    }
  }

  lemma StepNonZero(d: Word)
    requires NonZero(d)
    ensures NonZero(Step(Fold(d, [false])))
  {
    var i :| 0 <= i < 32 && d[i];
    var f := Fold(d, [false]);
    assert f == d;
    if f[0] {
      assert Step(f)[31];
    } else {
      assert Step(f)[i - 1];
    }
  }

  lemma XorZero(c: Word, c': Word)
    ensures NonZero(Xor(c, c')) <==> c != c'
  {
    if c != c' {
      var i :| 0 <= i < 32 && c[i] != c'[i];
      assert Xor(c, c')[i];
    }
  }

  /** Equal bits never cancel a difference. */
  lemma {:induction false} DifferenceSurvives(c: Word, c': Word, bits: seq<bool>)
    requires c != c'
    ensures Divide(c, bits) != Divide(c', bits)
    decreases |bits|
  {
    if |bits| > 0 {
      XorZero(c, c');
      StepNonZero(Xor(c, c'));
      DifferenceStep(c, c', bits[0], bits[0]);
      var d, d' := Step(Fold(c, [bits[0]])), Step(Fold(c', [bits[0]]));
      XorZero(d, d');
      DifferenceSurvives(d, d', bits[1..]);
    }
  }

  /** A difference that reaches up to `low` outlives `low` more bits, whatever they are. */
  lemma {:induction false} HighDifferenceSurvives(c: Word, c': Word, s: seq<bool>, s': seq<bool>, low: nat)
    requires |s| == |s'| <= low < 32 && SetFrom(Xor(c, c'), low)
    ensures Divide(c, s) != Divide(c', s')
    decreases |s|
  {
    if |s| == 0 {
      XorZero(c, c');
    } else {
      StepKeepsHighBit(Xor(c, c'), s[0] != s'[0], low);
      DifferenceStep(c, c', s[0], s'[0]);
      HighDifferenceSurvives(Step(Fold(c, [s[0]])), Step(Fold(c', [s'[0]])), s[1..], s'[1..], low - 1);
    }
  }

  /** From one register, different bit strings of equal length up to 32 lead to different
      registers. */
  lemma {:induction false} WindowDetected(c: Word, s: seq<bool>, s': seq<bool>)
    requires |s| == |s'| <= 32 && s != s'
    ensures Divide(c, s) != Divide(c, s')
    decreases |s|
  {
    if s[0] == s'[0] {
      assert s[1..] != s'[1..] by {
        assert s == [s[0]] + s[1..] && s' == [s'[0]] + s'[1..];
      }
      WindowDetected(Step(Fold(c, [s[0]])), s[1..], s'[1..]);
    } else {
      var d, d' := Step(Fold(c, [s[0]])), Step(Fold(c, [s'[0]]));
      DifferenceStep(c, c, s[0], s'[0]);
      assert Fold(Xor(c, c), [true])[0];
      assert Xor(d, d')[31];
      HighDifferenceSurvives(d, d', s[1..], s'[1..], 31);
    }
  }

  /** Every error burst of up to 32 consecutive bits changes the register. */
  lemma BurstDetected(c: Word, prefix: seq<bool>, s: seq<bool>, s': seq<bool>, suffix: seq<bool>)
    requires |s| == |s'| <= 32 && s != s'
    ensures Divide(c, prefix + s + suffix) != Divide(c, prefix + s' + suffix)
  {
    DivideConcat(c, prefix + s, suffix);
    DivideConcat(c, prefix + s', suffix);
    DivideConcat(c, prefix, s);
    DivideConcat(c, prefix, s');
    WindowDetected(Divide(c, prefix), s, s');
    DifferenceSurvives(Divide(Divide(c, prefix), s), Divide(Divide(c, prefix), s'), suffix);
  }

  lemma {:induction false} NumberInjective(s: seq<bool>, t: seq<bool>)
    requires |s| == |t| && Number(s) == Number(t)
    ensures s == t
  {
    if |s| > 0 {
      NumberInjective(s[1..], t[1..]);
      assert s == [s[0]] + s[1..] && t == [t[0]] + t[1..];
    }
  }

  /** `value` and `changed` differ only inside a window of up to 32 consecutive bits. */
  ghost predicate BurstApart(value: seq<byte>, changed: seq<byte>,
                             prefix: seq<bool>, s: seq<bool>, s': seq<bool>, suffix: seq<bool>)
  {
    && |s| == |s'| <= 32 && s != s'
    && AllBits(value) == prefix + s + suffix && AllBits(changed) == prefix + s' + suffix
  }

  lemma ChecksumDetectsBurst(value: seq<byte>, changed: seq<byte>,
                             prefix: seq<bool>, s: seq<bool>, s': seq<bool>, suffix: seq<bool>)
    requires BurstApart(value, changed, prefix, s, s', suffix)
    ensures Crc32(value) != Crc32(changed)
  {
    BurstDetected(ONES, prefix, s, s', suffix);
    var r, r' := Divide(ONES, AllBits(value)), Divide(ONES, AllBits(changed));
    var i :| 0 <= i < 32 && r[i] != r'[i];
    assert Xor(r, ONES)[i] != Xor(r', ONES)[i];
    if Crc32(value) == Crc32(changed) {
      NumberInjective(Xor(r, ONES), Xor(r', ONES));
    }
  }

  lemma NumberBound(bits: seq<bool>)
    requires |bits| == 32
    ensures Number(bits) < 0x1_0000_0000
  {
    NumberBelow(bits, 32);
    assert Pow2(8) == 0x100;
    Pow2Plus8(8);
    Pow2Plus8(16);
    Pow2Plus8(24);
  }

  lemma Pow2Plus8(n: nat)
    ensures Pow2(n + 8) == 0x100 * Pow2(n)
  {
    assert Pow2(n + 2) == 4 * Pow2(n);
    assert Pow2(n + 4) == 4 * Pow2(n + 2);
    assert Pow2(n + 6) == 4 * Pow2(n + 4);
    assert Pow2(n + 8) == 4 * Pow2(n + 6);
  }

  function Pow2(n: nat): nat {
    if n == 0 then 1 else 2 * Pow2(n - 1)
  }

  lemma {:induction false} NumberBelow(bits: seq<bool>, n: nat)
    requires |bits| == n
    ensures Number(bits) < Pow2(n)
  {
    if n > 0 { NumberBelow(bits[1..], n - 1); }
  }

  lemma {:induction false} NumberOfLowBits(v: nat, n: nat)
    requires v < Pow2(n)
    ensures Number(LowBits(v, n)) == v
    decreases n
  {
    if n > 0 {
      NumberOfLowBits(v / 2, n - 1);
      assert LowBits(v, n)[1..] == LowBits(v / 2, n - 1);
    }
  }

  lemma BitsOfInjective(b: byte, b': byte)
    requires BitsOf(b) == BitsOf(b')
    ensures b == b'
  {
    assert Pow2(8) == 256;
    NumberOfLowBits(b, 8);
    NumberOfLowBits(b', 8);
  }

  lemma {:induction false} AllBitsInjective(s: seq<byte>, t: seq<byte>)
    requires |s| == |t| && AllBits(s) == AllBits(t)
    ensures s == t
  {
    if |s| > 0 {
      assert BitsOf(s[0]) == AllBits(s)[..8] && AllBits(s[1..]) == AllBits(s)[8..];
      assert BitsOf(t[0]) == AllBits(t)[..8] && AllBits(t[1..]) == AllBits(t)[8..];
      BitsOfInjective(s[0], t[0]);
      AllBitsInjective(s[1..], t[1..]);
      assert s == [s[0]] + s[1..] && t == [t[0]] + t[1..];
    }
  }

  /** Any change confined to four consecutive bytes changes the checksum. */
  lemma ChecksumDetectsFourBytes(prefix: seq<byte>, s: seq<byte>, s': seq<byte>, suffix: seq<byte>)
    requires |s| == |s'| <= 4 && s != s'
    ensures Crc32(prefix + s + suffix) != Crc32(prefix + s' + suffix)
  {
    if AllBits(s) == AllBits(s') { AllBitsInjective(s, s'); }
    AllBitsConcat(prefix + s, suffix);
    AllBitsConcat(prefix, s);
    AllBitsConcat(prefix + s', suffix);
    AllBitsConcat(prefix, s');
    ChecksumDetectsBurst(prefix + s + suffix, prefix + s' + suffix,
                         AllBits(prefix), AllBits(s), AllBits(s'), AllBits(suffix));
  }
}
