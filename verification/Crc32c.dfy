// CRC-32C as the code uses it (crc32.MakeTable(crc32.Castagnoli)), given by its
// bit-serial definition on a 32-bit register: section 12.1 of RFC 3720.
module Crc32c {
  import opened Automata
  import BigEndian
  import opened Types

  // The generator polynomial, reflected.
  const POLY: bv32 := 0x82F6_3B78

  // Whether the register's low bit and the incoming bit make the polynomial apply.
  predicate Feedback(s: bv32, bit: bool) {
    (s & 1 == 1) != bit
  }

  function Step(s: bv32, bit: bool): bv32 {
    if Feedback(s, bit) then (s >> 1) ^ POLY else s >> 1
  }

  // The n low bits of b in transmission order: least significant first.
  function Digits(n: nat, b: nat): (r: seq<bool>)
    ensures |r| == n
  {
    if n == 0 then [] else [b % 2 == 1] + Digits(n - 1, b / 2)
  }

  function Power2(n: nat): (p: nat)
    ensures p > 0
  {
    if n == 0 then 1 else 2 * Power2(n - 1)
  }

  function Bits(data: seq<byte>): (r: seq<bool>)
    ensures |r| == 8 * |data|
  {
    if data == [] then [] else Digits(8, data[0]) + Bits(data[1..])
  }

  // The register after all of data, started with all ones.
  function Raw(data: seq<byte>): bv32 {
    Run(Step, 0xFFFF_FFFF, Bits(data))
  }

  // The complement of that.
  function Register(data: seq<byte>): bv32 {
    Raw(data) ^ 0xFFFF_FFFF
  }

  // crc32.Checksum(data, crc32CTable)
  function Checksum(data: seq<byte>): uint32 {
    Register(data) as int
  }

  lemma RegisterInjective(x: bv32, y: bv32)
    requires x as int == y as int
    ensures x == y
  {
    assert (x as int) as bv32 == x;
    assert (y as int) as bv32 == y;
  }

  lemma ComplementInjective(x: bv32, y: bv32)
    requires x ^ 0xFFFF_FFFF == y ^ 0xFFFF_FFFF
    ensures x == y
  {}

  // ----- The register map is injective in the state -----

  lemma StepInjective(s: bv32, t: bv32, bit: bool)
    requires Step(s, bit) == Step(t, bit)
    ensures s == t
  {}

  // ----- The register map is injective in any 32 bits of input -----

  // All ones except the k low bits.
  function Mask(k: nat): bv32 {
    if k == 0 then 0xFFFF_FFFF else Mask(k - 1) << 1
  }

  lemma ShiftMonotone(m: bv32, n: bv32)
    requires n & m == n
    ensures (n << 1) & (m << 1) == n << 1
  {}

  lemma {:induction false} MaskShrinks(k: nat)
    ensures Mask(k + 1) & Mask(k) == Mask(k + 1)
  {
    if k == 0 {
      assert Mask(1) == 0xFFFF_FFFE;
    } else {
      MaskShrinks(k - 1);
      ShiftMonotone(Mask(k - 1), Mask(k));
    }
  }

  lemma TopBitOfSuperset(m: bv32, n: bv32)
    requires n & m == n && n & 0x8000_0000 != 0
    ensures m & 0x8000_0000 != 0
  {}

  lemma {:induction false} MaskKeepsTopBit(k: nat)
    requires k <= 31
    ensures Mask(k) & 0x8000_0000 != 0
    decreases 31 - k
  {
    if k < 31 {
      MaskKeepsTopBit(k + 1);
      MaskShrinks(k);
      TopBitOfSuperset(Mask(k), Mask(k + 1));
    } else {
      assert Mask(8) == 0xFFFF_FF00;
      assert Mask(16) == 0xFFFF_0000;
      assert Mask(24) == 0xFF00_0000;
    }
  }

  // Two steps whose results agree on a mask with the top bit used the same
  // feedback, so the states before them agree on the mask shifted by one.
  lemma StepBack(s: bv32, t: bv32, x: bool, y: bool, m: bv32, n: bv32)
    requires m & 0x8000_0000 != 0 && n == m << 1
    requires Step(s, x) & m == Step(t, y) & m
    ensures s & n == t & n
  {
    if Feedback(s, x) {
      if Feedback(t, y) {} else {}
    } else {
      if Feedback(t, y) {} else {}
    }
  }

  lemma StepSplits(s: bv32, x: bool, y: bool, m: bv32)
    requires m & 0x8000_0000 != 0 && x != y
    ensures Step(s, x) & m != Step(s, y) & m
  {}

  // The states agree on all but their k low bits.
  predicate Agree(k: nat, s: bv32, t: bv32) {
    s & Mask(k) == t & Mask(k)
  }

  lemma NoMerge()
    ensures Injective(Step)
  {
    forall s, t, x | Step(s, x) == Step(t, x) ensures s == t {
      StepInjective(s, t, x);
    }
  }

  lemma AgreeBack(k: nat, s: bv32, t: bv32, x: bool, y: bool)
    requires k < 32 && Agree(k, Step(s, x), Step(t, y))
    ensures Agree(k + 1, s, t)
  {
    MaskKeepsTopBit(k);
    StepBack(s, t, x, y, Mask(k), Mask(k + 1));
  }

  lemma AgreeStepsBack()
    ensures StepsBack(Step, Agree, 32)
  {
    forall k: nat, s, t, x, y | k < 32 && Agree(k, Step(s, x), Step(t, y)) ensures Agree(k + 1, s, t) {
      AgreeBack(k, s, t, x, y);
    }
  }

  lemma AgreeSplits()
    ensures Splits(Step, Agree, 32)
  {
    forall k: nat, s, x, y | k < 32 && x != y ensures !Agree(k, Step(s, x), Step(s, y)) {
      MaskKeepsTopBit(k);
      StepSplits(s, x, y, Mask(k));
    }
  }

  // ----- Error detection -----

  // x and y differ, and only inside the bit window [p, q).
  ghost predicate Burst(x: seq<byte>, y: seq<byte>, p: nat, q: nat) {
    && |x| == |y| && x != y
    && p <= q <= 8 * |x|
    && Bits(x)[..p] == Bits(y)[..p]
    && Bits(x)[q..] == Bits(y)[q..]
  }

  lemma {:induction false} DigitsInjective(n: nat, b: nat, c: nat)
    requires Digits(n, b) == Digits(n, c)
    requires b < Power2(n) && c < Power2(n)
    ensures b == c
  {
    if n > 0 {
      assert Digits(n, b)[0] == (b % 2 == 1) && Digits(n, c)[0] == (c % 2 == 1);
      assert Digits(n - 1, b / 2) == Digits(n, b)[1..] == Digits(n, c)[1..] == Digits(n - 1, c / 2);
      DigitsInjective(n - 1, b / 2, c / 2);
    }
  }

  lemma {:induction false} BitsInjective(x: seq<byte>, y: seq<byte>)
    requires |x| == |y| && Bits(x) == Bits(y)
    ensures x == y
  {
    if x != [] {
      assert Digits(8, x[0]) == Bits(x)[..8] && Digits(8, y[0]) == Bits(y)[..8];
      assert Power2(8) == 256;
      DigitsInjective(8, x[0], y[0]);
      assert Bits(x[1..]) == Bits(x)[8..] && Bits(y[1..]) == Bits(y)[8..];
      BitsInjective(x[1..], y[1..]);
      assert x == [x[0]] + x[1..] && y == [y[0]] + y[1..];
    }
  }

  lemma {:induction false} BitsAppend(a: seq<byte>, b: seq<byte>)
    ensures Bits(a + b) == Bits(a) + Bits(b)
  {
    if a == [] {
      assert a + b == b;
    } else {
      assert (a + b)[1..] == a[1..] + b;
      BitsAppend(a[1..], b);
    }
  }

  // Every burst of at most 32 bits changes the checksum, whatever the data's length.
  lemma BurstDetected(x: seq<byte>, y: seq<byte>, p: nat, q: nat)
    requires Burst(x, y, p, q) && q - p <= 32
    ensures Checksum(x) != Checksum(y)
  {
    var a, b := Bits(x), Bits(y);
    assert a == a[..p] + a[p..q] + a[q..];
    assert b == b[..p] + b[p..q] + b[q..];
    if a[p..q] == b[p..q] {
      BitsInjective(x, y);
    }
    var start: bv32 := 0xFFFF_FFFF;
    var s := Run(Step, start, a[..p]);
    RunAppend(Step, start, a[..p] + a[p..q], a[q..]);
    RunAppend(Step, start, b[..p] + b[p..q], b[q..]);
    RunAppend(Step, start, a[..p], a[p..q]);
    RunAppend(Step, start, b[..p], b[p..q]);
    NoMerge();
    AgreeStepsBack();
    AgreeSplits();
    WindowInjective(Step, Agree, 32, s, a[p..q], b[p..q]);
    RunInjective(Step, Run(Step, s, a[p..q]), Run(Step, s, b[p..q]), a[q..]);
    if Checksum(x) == Checksum(y) {
      RegisterInjective(Register(x), Register(y));
      ComplementInjective(Run(Step, start, a), Run(Step, start, b));
    }
  }

  // A change confined to at most four consecutive bytes is such a burst.
  lemma WindowIsBurst(pre: seq<byte>, w: seq<byte>, w': seq<byte>, post: seq<byte>)
    requires |w| == |w'| <= 4 && w != w'
    ensures Burst(pre + w + post, pre + w' + post, 8 * |pre|, 8 * |pre| + 8 * |w|)
  {
    var x, y := pre + w + post, pre + w' + post;
    BitsAppend(pre + w, post);
    BitsAppend(pre, w);
    BitsAppend(pre + w', post);
    BitsAppend(pre, w');
    assert x[|pre|..|pre| + |w|] == w && y[|pre|..|pre| + |w|] == w';
  }

  // ----- Which checksum it is -----

  // Bit j of byte i, counted from the least significant one, is bit 8i+j of the data.
  lemma {:induction false} BitAt(data: seq<byte>, i: nat, j: nat)
    requires i < |data| && j < 8
    ensures Bits(data)[8 * i + j] == (data[i] / Power2(j) % 2 == 1)
  {
    if i == 0 {
      DigitAt(8, data[0], j);
    } else {
      BitAt(data[1..], i - 1, j);
    }
  }

  lemma {:induction false} DigitAt(n: nat, b: nat, j: nat)
    requires j < n
    ensures Digits(n, b)[j] == (b / Power2(j) % 2 == 1)
  {
    if j > 0 {
      DigitAt(n - 1, b / 2, j - 1);
      HalfThenDiv(b, Power2(j - 1));
    }
  }

  lemma HalfThenDiv(b: nat, p: nat)
    requires p > 0
    ensures b / (2 * p) == b / 2 / p
  {
    var q, r := b / 2 / p, b / 2 % p;
    assert b / 2 == q * p + r;
    assert b == q * (2 * p) + (2 * r + b % 2);
    BigEndian.DivUnique(b, 2 * p, q, 2 * r + b % 2);
  }

  // One more byte feeds its eight bits to the register.
  lemma RawAppend(data: seq<byte>, b: byte)
    ensures Raw([]) == 0xFFFF_FFFF
    ensures Raw(data + [b]) == Run(Step, Raw(data), Digits(8, b))
  {
    BitsAppend(data, [b]);
    assert Bits([b]) == Digits(8, b) + Bits([b][1..]) == Digits(8, b);
    RunAppend(Step, 0xFFFF_FFFF, Bits(data), Digits(8, b));
  }

  function EightSteps(s: bv32, a: bool, b: bool, c: bool, d: bool, e: bool, f: bool, g: bool, h: bool): bv32 {
    Step(Step(Step(Step(Step(Step(Step(Step(s, a), b), c), d), e), f), g), h)
  }

  lemma NextRaw(data: seq<byte>, v: byte, s: bv32, t: bv32,
                a: bool, b: bool, c: bool, d: bool, e: bool, f: bool, g: bool, h: bool)
    requires Raw(data) == s && Digits(8, v) == [a, b, c, d, e, f, g, h]
    requires EightSteps(s, a, b, c, d, e, f, g, h) == t
    ensures Raw(data + [v]) == t
  {
    RawAppend(data, v);
    RunEight(Step, s, a, b, c, d, e, f, g, h);
  }

  // Published test vectors: the letter "a", and the check value of the digits "123456789".
  lemma CheckValue()
    ensures Checksum([0x61]) == 0xC1D0_4330
    ensures Checksum([0x31, 0x32, 0x33, 0x34, 0x35, 0x36, 0x37, 0x38, 0x39]) == 0xE306_9283
  {
    hide Raw;
    RawLetter();
    RawDigits9();
  }

  lemma RawLetter()
    ensures Raw([0x61]) == 0x3E2F_BCCF
  {
    NextRaw([], 0x61, 0xFFFF_FFFF, 0x3E2F_BCCF, true, false, false, false, false, true, true, false);
  }

  lemma RawDigits1()
    ensures Raw([0x31]) == 0x6F0A_661C
  {
    NextRaw([], 0x31, 0xFFFF_FFFF, 0x6F0A_661C,
            true, false, false, false, true, true, false, false);
  }

  lemma RawDigits2()
    ensures Raw([0x31, 0x32]) == 0x8CAA_3B9F
  {
    RawDigits1();
    hide Raw;
    NextRaw([0x31], 0x32, 0x6F0A_661C, 0x8CAA_3B9F,
            false, true, false, false, true, true, false, false);
    assert [0x31] + [0x32] == [0x31, 0x32];
  }

  lemma RawDigits3()
    ensures Raw([0x31, 0x32, 0x33]) == 0xEF84_D04D
  {
    RawDigits2();
    hide Raw;
    NextRaw([0x31, 0x32], 0x33, 0x8CAA_3B9F, 0xEF84_D04D,
            true, true, false, false, true, true, false, false);
    assert [0x31, 0x32] + [0x33] == [0x31, 0x32, 0x33];
  }

  lemma RawDigits4()
    ensures Raw([0x31, 0x32, 0x33, 0x34]) == 0x09C5_0B11
  {
    RawDigits3();
    hide Raw;
    NextRaw([0x31, 0x32, 0x33], 0x34, 0xEF84_D04D, 0x09C5_0B11,
            false, false, true, false, true, true, false, false);
    assert [0x31, 0x32, 0x33] + [0x34] == [0x31, 0x32, 0x33, 0x34];
  }

  lemma RawDigits5()
    ensures Raw([0x31, 0x32, 0x33, 0x34, 0x35]) == 0xE72E_DCCA
  {
    RawDigits4();
    hide Raw;
    NextRaw([0x31, 0x32, 0x33, 0x34], 0x35, 0x09C5_0B11, 0xE72E_DCCA,
            true, false, true, false, true, true, false, false);
    assert [0x31, 0x32, 0x33, 0x34] + [0x35] == [0x31, 0x32, 0x33, 0x34, 0x35];
  }

  lemma RawDigits6()
    ensures Raw([0x31, 0x32, 0x33, 0x34, 0x35, 0x36]) == 0xBECA_8E79
  {
    RawDigits5();
    hide Raw;
    NextRaw([0x31, 0x32, 0x33, 0x34, 0x35], 0x36, 0xE72E_DCCA, 0xBECA_8E79,
            false, true, true, false, true, true, false, false);
    assert [0x31, 0x32, 0x33, 0x34, 0x35] + [0x36] == [0x31, 0x32, 0x33, 0x34, 0x35, 0x36];
  }

  lemma RawDigits7()
    ensures Raw([0x31, 0x32, 0x33, 0x34, 0x35, 0x36, 0x37]) == 0xEDBD_6815
  {
    RawDigits6();
    hide Raw;
    NextRaw([0x31, 0x32, 0x33, 0x34, 0x35, 0x36], 0x37, 0xBECA_8E79, 0xEDBD_6815,
            true, true, true, false, true, true, false, false);
    assert [0x31, 0x32, 0x33, 0x34, 0x35, 0x36] + [0x37] == [0x31, 0x32, 0x33, 0x34, 0x35, 0x36, 0x37];
  }

  lemma RawDigits8()
    ensures Raw([0x31, 0x32, 0x33, 0x34, 0x35, 0x36, 0x37, 0x38]) == 0x9F78_7F65
  {
    RawDigits7();
    hide Raw;
    NextRaw([0x31, 0x32, 0x33, 0x34, 0x35, 0x36, 0x37], 0x38, 0xEDBD_6815, 0x9F78_7F65,
            false, false, false, true, true, true, false, false);
    assert [0x31, 0x32, 0x33, 0x34, 0x35, 0x36, 0x37] + [0x38] == [0x31, 0x32, 0x33, 0x34, 0x35, 0x36, 0x37, 0x38];
  }

  lemma RawDigits9()
    ensures Raw([0x31, 0x32, 0x33, 0x34, 0x35, 0x36, 0x37, 0x38, 0x39]) == 0x1CF9_6D7C
  {
    RawDigits8();
    hide Raw;
    NextRaw([0x31, 0x32, 0x33, 0x34, 0x35, 0x36, 0x37, 0x38], 0x39, 0x9F78_7F65, 0x1CF9_6D7C,
            true, false, false, true, true, true, false, false);
    assert [0x31, 0x32, 0x33, 0x34, 0x35, 0x36, 0x37, 0x38] + [0x39]
        == [0x31, 0x32, 0x33, 0x34, 0x35, 0x36, 0x37, 0x38, 0x39];
  }
}
