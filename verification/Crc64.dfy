/** The CRC-64 checksum with the ECMA polynomial, as a running digest. */
module Crc64 {
  import opened Bytes

  const ECMA: bv64 := 0xC96C_5795_D787_0F42

  function TableStep(crc: bv64, rounds: nat): bv64
    decreases rounds
  {
    if rounds == 0 then crc
    else TableStep(if crc & 1 == 1 then (crc >> 1) ^ ECMA else crc >> 1, rounds - 1)
  }

  /** One entry of the lookup table. */
  function Table(index: bv64): bv64 {
    TableStep(index, 8)
  }

  function Mix(a: bv64, b: bv64): bv64 {
    a ^ b
  }

  function Low(r: bv64, b: bv64): bv64 {
    (r ^ b) & 0xFF
  }

  function Absorb(crc: bv64, x: bv64): bv64 {
    Mix(Table(Low(crc, x)), crc >> 8)
  }

  /** The register after one more byte. */
  function NextByte(crc: bv64, b: byte): bv64 {
    Absorb(crc, b as bv64)
  }

  function Fold<R>(step: (R, byte) -> R, r: R, data: seq<byte>): R {
    if data == [] then r else step(Fold(step, r, data[..|data| - 1]), data[|data| - 1])
  }

  /** The table-driven loop over the register of a digest. */
  function Feed(crc: bv64, data: seq<byte>): bv64 {
    Fold(NextByte, crc, data)
  }

  /** The register of an empty digest. */
  const START: bv64 := 0xFFFF_FFFF_FFFF_FFFF

  /** The sum of a digest is its complemented register. */
  function Sum(crc: bv64): bv64 {
    !crc
  }

  /** The checksum of a whole file. */
  function Checksum(data: seq<byte>): bv64 {
    Sum(Feed(START, data))
  }

  lemma {:induction false} FoldConcat<R>(step: (R, byte) -> R, r: R, a: seq<byte>, b: seq<byte>)
    ensures Fold(step, r, a + b) == Fold(step, Fold(step, r, a), b)
  {
    if b == [] {
      assert a + b == a;
    } else {
      assert (a + b)[..|a + b| - 1] == a + b[..|b| - 1];
      FoldConcat(step, r, a, b[..|b| - 1]);
    }
  }

  /** Feeding a digest piece by piece is feeding it the concatenation. */
  lemma FeedConcat(crc: bv64, a: seq<byte>, b: seq<byte>)
    ensures Feed(crc, a + b) == Feed(Feed(crc, a), b)
  {
    FoldConcat(NextByte, crc, a, b);
  }

  // ---------------------------------------------------------------------------------------------
  // The table is a shortcut for division bit by bit

  /** One step of dividing by the polynomial, lowest bit first. */
  function OneBit(r: bv64): bv64 {
    if r & 1 == 1 then (r >> 1) ^ 0xC96C_5795_D787_0F42 else r >> 1
  }

  function Iterate<R>(f: R -> R, r: R, n: nat): R {
    if n == 0 then r else f(Iterate(f, r, n - 1))
  }

  function Divide(r: bv64, bits: nat): bv64 {
    Iterate(OneBit, r, bits)
  }

  lemma {:induction false} IterateFirst<R>(f: R -> R, r: R, n: nat)
    requires n > 0
    ensures Iterate(f, r, n) == Iterate(f, f(r), n - 1)
  {
    if n > 1 {
      IterateFirst(f, r, n - 1);
    }
  }

  lemma {:induction false} TableIsDivision(r: bv64, bits: nat)
    ensures TableStep(r, bits) == Divide(r, bits)
    decreases bits
  {
    if bits > 0 {
      TableIsDivision(OneBit(r), bits - 1);
      IterateFirst(OneBit, r, bits);
    }
  }

  lemma EvenEven(a: bv64, b: bv64)
    ensures a & 1 != 1 && b & 1 != 1 ==> OneBit(Mix(a, b)) == Mix(OneBit(a), OneBit(b))
  {
  }

  lemma OddEven(a: bv64, b: bv64)
    ensures a & 1 == 1 && b & 1 != 1 ==> OneBit(Mix(a, b)) == Mix(OneBit(a), OneBit(b))
  {
  }

  lemma EvenOdd(a: bv64, b: bv64)
    ensures a & 1 != 1 && b & 1 == 1 ==> OneBit(Mix(a, b)) == Mix(OneBit(a), OneBit(b))
  {
  }

  lemma OddOdd(a: bv64, b: bv64)
    ensures a & 1 == 1 && b & 1 == 1 ==> OneBit(Mix(a, b)) == Mix(OneBit(a), OneBit(b))
  {
  }

  /** Division is linear. */
  lemma OneBitLinear(a: bv64, b: bv64)
    ensures OneBit(Mix(a, b)) == Mix(OneBit(a), OneBit(b))
  {
    EvenEven(a, b);
    OddEven(a, b);
    EvenOdd(a, b);
    OddOdd(a, b);
  }

  lemma {:induction false} IterateDistributes<R(!new)>(f: R -> R, op: (R, R) -> R, a: R, b: R, n: nat)
    requires forall x, y :: f(op(x, y)) == op(f(x), f(y))
    ensures Iterate(f, op(a, b), n) == op(Iterate(f, a, n), Iterate(f, b, n))
  {
    if n > 0 {
      IterateDistributes(f, op, a, b, n - 1);
    }
  }

  lemma DivideLinear(a: bv64, b: bv64, bits: nat)
    ensures Divide(Mix(a, b), bits) == Mix(Divide(a, bits), Divide(b, bits))
  {
    forall x, y
      ensures OneBit(Mix(x, y)) == Mix(OneBit(x), OneBit(y))
    {
      OneBitLinear(x, y);
    }
    IterateDistributes(OneBit, Mix, a, b, bits);
  }

  lemma EvenMovesDown(h: bv64)
    requires h & 1 == 0
    ensures OneBit(h) == h >> 1
  {
  }

  lemma LowBitsClear(h: bv64)
    requires h & 0xFF == 0
    ensures h & 1 == 0 && (h >> 1) & 1 == 0 && (h >> 2) & 1 == 0 && (h >> 3) & 1 == 0
    ensures (h >> 4) & 1 == 0 && (h >> 5) & 1 == 0 && (h >> 6) & 1 == 0 && (h >> 7) & 1 == 0
  {
  }

  lemma ShiftTwice(h: bv64)
    ensures (h >> 1) >> 1 == h >> 2 && (h >> 2) >> 1 == h >> 3 && (h >> 3) >> 1 == h >> 4 && (h >> 4) >> 1 == h >> 5
    ensures (h >> 5) >> 1 == h >> 6 && (h >> 6) >> 1 == h >> 7 && (h >> 7) >> 1 == h >> 8
  {
  }

  lemma IterateEight<R>(f: R -> R, r: R)
    ensures Iterate(f, r, 8) == f(f(f(f(f(f(f(f(r))))))))
  {
    assert Iterate(f, r, 2) == f(f(r));
    assert Iterate(f, r, 4) == f(f(Iterate(f, r, 2)));
    assert Iterate(f, r, 6) == f(f(Iterate(f, r, 4)));
  }

  /** Bits above the lowest eight only move down. */
  lemma HighBitsMove(h: bv64)
    requires h & 0xFF == 0
    ensures Divide(h, 8) == h >> 8
  {
    LowBitsClear(h);
    ShiftTwice(h);
    EvenMovesDown(h);
    EvenMovesDown(h >> 1);
    EvenMovesDown(h >> 2);
    EvenMovesDown(h >> 3);
    EvenMovesDown(h >> 4);
    EvenMovesDown(h >> 5);
    EvenMovesDown(h >> 6);
    EvenMovesDown(h >> 7);
    IterateEight(OneBit, h);
  }

  function High(r: bv64): bv64 {
    (r >> 8) << 8
  }

  lemma SplitRegister(r: bv64, b: bv64)
    requires b <= 0xFF
    ensures r ^ b == Mix(Low(r, b), High(r))
    ensures High(r) & 0xFF == 0 && High(r) >> 8 == r >> 8
  {
  }

  lemma DivideSplit(r: bv64, b: bv64)
    requires b <= 0xFF
    ensures Divide(r ^ b, 8) == Absorb(r, b)
  {
    SplitRegister(r, b);
    DivideLinear(Low(r, b), High(r), 8);
    HighBitsMove(High(r));
    TableIsDivision(Low(r, b), 8);
  }

  /** Feeding one more byte is mixing it into the register and dividing bit by bit eight times. */
  lemma NextByteIsDivision(r: bv64, b: byte)
    ensures NextByte(r, b) == Divide(r ^ (b as bv64), 8)
  {
    ByteFits(b);
    DivideSplit(r, b as bv64);
  }

  lemma ByteFits(b: byte)
    ensures b as bv64 <= 0xFF
  {
  }

  lemma FeedIsDivision(crc: bv64, data: seq<byte>, b: byte)
    ensures Feed(crc, data + [b]) == Divide(Feed(crc, data) ^ (b as bv64), 8)
  {
    assert (data + [b])[..|data|] == data;
    NextByteIsDivision(Feed(crc, data), b);
  }

  // ---------------------------------------------------------------------------------------------
  // An altered byte is noticed

  /** Division loses nothing, because the polynomial has its highest bit set. */
  lemma OneBitInjective(a: bv64, b: bv64)
    requires OneBit(a) == OneBit(b)
    ensures a == b
  {
  }

  lemma {:induction false} IterateInjective<R(!new)>(f: R -> R, a: R, b: R, n: nat)
    requires forall x, y :: f(x) == f(y) ==> x == y
    requires Iterate(f, a, n) == Iterate(f, b, n)
    ensures a == b
  {
    if n > 0 {
      IterateInjective(f, a, b, n - 1);
    }
  }

  lemma DivideInjective(a: bv64, b: bv64, bits: nat)
    requires Divide(a, bits) == Divide(b, bits)
    ensures a == b
  {
    forall x, y | OneBit(x) == OneBit(y)
      ensures x == y
    {
      OneBitInjective(x, y);
    }
    IterateInjective(OneBit, a, b, bits);
  }

  lemma XorCancels(r: bv64, x: bv64, y: bv64)
    ensures r ^ x == r ^ y ==> x == y
    ensures x ^ r == y ^ r ==> x == y
  {
  }

  lemma WidenInjective(x: byte, y: byte)
    ensures x as bv64 == y as bv64 ==> x == y
  {
  }

  lemma NextByteInjective(r: bv64, s: bv64, b: byte)
    requires NextByte(r, b) == NextByte(s, b)
    ensures r == s
  {
    NextByteIsDivision(r, b);
    NextByteIsDivision(s, b);
    DivideInjective(r ^ (b as bv64), s ^ (b as bv64), 8);
    XorCancels(b as bv64, r, s);
  }

  lemma ByteInjective(r: bv64, x: byte, y: byte)
    requires NextByte(r, x) == NextByte(r, y)
    ensures x == y
  {
    NextByteIsDivision(r, x);
    NextByteIsDivision(r, y);
    DivideInjective(r ^ (x as bv64), r ^ (y as bv64), 8);
    XorCancels(r, x as bv64, y as bv64);
    WidenInjective(x, y);
  }

  lemma {:induction false} FoldInjective<R(!new)>(step: (R, byte) -> R, r: R, s: R, data: seq<byte>)
    requires forall a, b, x :: step(a, x) == step(b, x) ==> a == b
    requires r != s
    ensures Fold(step, r, data) != Fold(step, s, data)
  {
    if data != [] {
      FoldInjective(step, r, s, data[..|data| - 1]);
    }
  }

  lemma FoldOneMore<R>(step: (R, byte) -> R, r: R, data: seq<byte>, x: byte)
    ensures Fold(step, r, data + [x]) == step(Fold(step, r, data), x)
  {
    assert (data + [x])[..|data|] == data;
  }

  lemma FoldOneByte<R(!new)>(step: (R, byte) -> R, r: R, before: seq<byte>, x: byte, y: byte, after: seq<byte>)
    requires forall a, b, z :: step(a, z) == step(b, z) ==> a == b
    requires forall a, z, w :: step(a, z) == step(a, w) ==> z == w
    requires x != y
    ensures Fold(step, r, before + [x] + after) != Fold(step, r, before + [y] + after)
  {
    FoldConcat(step, r, before + [x], after);
    FoldConcat(step, r, before + [y], after);
    FoldOneMore(step, r, before, x);
    FoldOneMore(step, r, before, y);
    FoldInjective(step, Fold(step, r, before + [x]), Fold(step, r, before + [y]), after);
  }

  lemma SumInjective(a: bv64, b: bv64)
    requires Sum(a) == Sum(b)
    ensures a == b
  {
  }

  /** Contents that differ in exactly one byte have different checksums. */
  lemma OneByteNoticed(before: seq<byte>, x: byte, y: byte, after: seq<byte>)
    requires x != y
    ensures Checksum(before + [x] + after) != Checksum(before + [y] + after)
  {
    forall a, b, z | NextByte(a, z) == NextByte(b, z)
      ensures a == b
    {
      NextByteInjective(a, b, z);
    }
    forall a, z, w | NextByte(a, z) == NextByte(a, w)
      ensures z == w
    {
      ByteInjective(a, z, w);
    }
    FoldOneByte(NextByte, START, before, x, y, after);
    if Checksum(before + [x] + after) == Checksum(before + [y] + after) {
      SumInjective(Feed(START, before + [x] + after), Feed(START, before + [y] + after));
    }
  }

  // ---------------------------------------------------------------------------------------------
  // The published check value

  lemma KnownDivision(x: bv64, next: bv64)
    requires OneBit(OneBit(OneBit(OneBit(OneBit(OneBit(OneBit(OneBit(x)))))))) == next
    ensures Divide(x, 8) == next
  {
    IterateEight(OneBit, x);
  }

  lemma KnownDivisions1()
    ensures Divide(0xFFFF_FFFF_FFFF_FFCE, 8) == 0xD5D0_F17A_6B6A_3512
    ensures Divide(0xD5D0_F17A_6B6A_3520, 8) == 0xFBE2_9281_D80D_A6A7
    ensures Divide(0xFBE2_9281_D80D_A694, 8) == 0xCFDC_D7BB_F8E3_3A9E
  {
    KnownDivision(0xFFFF_FFFF_FFFF_FFCE, 0xD5D0_F17A_6B6A_3512);
    KnownDivision(0xD5D0_F17A_6B6A_3520, 0xFBE2_9281_D80D_A6A7);
    KnownDivision(0xFBE2_9281_D80D_A694, 0xCFDC_D7BB_F8E3_3A9E);
  }

  lemma KnownDivisions2()
    ensures Divide(0xCFDC_D7BB_F8E3_3AAA, 8) == 0x31B1_786C_9947_3CD7
    ensures Divide(0x31B1_786C_9947_3CE2, 8) == 0xA258_B900_5AFB_A316
    ensures Divide(0xA258_B900_5AFB_A320, 8) == 0xFB95_1AC9_A23C_3731
  {
    KnownDivision(0xCFDC_D7BB_F8E3_3AAA, 0x31B1_786C_9947_3CD7);
    KnownDivision(0x31B1_786C_9947_3CE2, 0xA258_B900_5AFB_A316);
    KnownDivision(0xA258_B900_5AFB_A320, 0xFB95_1AC9_A23C_3731);
  }

  lemma KnownDivisions3()
    ensures Divide(0xFB95_1AC9_A23C_3706, 8) == 0x8FAF_60C9_9E6D_C25F
    ensures Divide(0x8FAF_60C9_9E6D_C267, 8) == 0xA374_7FB7_D453_87F6
    ensures Divide(0xA374_7FB7_D453_87CF, 8) == 0x66A2_3644_20E6_C605
  {
    KnownDivision(0xFB95_1AC9_A23C_3706, 0x8FAF_60C9_9E6D_C25F);
    KnownDivision(0x8FAF_60C9_9E6D_C267, 0xA374_7FB7_D453_87F6);
    KnownDivision(0xA374_7FB7_D453_87CF, 0x66A2_3644_20E6_C605);
  }

  /** One more byte, with the register before and after it known. */
  lemma KnownByte(data: seq<byte>, b: byte, x: bv64, next: bv64)
    requires Feed(START, data) ^ (b as bv64) == x && Divide(x, 8) == next
    ensures Feed(START, data + [b]) == next
  {
    FeedIsDivision(START, data, b);
  }

  lemma ThreeDigits() returns (data: seq<byte>)
    ensures data == [0x31, 0x32, 0x33] && Feed(START, data) == 0xCFDC_D7BB_F8E3_3A9E
  {
    KnownDivisions1();
    data := [];
    KnownByte(data, 0x31, 0xFFFF_FFFF_FFFF_FFCE, 0xD5D0_F17A_6B6A_3512);
    data := data + [0x31];
    KnownByte(data, 0x32, 0xD5D0_F17A_6B6A_3520, 0xFBE2_9281_D80D_A6A7);
    data := data + [0x32];
    KnownByte(data, 0x33, 0xFBE2_9281_D80D_A694, 0xCFDC_D7BB_F8E3_3A9E);
    data := data + [0x33];
  }

  lemma SixDigits() returns (data: seq<byte>)
    ensures data == [0x31, 0x32, 0x33, 0x34, 0x35, 0x36] && Feed(START, data) == 0xFB95_1AC9_A23C_3731
  {
    KnownDivisions2();
    data := ThreeDigits();
    KnownByte(data, 0x34, 0xCFDC_D7BB_F8E3_3AAA, 0x31B1_786C_9947_3CD7);
    data := data + [0x34];
    KnownByte(data, 0x35, 0x31B1_786C_9947_3CE2, 0xA258_B900_5AFB_A316);
    data := data + [0x35];
    KnownByte(data, 0x36, 0xA258_B900_5AFB_A320, 0xFB95_1AC9_A23C_3731);
    data := data + [0x36];
  }

  lemma NineDigits() returns (data: seq<byte>)
    ensures data == [0x31, 0x32, 0x33, 0x34, 0x35, 0x36, 0x37, 0x38, 0x39] && Feed(START, data) == 0x66A2_3644_20E6_C605
  {
    KnownDivisions3();
    data := SixDigits();
    KnownByte(data, 0x37, 0xFB95_1AC9_A23C_3706, 0x8FAF_60C9_9E6D_C25F);
    data := data + [0x37];
    KnownByte(data, 0x38, 0x8FAF_60C9_9E6D_C267, 0xA374_7FB7_D453_87F6);
    data := data + [0x38];
    KnownByte(data, 0x39, 0xA374_7FB7_D453_87CF, 0x66A2_3644_20E6_C605);
    data := data + [0x39];
  }

  /** The checksum of the nine digits is the published check value of this checksum, CRC-64/XZ. */
  lemma CheckValue()
    ensures Checksum([0x31, 0x32, 0x33, 0x34, 0x35, 0x36, 0x37, 0x38, 0x39]) == 0x995D_C9BB_DF19_39FA
  {
    var data := NineDigits();
  }
}
