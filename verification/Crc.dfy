/**
 The CRC-32 that protects the A/B/R metadata.

 `Crc32` is the standard's form (section 8 of RFC 1952): least significant bit first, polynomial
 0xEDB88320.  `ProgramCrc32` is the program's: the register shifts towards its most significant
 bit, polynomial 0x04C11DB7, and bits are reversed on the way in and out.
 */
module Crc {
  import opened Iteration

  type Byte = bv8

  // ----- Bit reversal ------------------------------------------------------------------------

  /** Bit `i` goes to bit `7 - i`. */
  function MirrorByte(b: Byte): Byte
  {
    (((b >> 0) & 1) << 7) | (((b >> 1) & 1) << 6) | (((b >> 2) & 1) << 5) | (((b >> 3) & 1) << 4) |
    (((b >> 4) & 1) << 3) | (((b >> 5) & 1) << 2) | (((b >> 6) & 1) << 1) | (((b >> 7) & 1) << 0)
  }

  /** Bit `i` goes to bit `31 - i`. */
  function MirrorWord(v: bv32): bv32
  {
    (((v >> 0) & 1) << 31) | (((v >> 1) & 1) << 30) | (((v >> 2) & 1) << 29) | (((v >> 3) & 1) << 28) |
    (((v >> 4) & 1) << 27) | (((v >> 5) & 1) << 26) | (((v >> 6) & 1) << 25) | (((v >> 7) & 1) << 24) |
    (((v >> 8) & 1) << 23) | (((v >> 9) & 1) << 22) | (((v >> 10) & 1) << 21) | (((v >> 11) & 1) << 20) |
    (((v >> 12) & 1) << 19) | (((v >> 13) & 1) << 18) | (((v >> 14) & 1) << 17) | (((v >> 15) & 1) << 16) |
    (((v >> 16) & 1) << 15) | (((v >> 17) & 1) << 14) | (((v >> 18) & 1) << 13) | (((v >> 19) & 1) << 12) |
    (((v >> 20) & 1) << 11) | (((v >> 21) & 1) << 10) | (((v >> 22) & 1) << 9) | (((v >> 23) & 1) << 8) |
    (((v >> 24) & 1) << 7) | (((v >> 25) & 1) << 6) | (((v >> 26) & 1) << 5) | (((v >> 27) & 1) << 4) |
    (((v >> 28) & 1) << 3) | (((v >> 29) & 1) << 2) | (((v >> 30) & 1) << 1) | (((v >> 31) & 1) << 0)
  }

  /** The program's sixteen-entry lookup table. */
  function ReverseNibble(n: Byte): Byte
  {
    if n == 0x0 then 0x0 else if n == 0x1 then 0x8 else if n == 0x2 then 0x4 else if n == 0x3 then 0xC
    else if n == 0x4 then 0x2 else if n == 0x5 then 0xA else if n == 0x6 then 0x6 else if n == 0x7 then 0xE
    else if n == 0x8 then 0x1 else if n == 0x9 then 0x9 else if n == 0xA then 0x5 else if n == 0xB then 0xD
    else if n == 0xC then 0x3 else if n == 0xD then 0xB else if n == 0xE then 0x7 else 0xF
  }

  method ReverseByte(b: Byte) returns (r: Byte)
    ensures r == MirrorByte(b)
  {
    r := ReverseNibble(b >> 4) | (ReverseNibble(b & 0xF) << 4);
  }

  /** Little-endian bytes, each reversed, read back big-endian. */
  method ReverseWord(v: bv32) returns (r: bv32)
    ensures r == MirrorWord(v)
  {
    var b0 := ReverseByte((v & 0xFF) as Byte);
    var b1 := ReverseByte(((v >> 8) & 0xFF) as Byte);
    var b2 := ReverseByte(((v >> 16) & 0xFF) as Byte);
    var b3 := ReverseByte((v >> 24) as Byte);
    r := ((b0 as bv32) << 24) | ((b1 as bv32) << 16) | ((b2 as bv32) << 8) | (b3 as bv32);
  }

  // ----- The program's form ------------------------------------------------------------------

  const SEED: bv32 := 0xFFFF_FFFF

  function Round(r: bv32): bv32
  {
    if r & 0x8000_0000 != 0 then (r << 1) ^ 0x04C1_1DB7 else r << 1
  }

  function EightRounds(r: bv32): bv32
  {
    Iterate(Round, r, 8)
  }

  function TopByte(b: Byte): bv32
  {
    (MirrorByte(b) as bv32) << 24
  }

  function Absorb(r: bv32, b: Byte): bv32
  {
    EightRounds(r ^ TopByte(b))
  }

  function Finish(r: bv32): bv32
  {
    MirrorWord(!r)
  }

  function ProgramCrc32(data: seq<Byte>): bv32
  {
    Finish(Fold(Absorb, SEED, data))
  }

  method ComputeCrc32(data: seq<Byte>) returns (crc: bv32)
    ensures crc == Crc32(data)
  {
    hide Absorb, Fold, MirrorWord, Crc32;
    var res := AbsorbAll(data);
    crc := ReverseWord(!res);
    ProgramCrcIsCrc(data);
  }

  /** The outer loop. */
  method AbsorbAll(data: seq<Byte>) returns (res: bv32)
    ensures res == Fold(Absorb, SEED, data)
  {
    hide Absorb;
    res := SEED;
    for i := 0 to |data|
      invariant res == Fold(Absorb, SEED, data[..i])
    {
      assert data[..i + 1][..i] == data[..i];
      res := AbsorbByte(res, data[i]);
    }
    assert data[..|data|] == data;
  }

  /** Its body, the inner loop, and that loop's body. */
  method AbsorbByte(r: bv32, b: Byte) returns (res: bv32)
    ensures res == Absorb(r, b)
  {
    hide EightRounds, MirrorByte;
    var m := ReverseByte(b);
    res := RunRounds(r ^ ((m as bv32) << 24));
  }

  method RunRounds(r: bv32) returns (res: bv32)
    ensures res == EightRounds(r)
  {
    hide Round;
    res := r;
    for k := 0 to 8
      invariant res == Iterate(Round, r, k)
    {
      res := RunRound(res);
    }
  }

  method RunRound(r: bv32) returns (res: bv32)
    ensures res == Round(r)
  {
    if r & 0x8000_0000 != 0 {
      res := (r << 1) ^ 0x04C1_1DB7;
    } else {
      res := r << 1;
    }
  }

  // ----- The standard's form -----------------------------------------------------------------

  function ReflectedRound(r: bv32): bv32
  {
    if r & 1 != 0 then (r >> 1) ^ 0xEDB8_8320 else r >> 1
  }

  function ReflectedAbsorb(r: bv32, b: Byte): bv32
  {
    Iterate(ReflectedRound, r ^ (b as bv32), 8)
  }

  function Crc32(data: seq<Byte>): bv32
  {
    !Fold(ReflectedAbsorb, SEED, data)
  }

  /** A value that every implementation of the standard must give: that of the text "a". */
  lemma CheckValue()
    ensures Crc32([0x61]) == 0xE8B7_BE43
  {
    var r: bv32 := 0xFFFF_FF9E;
    assert SEED ^ 0x61 == r;
    assert Iterate(ReflectedRound, r, 1) == 0x7FFF_FFCF;
    assert Iterate(ReflectedRound, r, 2) == 0xD247_7CC7;
    assert Iterate(ReflectedRound, r, 3) == 0x849B_3D43;
    assert Iterate(ReflectedRound, r, 4) == 0xAFF5_1D81;
    assert Iterate(ReflectedRound, r, 5) == 0xBA42_0DE0;
    assert Iterate(ReflectedRound, r, 6) == 0x5D21_06F0;
    assert Iterate(ReflectedRound, r, 7) == 0x2E90_8378;
    assert Iterate(ReflectedRound, r, 8) == 0x1748_41BC;
    var text: seq<Byte> := [0x61];
    assert text[..0] == [];
    assert Fold(ReflectedAbsorb, SEED, text) == ReflectedAbsorb(SEED, 0x61);
  }

  lemma MirrorXor(v: bv32, w: bv32)
    ensures MirrorWord(v ^ w) == MirrorWord(v) ^ MirrorWord(w)
  {
  }

  lemma MirrorShift(v: bv32)
    ensures MirrorWord(v << 1) == MirrorWord(v) >> 1
    ensures (v & 0x8000_0000 != 0) <==> (MirrorWord(v) & 1 != 0)
  {
  }

  lemma MirrorConstants()
    ensures MirrorWord(0x04C1_1DB7) == 0xEDB8_8320
    ensures MirrorWord(SEED) == SEED
  {
  }

  lemma MirrorTopByte(b: Byte)
    ensures MirrorWord(TopByte(b)) == b as bv32
  {
  }

  lemma MirrorComplement(v: bv32)
    ensures MirrorWord(!v) == !MirrorWord(v)
  {
  }

  lemma RoundReflectsPlain(r: bv32)
    requires r & 0x8000_0000 == 0
    ensures MirrorWord(r << 1) == ReflectedRound(MirrorWord(r))
  {
    MirrorShift(r);
  }

  lemma RoundReflectsMixed(r: bv32)
    requires r & 0x8000_0000 != 0
    ensures MirrorWord((r << 1) ^ 0x04C1_1DB7) == ReflectedRound(MirrorWord(r))
  {
  }

  lemma RoundReflects(r: bv32)
    ensures MirrorWord(Round(r)) == ReflectedRound(MirrorWord(r))
  {
    hide MirrorWord, ReflectedRound;
    if r & 0x8000_0000 == 0 {
      RoundReflectsPlain(r);
    } else {
      RoundReflectsMixed(r);
    }
  }

  lemma EightRoundsReflect(r: bv32)
    ensures MirrorWord(EightRounds(r)) == Iterate(ReflectedRound, MirrorWord(r), 8)
  {
    hide MirrorWord, Round, ReflectedRound, Iterate;
    forall x ensures MirrorWord(Round(x)) == ReflectedRound(MirrorWord(x)) {
      RoundReflects(x);
    }
    IterateSimulates(Round, ReflectedRound, MirrorWord, r, 8);
  }

  lemma FeedReflects(r: bv32, b: Byte)
    ensures MirrorWord(r ^ TopByte(b)) == MirrorWord(r) ^ (b as bv32)
  {
    hide MirrorWord, TopByte;
    MirrorXor(r, TopByte(b));
    MirrorTopByte(b);
  }

  lemma AbsorbReflects(r: bv32, b: Byte)
    ensures MirrorWord(Absorb(r, b)) == ReflectedAbsorb(MirrorWord(r), b)
  {
    hide MirrorWord, TopByte, EightRounds, Iterate;
    EightRoundsReflect(r ^ TopByte(b));
    FeedReflects(r, b);
  }

  /** For every input the program's form and the standard's form are one function. */
  lemma ProgramCrcIsCrc(data: seq<Byte>)
    ensures ProgramCrc32(data) == Crc32(data)
  {
    hide MirrorWord, Absorb, ReflectedAbsorb, Fold;
    forall r, b ensures MirrorWord(Absorb(r, b)) == ReflectedAbsorb(MirrorWord(r), b) {
      AbsorbReflects(r, b);
    }
    FoldSimulates(Absorb, ReflectedAbsorb, MirrorWord, SEED, data);
    MirrorConstants();
    MirrorComplement(Fold(Absorb, SEED, data));
  }

  // ----- Error detection ---------------------------------------------------------------------

  /** One round backwards: the low bit tells whether the polynomial was mixed in. */
  function Unround(r: bv32): bv32
  {
    if r & 1 != 0 then ((r ^ 0x04C1_1DB7) >> 1) | 0x8000_0000 else r >> 1
  }

  lemma UnroundPlain(r: bv32)
    requires r & 0x8000_0000 == 0
    ensures Unround(r << 1) == r
  {
  }

  lemma UnroundMixed(r: bv32)
    requires r & 0x8000_0000 != 0
    ensures Unround((r << 1) ^ 0x04C1_1DB7) == r
  {
  }

  lemma UnroundRound(r: bv32)
    ensures Unround(Round(r)) == r
  {
    hide Unround;
    if r & 0x8000_0000 == 0 {
      UnroundPlain(r);
    } else {
      UnroundMixed(r);
    }
  }

  lemma EightRoundsInjective(r: bv32, s: bv32)
    requires EightRounds(r) == EightRounds(s)
    ensures r == s
  {
    hide Round, Unround, Iterate;
    forall x ensures Unround(Round(x)) == x {
      UnroundRound(x);
    }
    IterateInjective(Round, Unround, r, s, 8);
  }

  lemma XorInjective(r: bv32, s: bv32, x: bv32)
    requires Xor(r, x) == Xor(s, x)
    ensures r == s
  {
  }

  lemma FeedInjective(r: bv32, s: bv32, x: bv32)
    requires EightRounds(Xor(r, x)) == EightRounds(Xor(s, x))
    ensures r == s
  {
    hide EightRounds, Xor;
    EightRoundsInjective(Xor(r, x), Xor(s, x));
    XorInjective(r, s, x);
  }

  lemma AbsorbInjective(r: bv32, s: bv32, b: Byte)
    requires Absorb(r, b) == Absorb(s, b)
    ensures r == s
  {
    hide EightRounds, TopByte, Absorb, Xor;
    AbsorbFeeds(r, b);
    AbsorbFeeds(s, b);
    FeedInjective(r, s, TopByte(b));
  }

  function Xor(r: bv32, x: bv32): bv32 { r ^ x }
  function Halve(x: bv32): bv32 { x >> 1 }
  predicate Even(x: bv32) { x & 1 == 0 }

  lemma MixEarlierPlain(r: bv32, x: bv32)
    requires Even(x) && r & 0x8000_0000 == 0
    ensures (r << 1) ^ x == Round(r ^ (x >> 1))
  {
  }

  lemma MixEarlierMixed(r: bv32, x: bv32)
    requires Even(x) && r & 0x8000_0000 != 0
    ensures ((r << 1) ^ 0x04C1_1DB7) ^ x == Round(r ^ (x >> 1))
  {
  }

  /** What is mixed in after a round could have been mixed in before it, one place lower. */
  lemma MixEarlier(r: bv32, x: bv32)
    requires Even(x)
    ensures Round(r) ^ x == Round(r ^ (x >> 1))
  {
    if r & 0x8000_0000 == 0 {
      MixEarlierPlain(r, x);
    } else {
      MixEarlierMixed(r, x);
    }
  }

  lemma MixesEarlier(r: bv32, x: bv32)
    requires Even(x)
    ensures Xor(Round(r), x) == Round(Xor(r, Halve(x)))
  {
    hide Round, Even;
    MixEarlier(r, x);
  }

  lemma ShiftsCompose(x: bv32)
    ensures Halve(x) == x >> 1 && Halve(x >> 1) == x >> 2 && Halve(x >> 2) == x >> 3 && Halve(x >> 3) == x >> 4
    ensures Halve(x >> 4) == x >> 5 && Halve(x >> 5) == x >> 6 && Halve(x >> 6) == x >> 7 && Halve(x >> 7) == x >> 8
    ensures x & 0xFF == 0 ==>
              && Even(x) && Even(x >> 1) && Even(x >> 2) && Even(x >> 3)
              && Even(x >> 4) && Even(x >> 5) && Even(x >> 6) && Even(x >> 7)
  {
  }

  lemma HalveUpTo(x: bv32, y1: bv32, y2: bv32, y3: bv32, y4: bv32, y5: bv32, y6: bv32, y7: bv32, y8: bv32)
    requires Halve(x) == y1 && Halve(y1) == y2 && Halve(y2) == y3 && Halve(y3) == y4
    requires Halve(y4) == y5 && Halve(y5) == y6 && Halve(y6) == y7 && Halve(y7) == y8
    ensures Iterate(Halve, x, 0) == x && Iterate(Halve, x, 1) == y1
    ensures Iterate(Halve, x, 2) == y2 && Iterate(Halve, x, 3) == y3
    ensures Iterate(Halve, x, 4) == y4 && Iterate(Halve, x, 5) == y5 && Iterate(Halve, x, 6) == y6
    ensures Iterate(Halve, x, 7) == y7 && Iterate(Halve, x, 8) == y8
  {
  }

  lemma HalveEightTimes(x: bv32)
    requires x & 0xFF == 0
    ensures Iterate(Halve, x, 8) == x >> 8
    ensures forall i: nat | i < 8 :: Even(Iterate(Halve, x, i))
  {
    hide Halve, Even, Iterate;
    ShiftsCompose(x);
    HalveUpTo(x, x >> 1, x >> 2, x >> 3, x >> 4, x >> 5, x >> 6, x >> 7, x >> 8);
    forall i: nat | i < 8 ensures Even(Iterate(Halve, x, i)) {
      assert i == 0 || i == 1 || i == 2 || i == 3 || i == 4 || i == 5 || i == 6 || i == 7;
    }
  }

  lemma RoundsMix(r: bv32, x: bv32)
    requires forall i: nat | i < 8 :: Even(Iterate(Halve, x, i))
    ensures Xor(EightRounds(r), x) == EightRounds(Xor(r, Iterate(Halve, x, 8)))
  {
    hide Round, Xor, Halve, Even, Iterate;
    forall s, y | Even(y) ensures Xor(Round(s), y) == Round(Xor(s, Halve(y))) {
      MixesEarlier(s, y);
    }
    assert Commutes(Round, Xor, Halve, Even);
    IterateMix(Round, Xor, Halve, Even, r, x, 8);
  }

  function LowerByte(x: bv32): bv32 { x >> 8 }
  predicate LowByteClear(x: bv32) { x & 0xFF == 0 }

  /** A byte fed after eight rounds could have been fed before them, eight places lower. */
  lemma FeedEarlier(r: bv32, x: bv32)
    requires LowByteClear(x)
    ensures Xor(EightRounds(r), x) == EightRounds(Xor(r, LowerByte(x)))
  {
    hide EightRounds, Xor, Even, Halve, Iterate;
    HalveEightTimes(x);
    RoundsMix(r, x);
  }

  lemma TopByteFits(b: Byte)
    ensures LowByteClear(TopByte(b))
    ensures LowByteClear(LowerByte(TopByte(b)))
    ensures LowByteClear(LowerByte(LowerByte(TopByte(b))))
  {
  }

  lemma AbsorbFeeds(r: bv32, b: Byte)
    ensures Absorb(r, b) == EightRounds(Xor(r, TopByte(b)))
  {
    hide EightRounds, TopByte;
  }

  /** Four bytes side by side, in the order in which they leave the register. */
  function PackBytes(r: bv32, b0: Byte, b1: Byte, b2: Byte, b3: Byte): bv32
  {
    Xor(Xor(Xor(Xor(r, TopByte(b0)), LowerByte(TopByte(b1))), LowerByte(LowerByte(TopByte(b2)))),
        LowerByte(LowerByte(LowerByte(TopByte(b3)))))
  }

  function Pack(r: bv32, w: seq<Byte>): bv32
    requires |w| == 4
  {
    PackBytes(r, w[0], w[1], w[2], w[3])
  }

  /** Absorbing four bytes is thirty-two rounds over all of them at once. */
  lemma AbsorbFour(r: bv32, w: seq<Byte>)
    requires |w| == 4
    ensures Fold(Absorb, r, w) == EightRounds(EightRounds(EightRounds(EightRounds(Pack(r, w)))))
  {
    hide EightRounds, Xor, LowerByte, LowByteClear, TopByte, Absorb, Fold;
    forall s, x | LowByteClear(x) ensures Xor(EightRounds(s), x) == EightRounds(Xor(s, LowerByte(x))) {
      FeedEarlier(s, x);
    }
    forall b ensures LowByteClear(TopByte(b)) && LowByteClear(LowerByte(TopByte(b)))
                     && LowByteClear(LowerByte(LowerByte(TopByte(b))))
    {
      TopByteFits(b);
    }
    forall s, b ensures Absorb(s, b) == EightRounds(Xor(s, TopByte(b))) {
      AbsorbFeeds(s, b);
    }
    FoldFourMix(Absorb, EightRounds, Xor, LowerByte, LowByteClear, TopByte, r, w);
  }

  function Unpack(r: bv32, p: bv32): (Byte, Byte, Byte, Byte)
  {
    (MirrorByte(((p ^ r) >> 24) as Byte), MirrorByte((((p ^ r) >> 16) & 0xFF) as Byte),
     MirrorByte((((p ^ r) >> 8) & 0xFF) as Byte), MirrorByte(((p ^ r) & 0xFF) as Byte))
  }

  lemma UnpackPack(r: bv32, b0: Byte, b1: Byte, b2: Byte, b3: Byte)
    ensures Unpack(r, PackBytes(r, b0, b1, b2, b3)) == (b0, b1, b2, b3)
  {
  }

  lemma PackInjective(r: bv32, w: seq<Byte>, v: seq<Byte>)
    requires |w| == |v| == 4
    requires Pack(r, w) == Pack(r, v)
    ensures w == v
  {
    hide PackBytes, Unpack;
    UnpackPack(r, w[0], w[1], w[2], w[3]);
    UnpackPack(r, v[0], v[1], v[2], v[3]);
  }

  lemma FourBytesInjective(r: bv32, w: seq<Byte>, v: seq<Byte>)
    requires |w| == |v| == 4
    requires Fold(Absorb, r, w) == Fold(Absorb, r, v)
    ensures w == v
  {
    hide EightRounds, Pack, Absorb, Fold;
    AbsorbFour(r, w);
    AbsorbFour(r, v);
    FourTimesInjective(Pack(r, w), Pack(r, v));
    PackInjective(r, w, v);
  }

  lemma FourTimesInjective(x: bv32, y: bv32)
    requires EightRounds(EightRounds(EightRounds(EightRounds(x))))
          == EightRounds(EightRounds(EightRounds(EightRounds(y))))
    ensures x == y
  {
    hide EightRounds;
    EightRoundsInjective(EightRounds(EightRounds(EightRounds(x))), EightRounds(EightRounds(EightRounds(y))));
    EightRoundsInjective(EightRounds(EightRounds(x)), EightRounds(EightRounds(y)));
    EightRoundsInjective(EightRounds(x), EightRounds(y));
    EightRoundsInjective(x, y);
  }

  lemma FinishInjective(r: bv32, s: bv32)
    requires Finish(r) == Finish(s)
    ensures r == s
  {
  }

  lemma CrcDeterminesRegister(data: seq<Byte>, data': seq<Byte>)
    requires Crc32(data) == Crc32(data')
    ensures Fold(Absorb, SEED, data) == Fold(Absorb, SEED, data')
  {
    hide Absorb, Fold, Crc32, Finish;
    ProgramCrcIsCrc(data);
    ProgramCrcIsCrc(data');
    FinishInjective(Fold(Absorb, SEED, data), Fold(Absorb, SEED, data'));
  }

  /** The two differ at most within four neighbouring bytes, from position `k`. */
  ghost predicate DifferWithin(data: seq<Byte>, data': seq<Byte>, k: nat)
  {
    && |data| == |data'|
    && forall i :: 0 <= i < |data| && !(k <= i < k + 4) ==> data[i] == data'[i]
  }

  /** Any change confined to four neighbouring bytes changes the checksum. */
  lemma BurstChangesCrc(data: seq<Byte>, data': seq<Byte>, k: nat)
    requires DifferWithin(data, data', k)
    requires Crc32(data) == Crc32(data')
    ensures data == data'
  {
    hide Crc32, Absorb, Fold;
    var zeros: seq<Byte> := [0, 0, 0, 0];
    CrcDeterminesRegister(data, data');
    AbsorbMore(SEED, data, data', zeros);
    if k <= |data| {
      WindowEqual(data + zeros, data' + zeros, k);
      assert data == (data + zeros)[..|data|] && data' == (data' + zeros)[..|data|];
    }
  }

  /** Equal registers stay equal while the same bytes are absorbed. */
  lemma AbsorbMore(s: bv32, data: seq<Byte>, data': seq<Byte>, more: seq<Byte>)
    requires Fold(Absorb, s, data) == Fold(Absorb, s, data')
    ensures Fold(Absorb, s, data + more) == Fold(Absorb, s, data' + more)
  {
    hide Absorb, Fold;
    FoldConcat(Absorb, s, data, more);
    FoldConcat(Absorb, s, data', more);
  }

  lemma WindowEqual(data: seq<Byte>, data': seq<Byte>, k: nat)
    requires |data| == |data'| && k + 4 <= |data| && Fold(Absorb, SEED, data) == Fold(Absorb, SEED, data')
    requires forall i :: 0 <= i < |data| && !(k <= i < k + 4) ==> data[i] == data'[i]
    ensures data == data'
  {
    hide Absorb, Fold;
    var pre, w, w', post := data[..k], data[k..k + 4], data'[k..k + 4], data[k + 4..];
    assert data == pre + w + post;
    assert data' == pre + w' + post;
    WindowInjective(SEED, pre, w, w', post);
  }

  lemma WindowInjective(s: bv32, pre: seq<Byte>, w: seq<Byte>, v: seq<Byte>, post: seq<Byte>)
    requires |w| == |v| == 4
    requires Fold(Absorb, s, pre + w + post) == Fold(Absorb, s, pre + v + post)
    ensures w == v
  {
    hide Absorb, Fold;
    forall x, y, b | Absorb(x, b) == Absorb(y, b) ensures x == y {
      AbsorbInjective(x, y, b);
    }
    FoldWindow(Absorb, s, pre, w, v, post);
    FourBytesInjective(Fold(Absorb, s, pre), w, v);
  }
}
