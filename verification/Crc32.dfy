/** The table-driven CRC-32 of scripts/generate-executive-card-downloads.ts against the bit-serial
    definition (section 3.4 of RFC 2083), and what the checksum detects. */
module Crc32 {
  type Byte = bv8

  /** A 32-bit register. */
  datatype Word = Word(bits: bv32)

  const ZERO := Word(0)
  const ALL_ONES := Word(0xffffffff)
  const POLYNOMIAL := Word(0xedb88320)

  function Xor(a: Word, b: Word): Word {
    Word(a.bits ^ b.bits)
  }

  predicate LowBit(a: Word) {
    a.bits & 1 == 1
  }

  function Halve(a: Word): Word {
    Word(a.bits >> 1)
  }

  function FromBit(b: bool): Word {
    if b then Word(1) else ZERO
  }

  function FromByte(b: Byte): Word {
    Word(b as bv32)
  }

  function LowByte(a: Word): Word {
    Word(a.bits & 0xff)
  }

  function HighBytes(a: Word): Word {
    Word(a.bits & 0xffffff00)
  }

  function DownByte(a: Word): Word {
    Word(a.bits >> 8)
  }

  /** One shift of the reflected register. */
  function Shift(a: Word): Word {
    if LowBit(a) then Xor(POLYNOMIAL, Halve(a)) else Halve(a)
  }

  function Shifts(a: Word, n: nat): Word
    decreases n
  {
    if n == 0 then a else Shifts(Shift(a), n - 1)
  }

  /** The definition: n message bits, taken from the low end of w, enter the register one by one. */
  function Feed(crc: Word, w: Word, n: nat): Word
    decreases n
  {
    if n == 0 then crc else Feed(Shift(Xor(crc, FromBit(LowBit(w)))), Halve(w), n - 1)
  }

  /** A message is fed byte by byte, each byte lowest bit first. */
  function FeedBytes(crc: Word, data: seq<Byte>): Word
    decreases |data|
  {
    if data == [] then crc else FeedBytes(Feed(crc, FromByte(data[0]), 8), data[1..])
  }

  /** The CRC-32 of a message: preset to ones, fed bit by bit, complemented. */
  function Checksum(data: seq<Byte>): Word {
    Xor(FeedBytes(ALL_ONES, data), ALL_ONES)
  }

  /** A register as an unsigned number. */
  function Value(w: Word): (n: int)
    ensures 0 <= n < 0x1_0000_0000
  {
    w.bits as int
  }

  // ---------------------------------------------------------------- facts about words

  lemma XorCommutes(a: Word, b: Word)
    ensures Xor(a, b) == Xor(b, a)
  {
  }

  lemma XorAssociates(a: Word, b: Word, c: Word)
    ensures Xor(Xor(a, b), c) == Xor(a, Xor(b, c))
  {
  }

  lemma XorSelf(a: Word)
    ensures Xor(a, a) == ZERO
  {
  }

  lemma XorSharedPart(a: Word, b: Word, c: Word)
    ensures Xor(Xor(a, b), Xor(a, c)) == Xor(b, c)
  {
    XorCommutes(a, b);
    XorAssociates(b, a, Xor(a, c));
    XorAssociates(a, a, c);
    XorSelf(a);
    XorCommutes(ZERO, c);
    XorZero(c);
  }

  lemma XorZero(a: Word)
    ensures Xor(a, ZERO) == a
  {
  }

  lemma XorCancel(a: Word, b: Word, c: Word)
    requires Xor(a, c) == Xor(b, c)
    ensures a == b
  {
    assert (a.bits ^ c.bits) ^ c.bits == a.bits;
    assert (b.bits ^ c.bits) ^ c.bits == b.bits;
  }

  lemma LowBitXor(a: Word, b: Word)
    ensures LowBit(Xor(a, b)) <==> LowBit(a) != LowBit(b)
  {
  }

  lemma HalveXor(a: Word, b: Word)
    ensures Halve(Xor(a, b)) == Xor(Halve(a), Halve(b))
  {
  }

  function WithoutLowBit(w: Word): Word {
    Word(w.bits & 0xfffffffe)
  }

  lemma SplitAtBit(v: bv32)
    ensures v == (if v & 1 == 1 then 1 else 0) ^ (v & 0xfffffffe)
  {
  }

  lemma BitParts(w: Word)
    ensures w == Xor(FromBit(LowBit(w)), WithoutLowBit(w))
  {
    SplitAtBit(w.bits);
  }

  lemma WithoutLowBitIsEven(w: Word)
    ensures !LowBit(WithoutLowBit(w))
  {
  }

  lemma WithoutLowBitHalves(w: Word)
    ensures Halve(WithoutLowBit(w)) == Halve(w)
  {
  }

  lemma SplitAtByte(v: bv32)
    ensures v == (v & 0xff) ^ (v & 0xffffff00)
  {
  }

  lemma ByteParts(a: Word)
    ensures a == Xor(LowByte(a), HighBytes(a))
  {
    SplitAtByte(a.bits);
  }

  lemma HighBytesMoveDown(a: Word)
    ensures DownByte(HighBytes(a)) == DownByte(a)
  {
  }

  lemma HalvesMakeDownByte(a: Word)
    ensures Halve(Halve(Halve(Halve(Halve(Halve(Halve(Halve(a)))))))) == DownByte(a)
  {
  }

  lemma HighBytesAreEven(a: Word)
    ensures var h := HighBytes(a);
      && !LowBit(h) && !LowBit(Halve(h)) && !LowBit(Halve(Halve(h))) && !LowBit(Halve(Halve(Halve(h))))
      && var m := Halve(Halve(Halve(Halve(h))));
         !LowBit(m) && !LowBit(Halve(m)) && !LowBit(Halve(Halve(m))) && !LowBit(Halve(Halve(Halve(m))))
  {
  }

  // ---------------------------------------------------------------- the shift is linear and injective

  lemma ShiftLinearBothOdd(a: Word, b: Word)
    requires LowBit(a) && LowBit(b)
    ensures Shift(Xor(a, b)) == Xor(Shift(a), Shift(b))
  {
    LowBitXor(a, b);
    HalveXor(a, b);
    XorSharedPart(POLYNOMIAL, Halve(a), Halve(b));
  }

  lemma ShiftLinearFirstOdd(a: Word, b: Word)
    requires LowBit(a) && !LowBit(b)
    ensures Shift(Xor(a, b)) == Xor(Shift(a), Shift(b))
  {
    LowBitXor(a, b);
    HalveXor(a, b);
    XorAssociates(POLYNOMIAL, Halve(a), Halve(b));
  }

  lemma ShiftLinearBothEven(a: Word, b: Word)
    requires !LowBit(a) && !LowBit(b)
    ensures Shift(Xor(a, b)) == Xor(Shift(a), Shift(b))
  {
    LowBitXor(a, b);
    HalveXor(a, b);
  }

  lemma ShiftLinear(a: Word, b: Word)
    ensures Shift(Xor(a, b)) == Xor(Shift(a), Shift(b))
  {
    match (LowBit(a), LowBit(b))
    case (true, true) => ShiftLinearBothOdd(a, b);
    case (true, false) => ShiftLinearFirstOdd(a, b);
    case (false, true) =>
      ShiftLinearFirstOdd(b, a);
      XorCommutes(a, b);
      XorCommutes(Shift(a), Shift(b));
    case (false, false) => ShiftLinearBothEven(a, b);
  }

  lemma {:induction false} ShiftsLinear(a: Word, b: Word, n: nat)
    ensures Shifts(Xor(a, b), n) == Xor(Shifts(a, n), Shifts(b, n))
    decreases n
  {
    if n > 0 {
      ShiftLinear(a, b);
      ShiftsLinear(Shift(a), Shift(b), n - 1);
    }
  }

  /** The polynomial's top bit is set, so a shift can be undone. */
  lemma ShiftInjective(a: Word, b: Word)
    requires Shift(a) == Shift(b)
    ensures a == b
  {
    assert a.bits == b.bits;
  }

  lemma {:induction false} ShiftsInjective(a: Word, b: Word, n: nat)
    requires Shifts(a, n) == Shifts(b, n)
    ensures a == b
    decreases n
  {
    if n > 0 {
      ShiftsInjective(Shift(a), Shift(b), n - 1);
      ShiftInjective(a, b);
    }
  }

  // ---------------------------------------------------------------- feeding bits is shifting

  /** w has no bits from position n upwards. */
  predicate Fits(w: Word, n: nat)
    decreases n
  {
    if n == 0 then w == ZERO else Fits(Halve(w), n - 1)
  }

  lemma ShiftPeelsBit(crc: Word, w: Word)
    ensures Shift(Xor(crc, w)) == Xor(Shift(Xor(crc, FromBit(LowBit(w)))), Halve(w))
  {
    BitParts(w);
    WithoutLowBitIsEven(w);
    WithoutLowBitHalves(w);
    var bit, rest := FromBit(LowBit(w)), WithoutLowBit(w);
    XorAssociates(crc, bit, rest);
    ShiftLinear(Xor(crc, bit), rest);
  }

  /** Feeding n bits one by one equals mixing them in at once and shifting n times. */
  lemma {:induction false} FeedIsShifts(crc: Word, w: Word, n: nat)
    requires Fits(w, n)
    ensures Feed(crc, w, n) == Shifts(Xor(crc, w), n)
    decreases n
  {
    if n == 0 {
      XorZero(crc);
    } else {
      ShiftPeelsBit(crc, w);
      FeedIsShifts(Shift(Xor(crc, FromBit(LowBit(w)))), Halve(w), n - 1);
    }
  }

  function HalveTimes(w: Word, k: nat): Word
    decreases k
  {
    if k == 0 then w else HalveTimes(Halve(w), k - 1)
  }

  lemma EightHalves(w: Word)
    ensures HalveTimes(w, 8) == DownByte(w)
  {
    HalvesMakeDownByte(w);
    var w4 := Halve(Halve(Halve(Halve(w))));
    assert HalveTimes(w, 8) == HalveTimes(Halve(Halve(w)), 6) == HalveTimes(w4, 4);
    assert HalveTimes(w4, 4) == HalveTimes(Halve(Halve(w4)), 2) == HalveTimes(Halve(Halve(Halve(Halve(w4)))), 0);
  }

  lemma {:induction false} FitsAfterHalving(w: Word, k: nat, n: nat)
    ensures Fits(w, k + n) == Fits(HalveTimes(w, k), n)
    decreases k
  {
    if k > 0 {
      FitsAfterHalving(Halve(w), k - 1, n);
    }
  }

  lemma FitsAfterByte(w: Word, n: nat)
    ensures Fits(w, 8 + n) == Fits(DownByte(w), n)
  {
    EightHalves(w);
    FitsAfterHalving(w, 8, n);
  }

  lemma ByteFits(b: Byte)
    ensures Fits(FromByte(b), 8)
  {
    FitsAfterByte(FromByte(b), 0);
    assert DownByte(FromByte(b)) == ZERO;
  }

  // ---------------------------------------------------------------- the table

  lemma HighBytesShiftDown(a: Word)
    ensures Shifts(HighBytes(a), 8) == DownByte(a)
  {
    var h := HighBytes(a);
    HighBytesAreEven(a);
    var m := Halve(Halve(Halve(Halve(h))));
    assert Shifts(h, 8) == Shifts(Halve(Halve(h)), 6) == Shifts(m, 4);
    assert Shifts(m, 4) == Shifts(Halve(Halve(m)), 2) == Halve(Halve(Halve(Halve(m))));
    HalvesMakeDownByte(h);
    HighBytesMoveDown(a);
  }

  /** One table step: eight shifts look up the low byte and move the rest down. */
  lemma TableStep(a: Word)
    ensures Shifts(a, 8) == Xor(Shifts(LowByte(a), 8), DownByte(a))
  {
    ByteParts(a);
    ShiftsLinear(LowByte(a), HighBytes(a), 8);
    HighBytesShiftDown(a);
  }

  lemma MixingKeepsHighBytes(crc: Word, b: Byte)
    ensures DownByte(Xor(crc, FromByte(b))) == DownByte(crc)
  {
  }

  function Numbered(i: int): Word
    requires 0 <= i < 256
  {
    Word(i as bv32)
  }

  function TableIndex(a: Word): (r: int)
    ensures 0 <= r < 256
  {
    (a.bits & 0xff) as int
  }

  lemma IntRoundTrip(v: bv32)
    ensures (v as int) as bv32 == v
  {
  }

  lemma IndexRoundTrip(a: Word)
    ensures Numbered(TableIndex(a)) == LowByte(a)
  {
    IntRoundTrip(a.bits & 0xff);
  }

  ghost predicate IsCrcTable(table: seq<Word>) {
    |table| == 256 && forall i :: 0 <= i < 256 ==> table[i] == Shifts(Numbered(i), 8)
  }

  /** `crcTable`: entry i is i shifted eight times. */
  method CrcTable() returns (table: seq<Word>)
    ensures IsCrcTable(table)
  {
    table := [];
    var index := 0;
    while index < 256
      invariant 0 <= index <= 256 && |table| == index
      invariant forall i :: 0 <= i < index ==> table[i] == Shifts(Numbered(i), 8)
    {
      var value := Numbered(index);
      var bit := 0;
      while bit < 8
        invariant 0 <= bit <= 8
        invariant Shifts(value, 8 - bit) == Shifts(Numbered(index), 8)
      {
        value := if LowBit(value) then Xor(POLYNOMIAL, Halve(value)) else Halve(value);
        bit := bit + 1;
      }
      table := table + [value];
      index := index + 1;
    }
  }

  lemma TableLookup(table: seq<Word>, crc: Word, byte: Byte)
    requires IsCrcTable(table)
    ensures Feed(crc, FromByte(byte), 8) == Xor(table[TableIndex(Xor(crc, FromByte(byte)))], DownByte(crc))
  {
    var mixed := Xor(crc, FromByte(byte));
    ByteFits(byte);
    FeedIsShifts(crc, FromByte(byte), 8);
    TableStep(mixed);
    MixingKeepsHighBytes(crc, byte);
    IndexRoundTrip(mixed);
  }

  /** `crc32`: one table lookup per byte computes the bit-serial checksum. */
  method Crc32(table: seq<Word>, buffer: seq<Byte>) returns (r: Word)
    requires IsCrcTable(table)
    ensures r == Checksum(buffer)
  {
    var crc := ALL_ONES;
    var i := 0;
    assert buffer[0..] == buffer;
    while i < |buffer|
      invariant 0 <= i <= |buffer|
      invariant FeedBytes(crc, buffer[i..]) == FeedBytes(ALL_ONES, buffer)
    {
      TableLookup(table, crc, buffer[i]);
      crc := Xor(table[TableIndex(Xor(crc, FromByte(buffer[i])))], DownByte(crc));
      assert buffer[i..][1..] == buffer[i + 1..];
      i := i + 1;
    }
    r := Xor(crc, ALL_ONES);
  }

  // ---------------------------------------------------------------- what the checksum detects

  lemma {:induction false} FeedBytesInjective(a: Word, b: Word, data: seq<Byte>)
    requires FeedBytes(a, data) == FeedBytes(b, data)
    ensures a == b
    decreases |data|
  {
    if data != [] {
      var w := FromByte(data[0]);
      FeedBytesInjective(Feed(a, w, 8), Feed(b, w, 8), data[1..]);
      ByteFits(data[0]);
      FeedIsShifts(a, w, 8);
      FeedIsShifts(b, w, 8);
      ShiftsInjective(Xor(a, w), Xor(b, w), 8);
      XorCancel(a, b, w);
    }
  }

  lemma {:induction false} FeedBytesConcat(crc: Word, a: seq<Byte>, b: seq<Byte>)
    ensures FeedBytes(crc, a + b) == FeedBytes(FeedBytes(crc, a), b)
    decreases |a|
  {
    if a == [] {
      assert a + b == b;
    } else {
      assert (a + b)[1..] == a[1..] + b;
      FeedBytesConcat(Feed(crc, FromByte(a[0]), 8), a[1..], b);
    }
  }

  /** A byte placed below a word that has room for it. */
  function Push(b: Byte, w: Word): Word {
    Word((b as bv32) | (w.bits << 8))
  }

  /** Up to four bytes as one word, first byte lowest. */
  function Pack(bytes: seq<Byte>): Word
    decreases |bytes|
  {
    if bytes == [] then ZERO else Push(bytes[0], Pack(bytes[1..]))
  }

  lemma FromByteInjective(b: Byte, c: Byte)
    requires FromByte(b) == FromByte(c)
    ensures b == c
  {
  }

  /** The largest word of n bytes. */
  function Largest(n: nat): bv32 {
    match n
    case 0 => 0
    case 1 => 0xff
    case 2 => 0xffff
    case 3 => 0xffffff
    case _ => 0xffffffff
  }

  predicate Within(w: Word, n: nat) {
    w.bits <= Largest(n)
  }

  lemma BytesWithin(b: bv32, w: bv32)
    requires b <= 0xff
    ensures w <= 0 ==> (b | (w << 8)) <= 0xff
    ensures w <= 0xff ==> (b | (w << 8)) <= 0xffff
    ensures w <= 0xffff ==> (b | (w << 8)) <= 0xffffff
    ensures w <= 0xffffff ==> (b | (w << 8)) >> 8 == w
    ensures (b | (w << 8)) & 0xff == b
  {
  }

  lemma ByteWithin(b: Byte)
    ensures b as bv32 <= 0xff
  {
  }

  lemma PushWithin(b: Byte, w: Word, n: nat)
    requires n <= 2 && Within(w, n)
    ensures Within(Push(b, w), n + 1)
  {
    ByteWithin(b);
    BytesWithin(b as bv32, w.bits);
    match n
    case 0 =>
    case 1 =>
    case _ =>
  }

  lemma {:induction false} PackWithin(bytes: seq<Byte>)
    requires |bytes| <= 3
    ensures Within(Pack(bytes), |bytes|)
    ensures Within(Pack(bytes), 3)
    decreases |bytes|
  {
    if bytes != [] {
      PackWithin(bytes[1..]);
      PushWithin(bytes[0], Pack(bytes[1..]), |bytes| - 1);
    }
    match |bytes|
    case 0 =>
    case 1 =>
    case 2 =>
    case _ =>
  }

  lemma PackParts(bytes: seq<Byte>)
    requires 0 < |bytes| <= 4
    ensures LowByte(Pack(bytes)) == FromByte(bytes[0]) && DownByte(Pack(bytes)) == Pack(bytes[1..])
  {
    PackWithin(bytes[1..]);
    ByteWithin(bytes[0]);
    BytesWithin(bytes[0] as bv32, Pack(bytes[1..]).bits);
  }

  lemma {:induction false} PackInjective(a: seq<Byte>, b: seq<Byte>)
    requires |a| == |b| <= 4 && Pack(a) == Pack(b)
    ensures a == b
    decreases |a|
  {
    if a != [] {
      PackParts(a);
      PackParts(b);
      FromByteInjective(a[0], b[0]);
      PackInjective(a[1..], b[1..]);
      assert a == [a[0]] + a[1..] && b == [b[0]] + b[1..];
    }
  }

  lemma {:induction false} PackFits(bytes: seq<Byte>)
    requires |bytes| <= 4
    ensures Fits(Pack(bytes), 8 * |bytes|)
    decreases |bytes|
  {
    if bytes != [] {
      PackParts(bytes);
      FitsAfterByte(Pack(bytes), 8 * |bytes[1..]|);
      PackFits(bytes[1..]);
    }
  }

  lemma {:induction false} FeedInParts(crc: Word, w: Word, k: nat, n: nat)
    ensures Feed(crc, w, k + n) == Feed(Feed(crc, w, k), HalveTimes(w, k), n)
    decreases k
  {
    if k > 0 {
      FeedInParts(Shift(Xor(crc, FromBit(LowBit(w)))), Halve(w), k - 1, n);
    }
  }

  /** The first n bits of two words agree. */
  predicate SameLowBits(v: Word, w: Word, n: nat)
    decreases n
  {
    n == 0 || (LowBit(v) == LowBit(w) && SameLowBits(Halve(v), Halve(w), n - 1))
  }

  lemma {:induction false} FeedLowBits(crc: Word, v: Word, w: Word, n: nat)
    requires SameLowBits(v, w, n)
    ensures Feed(crc, v, n) == Feed(crc, w, n)
    decreases n
  {
    if n > 0 {
      FeedLowBits(Shift(Xor(crc, FromBit(LowBit(v)))), Halve(v), Halve(w), n - 1);
    }
  }

  lemma BitsOfLowByte(w: Word)
    ensures var l := LowByte(w);
      && LowBit(w) == LowBit(l) && LowBit(Halve(w)) == LowBit(Halve(l)) && LowBit(Halve(Halve(w))) == LowBit(Halve(Halve(l)))
      && LowBit(Halve(Halve(Halve(w)))) == LowBit(Halve(Halve(Halve(l))))
      && var w4, l4 := Halve(Halve(Halve(Halve(w)))), Halve(Halve(Halve(Halve(l))));
         LowBit(w4) == LowBit(l4) && LowBit(Halve(w4)) == LowBit(Halve(l4)) && LowBit(Halve(Halve(w4))) == LowBit(Halve(Halve(l4)))
         && LowBit(Halve(Halve(Halve(w4)))) == LowBit(Halve(Halve(Halve(l4))))
  {
  }

  /** Feeding up to four bytes is feeding the bits of their packed word. */
  lemma {:induction false} FeedPacked(crc: Word, bytes: seq<Byte>)
    requires |bytes| <= 4
    ensures FeedBytes(crc, bytes) == Feed(crc, Pack(bytes), 8 * |bytes|)
    decreases |bytes|
  {
    if bytes != [] {
      var w := Pack(bytes);
      PackParts(bytes);
      assert SameLowBits(w, LowByte(w), 8) by {
        BitsOfLowByte(w);
        var l := LowByte(w);
        var w4, l4 := Halve(Halve(Halve(Halve(w)))), Halve(Halve(Halve(Halve(l))));
        assert SameLowBits(Halve(Halve(w4)), Halve(Halve(l4)), 2);
        assert SameLowBits(w4, l4, 4);
        assert SameLowBits(Halve(Halve(w)), Halve(Halve(l)), 6);
      }
      FeedLowBits(crc, w, FromByte(bytes[0]), 8);
      EightHalves(w);
      FeedInParts(crc, w, 8, 8 * |bytes[1..]|);
      FeedPacked(Feed(crc, FromByte(bytes[0]), 8), bytes[1..]);
    }
  }

  lemma WindowInjective(crc: Word, a: seq<Byte>, b: seq<Byte>)
    requires |a| == |b| <= 4 && FeedBytes(crc, a) == FeedBytes(crc, b)
    ensures a == b
  {
    var n := 8 * |a|;
    FeedPacked(crc, a);
    FeedPacked(crc, b);
    PackFits(a);
    PackFits(b);
    FeedIsShifts(crc, Pack(a), n);
    FeedIsShifts(crc, Pack(b), n);
    ShiftsInjective(Xor(crc, Pack(a)), Xor(crc, Pack(b)), n);
    XorCommutes(crc, Pack(a));
    XorCommutes(crc, Pack(b));
    XorCancel(Pack(a), Pack(b), crc);
    PackInjective(a, b);
  }

  /** Every change confined to four consecutive bytes changes the checksum, in messages of any
      length and at any place. */
  lemma BurstDetected(before: seq<Byte>, a: seq<Byte>, b: seq<Byte>, after: seq<Byte>)
    requires |a| == |b| <= 4 && a != b
    ensures Checksum(before + a + after) != Checksum(before + b + after)
  {
    var crc := FeedBytes(ALL_ONES, before);
    FeedBytesConcat(ALL_ONES, before + a, after);
    FeedBytesConcat(ALL_ONES, before, a);
    FeedBytesConcat(ALL_ONES, before + b, after);
    FeedBytesConcat(ALL_ONES, before, b);
    if Checksum(before + a + after) == Checksum(before + b + after) {
      XorCancel(FeedBytes(ALL_ONES, before + a + after), FeedBytes(ALL_ONES, before + b + after), ALL_ONES);
      FeedBytesInjective(FeedBytes(crc, a), FeedBytes(crc, b), after);
      WindowInjective(crc, a, b);
      assert false;
    }
  }
}
