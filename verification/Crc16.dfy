/** The table-driven CRC-16 of standard_robot_pp_ros2/src/crc8_crc16.cpp. */
module Crc16 {
  import opened Folds
  import opened Crc16Spec
  import Crc16Table

  function TableStep(c: bv16, b: byte): bv16 {
    Xor(High(c), Crc16Table.Entry(LowByte(Xor(c, Word(b)))))
  }

  /** The fold the code computes. */
  function Crc(c: bv16, s: seq<byte>): bv16 {
    Fold(TableStep, c, s)
  }

  // ---------------------------------------------------------------- the table

  function Shift8(x: bv16): bv16 {
    Shift(Shift(Shift(Shift(Shift(Shift(Shift(Shift(x))))))))
  }

  lemma Nibble(c: bv8)
    requires c <= 15
    ensures c == 0 || c == 1 || c == 2 || c == 3 || c == 4 || c == 5 || c == 6 || c == 7 ||
            c == 8 || c == 9 || c == 10 || c == 11 || c == 12 || c == 13 || c == 14 || c == 15
  {
  }

  lemma Rows0To3(c: bv8)
    requires c <= 15
    ensures Crc16Table.Row0(c) == Shift8(c as bv16) && Crc16Table.Row1(c) == Shift8((0x10 | c) as bv16)
    ensures Crc16Table.Row2(c) == Shift8((0x20 | c) as bv16) && Crc16Table.Row3(c) == Shift8((0x30 | c) as bv16)
  {
    Nibble(c);
  }

  lemma Rows4To7(c: bv8)
    requires c <= 15
    ensures Crc16Table.Row4(c) == Shift8((0x40 | c) as bv16) && Crc16Table.Row5(c) == Shift8((0x50 | c) as bv16)
    ensures Crc16Table.Row6(c) == Shift8((0x60 | c) as bv16) && Crc16Table.Row7(c) == Shift8((0x70 | c) as bv16)
  {
    Nibble(c);
  }

  lemma Rows8ToB(c: bv8)
    requires c <= 15
    ensures Crc16Table.Row8(c) == Shift8((0x80 | c) as bv16) && Crc16Table.Row9(c) == Shift8((0x90 | c) as bv16)
    ensures Crc16Table.RowA(c) == Shift8((0xa0 | c) as bv16) && Crc16Table.RowB(c) == Shift8((0xb0 | c) as bv16)
  {
    Nibble(c);
  }

  lemma RowsCToF(c: bv8)
    requires c <= 15
    ensures Crc16Table.RowC(c) == Shift8((0xc0 | c) as bv16) && Crc16Table.RowD(c) == Shift8((0xd0 | c) as bv16)
    ensures Crc16Table.RowE(c) == Shift8((0xe0 | c) as bv16) && Crc16Table.RowF(c) == Shift8((0xf0 | c) as bv16)
  {
    Nibble(c);
  }

  lemma Split(i: bv8)
    ensures i & 0x0f <= 15 && i >> 4 <= 15
    ensures i == ((i >> 4) << 4) | (i & 0x0f)
  {
  }

  /** Every entry of the table is the register after eight division steps from its index. */
  lemma EntryIsEightSteps(i: bv8)
    ensures Crc16Table.Entry(i) == Divide(Word(i), Zeros(8))
  {
    Split(i);
    var c := i & 0x0f;
    Rows0To3(c);
    Rows4To7(c);
    Rows8ToB(c);
    RowsCToF(c);
    Nibble(i >> 4);
    EightZeros(Word(i));
  }

  lemma EightZeros(x: bv16)
    ensures Divide(x, Zeros(8)) == Shift8(x)
  {
    DivideZeros(x, 8);
    IterateEight(Shift, x);
  }

  // ------------------------------------------- table fold = bitwise division

  /** Feeding a byte's bits equals XORing the byte in and stepping eight times. */
  lemma ByteIsEightBits(c: bv16, b: byte)
    ensures Divide(c, ByteBits(b)) == Divide(Xor(c, Word(b)), Zeros(8))
  {
    var s := ByteBits(b);
    DivideLinear(c, Word(b), s, s);
    MixSelf(s);
    FeedOwnBits(Word(b), 8);
    HalfEight(Word(b));
    XorNothing(Divide(c, s));
  }

  /** Eight empty steps move the high byte down untouched. */
  lemma HighByte(x: bv16)
    requires x & 0xff == 0
    ensures Divide(x, Zeros(8)) == High(x)
  {
    EvenShift(x);
    EvenShift(x >> 1);
    EvenShift(x >> 2);
    EvenShift(x >> 3);
    EvenShift(x >> 4);
    EvenShift(x >> 5);
    EvenShift(x >> 6);
    EvenShift(x >> 7);
    EightZeros(x);
  }

  lemma EvenShift(x: bv16)
    requires x & 1 == 0
    ensures Shift(x) == x >> 1
  {
  }

  /** The two bytes of the register can be stepped separately. */
  lemma SplitBytes(x: bv16)
    ensures Divide(x, Zeros(8)) == Xor(High(x), Divide(Word(LowByte(x)), Zeros(8)))
  {
    var hi := x & 0xff00;
    MixSelf(Zeros(8));
    DivideLinear(hi, Word(LowByte(x)), Zeros(8), Zeros(8));
    BytesOf(x);
    HighByte(hi);
  }

  lemma BytesOf(x: bv16)
    ensures Xor(x & 0xff00, Word(LowByte(x))) == x
    ensures (x & 0xff00) & 0xff == 0 && High(x & 0xff00) == High(x)
  {
  }

  lemma EntryStepIsByte(c: bv16, b: byte, entry: bv16)
    requires entry == Divide(Word(LowByte(Xor(c, Word(b)))), Zeros(8))
    ensures Xor(High(c), entry) == Divide(c, ByteBits(b))
  {
    ByteIsEightBits(c, b);
    SplitBytes(Xor(c, Word(b)));
  }

  lemma TableStepIsByte(c: bv16, b: byte)
    ensures TableStep(c, b) == Divide(c, ByteBits(b))
  {
    var i := LowByte(Xor(c, Word(b)));
    EntryIsEightSteps(i);
    EntryStepIsByte(c, b, Crc16Table.Entry(i));
  }

  /** The table-driven checksum of any byte string is the polynomial division of its bits. */
  lemma TableFoldIsDivision(c: bv16, s: seq<byte>)
    ensures Crc(c, s) == Divide(c, Bits(s))
  {
    forall d, b {
      TableStepIsByte(d, b);
    }
    FoldFlatten(TableStep, Feed, ByteBits, c, s);
  }
}
