/** The header CRC-8 of standard_robot_pp_ros2/src/crc8_crc16.cpp: x^8 + x^5 + x^4 + 1, LSB first. */
module Crc8 {
  import opened Folds
  import Crc8Table

  type byte = bv8

  const INIT: bv8 := 0xff

  // --------------------------------------------- bit-at-a-time specification

  function Xor(x: bv8, y: bv8): bv8 { x ^ y }
  function Half(x: bv8): bv8 { x >> 1 }
  predicate Low(x: bv8) { x & 1 == 1 }

  /** One step of the division by the generator 0x8c, written without a branch. */
  function Shift(x: bv8): bv8 {
    (x >> 1) ^ ((x & 1) << 7) ^ ((x & 1) << 3) ^ ((x & 1) << 2)
  }

  function Bit(b: bool): bv8 {
    if b then 1 else 0
  }

  function Feed(c: bv8, b: bool): bv8 {
    Shift(Xor(c, Bit(b)))
  }

  function Divide(c: bv8, bits: seq<bool>): bv8 {
    Fold(Feed, c, bits)
  }

  /** The bits of a byte, least significant first. */
  function ByteBits(b: byte): (s: seq<bool>)
    ensures |s| == 8
  {
    Emit(Low, Half, b, 8)
  }

  function Bits(s: seq<byte>): seq<bool> {
    Flatten(ByteBits, s)
  }

  lemma DivisionStep(x: bv8)
    ensures Shift(x) == if x & 1 == 1 then (x >> 1) ^ 0x8c else x >> 1
  {
    assert x & 1 == 0 || x & 1 == 1;
    if x & 1 == 0 {
      assert ((x & 1) << 7) ^ ((x & 1) << 3) ^ ((x & 1) << 2) == 0;
    } else {
      assert ((x & 1) << 7) ^ ((x & 1) << 3) ^ ((x & 1) << 2) == 0x8c;
    }
  }

  lemma ShiftZero(x: bv8)
    ensures Shift(x) == 0 <==> x == 0
  {
  }

  lemma ShiftLinear(x: bv8, y: bv8)
    ensures Shift(Xor(x, y)) == Xor(Shift(x), Shift(y))
  {
  }

  lemma BitLinear(p: bool, q: bool)
    ensures Bit(XorBit(p, q)) == Xor(Bit(p), Bit(q))
  {
  }

  lemma XorAssociative(a: bv8, b: bv8, c: bv8)
    ensures Xor(Xor(a, b), c) == Xor(a, Xor(b, c))
  {
  }

  lemma FeedIsLinear()
    ensures Linear(Feed, Xor, XorBit)
  {
    forall a, b, c {
      XorAssociative(a, b, c);
    }
    IsMedial(Xor);
    forall x, y {
      ShiftLinear(x, y);
    }
    forall p, q {
      BitLinear(p, q);
    }
    StepIsLinear(Feed, Shift, Xor, Bit);
  }

  lemma DivideLinear(c: bv8, d: bv8, s: seq<bool>, t: seq<bool>)
    requires |s| == |t|
    ensures Divide(Xor(c, d), Mix(XorBit, s, t)) == Xor(Divide(c, s), Divide(d, t))
  {
    FeedIsLinear();
    Superposition(Feed, Xor, XorBit, c, d, s, t);
  }

  lemma XorNothing(x: bv8)
    ensures Xor(x, 0) == x
  {
  }

  lemma FeedNothing(x: bv8)
    ensures Feed(x, false) == Shift(x)
  {
    XorNothing(x);
  }

  lemma FeedOwnBit(w: bv8)
    ensures Feed(w, Low(w)) == Half(w)
  {
    assert Bit(Low(w)) == w & 1 by { assert w & 1 == 0 || w & 1 == 1; }
    ClearedLowBit(w);
  }

  lemma ClearedLowBit(w: bv8)
    ensures Shift(Xor(w, w & 1)) == Half(w)
  {
  }

  lemma DivideZeros(x: bv8, n: nat)
    ensures Divide(x, Zeros(n)) == Iterate(Shift, x, n)
  {
    forall y {
      FeedNothing(y);
    }
    FoldZeros(Feed, Shift, x, n);
  }

  lemma FeedOwnBits(w: bv8, n: nat)
    ensures Divide(w, Emit(Low, Half, w, n)) == Iterate(Half, w, n)
  {
    forall v {
      FeedOwnBit(v);
    }
    FoldOwn(Feed, Low, Half, w, n);
  }

  lemma EightHalves(w: bv8)
    ensures Half(Half(Half(Half(Half(Half(Half(Half(w)))))))) == 0
  {
  }

  /** Feeding a byte's bits equals XORing the byte in and stepping eight times. */
  lemma ByteIsEightBits(c: bv8, b: byte)
    ensures Divide(c, ByteBits(b)) == Divide(Xor(c, b), Zeros(8))
  {
    var s := ByteBits(b);
    DivideLinear(c, b, s, s);
    MixSelf(s);
    FeedOwnBits(b, 8);
    IterateEight(Half, b);
    EightHalves(b);
    XorNothing(Divide(c, s));
  }

  // ---------------------------------------------------- the code's table fold

  function TableStep(c: bv8, b: byte): bv8 {
    Crc8Table.Entry(Xor(c, b))
  }

  function Crc(c: bv8, s: seq<byte>): bv8 {
    Fold(TableStep, c, s)
  }

  function Shift8(x: bv8): bv8 {
    Shift(Shift(Shift(Shift(Shift(Shift(Shift(Shift(x))))))))
  }

  lemma Nibble(c: bv8)
    requires c <= 15
    ensures c == 0 || c == 1 || c == 2 || c == 3 || c == 4 || c == 5 || c == 6 || c == 7 ||
            c == 8 || c == 9 || c == 10 || c == 11 || c == 12 || c == 13 || c == 14 || c == 15
  {
  }

  lemma Rows0To3(c: bv8)
    requires c <= 15
    ensures Crc8Table.Row0(c) == Shift8(c) && Crc8Table.Row1(c) == Shift8(0x10 | c)
    ensures Crc8Table.Row2(c) == Shift8(0x20 | c) && Crc8Table.Row3(c) == Shift8(0x30 | c)
  {
    Nibble(c);
  }

  lemma Rows4To7(c: bv8)
    requires c <= 15
    ensures Crc8Table.Row4(c) == Shift8(0x40 | c) && Crc8Table.Row5(c) == Shift8(0x50 | c)
    ensures Crc8Table.Row6(c) == Shift8(0x60 | c) && Crc8Table.Row7(c) == Shift8(0x70 | c)
  {
    Nibble(c);
  }

  lemma Rows8ToB(c: bv8)
    requires c <= 15
    ensures Crc8Table.Row8(c) == Shift8(0x80 | c) && Crc8Table.Row9(c) == Shift8(0x90 | c)
    ensures Crc8Table.RowA(c) == Shift8(0xa0 | c) && Crc8Table.RowB(c) == Shift8(0xb0 | c)
  {
    Nibble(c);
  }

  lemma RowsCToF(c: bv8)
    requires c <= 15
    ensures Crc8Table.RowC(c) == Shift8(0xc0 | c) && Crc8Table.RowD(c) == Shift8(0xd0 | c)
    ensures Crc8Table.RowE(c) == Shift8(0xe0 | c) && Crc8Table.RowF(c) == Shift8(0xf0 | c)
  {
    Nibble(c);
  }

  lemma Split(i: bv8)
    ensures i & 0x0f <= 15 && i >> 4 <= 15 && i == ((i >> 4) << 4) | (i & 0x0f)
  {
  }

  /** Every entry of the table is the register after eight division steps from its index. */
  lemma EntryIsEightSteps(i: bv8)
    ensures Crc8Table.Entry(i) == Divide(i, Zeros(8))
  {
    Split(i);
    Rows0To3(i & 0x0f);
    Rows4To7(i & 0x0f);
    Rows8ToB(i & 0x0f);
    RowsCToF(i & 0x0f);
    Nibble(i >> 4);
    EightZeros(i);
  }

  lemma EightZeros(x: bv8)
    ensures Divide(x, Zeros(8)) == Shift8(x)
  {
    DivideZeros(x, 8);
    IterateEight(Shift, x);
  }

  lemma TableStepIsByte(c: bv8, b: byte)
    ensures TableStep(c, b) == Divide(c, ByteBits(b))
  {
    EntryIsEightSteps(Xor(c, b));
    ByteIsEightBits(c, b);
  }

  /** The table-driven CRC-8 of any byte string is the polynomial division of its bits. */
  lemma TableFoldIsDivision(c: bv8, s: seq<byte>)
    ensures Crc(c, s) == Divide(c, Bits(s))
  {
    forall d, b {
      TableStepIsByte(d, b);
    }
    FoldFlatten(TableStep, Feed, ByteBits, c, s);
  }

  // ------------------------------------------------------ checking and sealing

  /** What verify_CRC8_check_sum answers. */
  predicate Accepts(s: seq<byte>) {
    |s| > 2 && Crc(INIT, s[..|s| - 1]) == s[|s| - 1]
  }

  function Sealed(s: seq<byte>): seq<byte>
    requires |s| > 2
  {
    s[..|s| - 1] + [Crc(INIT, s[..|s| - 1])]
  }

  method GetCrc8CheckSum(message: array<byte>, length: nat, crc: bv8) returns (r: bv8)
    requires length <= message.Length
    ensures r == Crc(crc, message[..length])
  {
    r := crc;
    var i := 0;
    while i < length
      invariant 0 <= i <= length
      invariant Crc(crc, message[..length]) == Crc(r, message[i..length])
    {
      assert message[i..length][1..] == message[i + 1..length];
      r := TableStep(r, message[i]);
      i := i + 1;
    }
  }

  method VerifyCrc8CheckSum(message: array?<byte>, length: nat) returns (ok: bool)
    requires message != null ==> length <= message.Length
    ensures ok <==> message != null && Accepts(message[..length])
  {
    if message == null || length <= 2 {
      return false;
    }
    var expected := GetCrc8CheckSum(message, length - 1, INIT);
    assert message[..length][..length - 1] == message[..length - 1];
    ok := expected == message[length - 1];
  }

  method AppendCrc8CheckSum(message: array?<byte>, length: nat)
    requires message != null ==> length <= message.Length
    modifies if message == null then {} else {message}
    ensures message != null && length <= 2 ==> message[..] == old(message[..])
    ensures message != null && length > 2 ==>
              message[..length] == Sealed(old(message[..length])) && Accepts(message[..length])
    ensures message != null && length > 2 ==> message[length..] == old(message[length..])
  {
    if message == null || length <= 2 {
      return;
    }
    ghost var was := message[..length];
    var c := GetCrc8CheckSum(message, length - 1, INIT);
    assert was[..length - 1] == message[..length - 1];
    message[length - 1] := c;
    assert message[..length] == Sealed(was);
    SealedIsAccepted(was);
  }

  lemma SealedIsAccepted(s: seq<byte>)
    requires |s| > 2
    ensures |Sealed(s)| == |s| && Accepts(Sealed(s))
  {
    assert Sealed(s)[..|s| - 1] == s[..|s| - 1];
  }

  /** A buffer of at most two bytes is rejected. */
  lemma ShortIsRejected(s: seq<byte>)
    requires |s| <= 2
    ensures !Accepts(s)
  {
  }

  /** Starting from 0xff is starting from 0 with the first byte inverted. */
  lemma InitInvertsFirst(a: byte, tail: seq<byte>)
    ensures Crc(INIT, [a] + tail) == Crc(0, [a ^ 0xff] + tail)
  {
    assert ([a] + tail)[1..] == tail == ([a ^ 0xff] + tail)[1..];
    assert Xor(INIT, a) == Xor(0, a ^ 0xff);
  }

  // ---------------------------------------------------------- damaged headers

  lemma XorZero(x: bv8, y: bv8)
    ensures Xor(x, y) == 0 <==> x == y
  {
    if Xor(x, y) == 0 {
      assert (x ^ y) ^ y == x;
    }
  }

  lemma ZeroStaysZero(x: bv8, n: nat)
    ensures Divide(x, Zeros(n)) == 0 <==> x == 0
  {
    DivideZeros(x, n);
    forall y {
      ShiftZero(y);
    }
    IterateKeeps(Shift, 0, x, n);
  }

  /** The table is a permutation: different registers step to different registers. */
  lemma StepsDiffer(x: bv8, y: bv8)
    requires x != y
    ensures Divide(x, Zeros(8)) != Divide(y, Zeros(8))
  {
    DivideLinear(x, y, Zeros(8), Zeros(8));
    MixSelf(Zeros(8));
    ZeroStaysZero(Xor(x, y), 8);
    XorZero(x, y);
    XorZero(Divide(x, Zeros(8)), Divide(y, Zeros(8)));
  }

  lemma TableStepsDiffer(c: bv8, d: bv8, a: byte, b: byte)
    requires Xor(c, a) != Xor(d, b)
    ensures TableStep(c, a) != TableStep(d, b)
  {
    EntryIsEightSteps(Xor(c, a));
    EntryIsEightSteps(Xor(d, b));
    StepsDiffer(Xor(c, a), Xor(d, b));
  }

  lemma XorDiffers(c: bv8, d: bv8, a: byte)
    requires c != d
    ensures Xor(c, a) != Xor(d, a) && Xor(a, c) != Xor(a, d)
  {
    assert (c ^ a) ^ a == c && (d ^ a) ^ a == d;
  }

  lemma {:induction false} RegistersStayApart(c: bv8, d: bv8, s: seq<byte>)
    requires c != d
    ensures Crc(c, s) != Crc(d, s)
    decreases |s|
  {
    if s != [] {
      XorDiffers(c, d, s[0]);
      TableStepsDiffer(c, d, s[0], s[0]);
      RegistersStayApart(TableStep(c, s[0]), TableStep(d, s[0]), s[1..]);
    }
  }

  lemma FirstByteMatters(r: bv8, a: byte, b: byte, tail: seq<byte>)
    requires a != b
    ensures Crc(r, [a] + tail) != Crc(r, [b] + tail)
  {
    XorDiffers(a, b, r);
    TableStepsDiffer(r, r, a, b);
    RegistersStayApart(TableStep(r, a), TableStep(r, b), tail);
    assert ([a] + tail)[1..] == tail == ([b] + tail)[1..];
  }

  /** Changing one byte before the checksum, in any way, changes the checksum. */
  lemma OneByteChangesCrc(c: bv8, s: seq<byte>, i: nat, b: byte)
    requires i < |s| && b != s[i]
    ensures Crc(c, s[i := b]) != Crc(c, s)
  {
    assert s == s[..i] + ([s[i]] + s[i + 1..]) && s[i := b] == s[..i] + ([b] + s[i + 1..]);
    FoldAppend(TableStep, c, s[..i], [s[i]] + s[i + 1..]);
    FoldAppend(TableStep, c, s[..i], [b] + s[i + 1..]);
    FirstByteMatters(Crc(c, s[..i]), b, s[i], s[i + 1..]);
  }

  /** A header with one byte changed in any way is never accepted. */
  lemma OneByteIsRejected(s: seq<byte>, i: nat, b: byte)
    requires Accepts(s) && i < |s| && b != s[i]
    ensures !Accepts(s[i := b])
  {
    var n := |s| - 1;
    if i < n {
      assert s[i := b][..n] == s[..n][i := b];
      OneByteChangesCrc(INIT, s[..n], i, b);
    } else {
      assert s[i := b][..n] == s[..n];
    }
  }
}
