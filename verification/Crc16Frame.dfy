/** Checking and sealing whole frames with the CRC-16 (standard_robot_pp_ros2/src/crc8_crc16.cpp). */
module Crc16Frame {
  import opened Folds
  import opened Crc16Spec
  import opened Crc16
  import opened Crc16Detection
  import opened Crc16Period
  import Crc16Table

  /** What verify_CRC16_check_sum answers: the last two bytes, low byte first, are the checksum of the rest. */
  predicate Accepts(s: seq<byte>) {
    |s| > 2 &&
    var w := Crc(INIT, s[..|s| - 2]);
    LowByte(w) == s[|s| - 2] && LowByte(High(w)) == s[|s| - 1]
  }

  /** The frame with its last two bytes replaced by the checksum. */
  function Sealed(s: seq<byte>): seq<byte>
    requires |s| > 2
  {
    var w := Crc(INIT, s[..|s| - 2]);
    s[..|s| - 2] + [LowByte(w), LowByte(High(w))]
  }

  method GetCrc16CheckSum(message: array?<byte>, length: nat, crc: bv16) returns (r: bv16)
    requires message != null ==> length <= message.Length
    ensures message == null ==> r == 0xffff
    ensures message != null ==> r == Crc(crc, message[..length])
  {
    if message == null {
      return 0xffff;
    }
    r := crc;
    var i := 0;
    while i < length
      invariant 0 <= i <= length
      invariant Crc(crc, message[..length]) == Crc(r, message[i..length])
    {
      assert message[i..length][1..] == message[i + 1..length];
      r := TableStep(r, message[i]);
      i := i + 1;
    }
  }

  method VerifyCrc16CheckSum(message: array?<byte>, length: nat) returns (ok: bool)
    requires message != null ==> length <= message.Length
    ensures ok <==> message != null && Accepts(message[..length])
  {
    if message == null || length <= 2 {
      return false;
    }
    var expected := GetCrc16CheckSum(message, length - 2, INIT);
    assert message[..length][..length - 2] == message[..length - 2];
    ok := LowByte(expected) == message[length - 2] && LowByte(High(expected)) == message[length - 1];
  }

  method AppendCrc16CheckSum(message: array?<byte>, length: nat)
    requires message != null ==> length <= message.Length
    modifies if message == null then {} else {message}
    ensures message != null && length <= 2 ==> message[..] == old(message[..])
    ensures message != null && length > 2 ==>
              message[..length] == Sealed(old(message[..length])) && Accepts(message[..length])
    ensures message != null && length > 2 ==> message[length..] == old(message[length..])
  {
    if message == null || length <= 2 {
      return;
    }
    ghost var was := message[..length];
    var w := GetCrc16CheckSum(message, length - 2, INIT);
    assert was[..length - 2] == message[..length - 2];
    message[length - 2] := LowByte(w);
    message[length - 1] := LowByte(High(w));
    assert message[..length] == Sealed(was);
    SealedIsAccepted(was);
  }

  lemma SealedIsAccepted(s: seq<byte>)
    requires |s| > 2
    ensures |Sealed(s)| == |s| && Accepts(Sealed(s))
  {
    assert Sealed(s)[..|s| - 2] == s[..|s| - 2];
  }

  /** A buffer of at most two bytes is rejected. */
  lemma ShortIsRejected(s: seq<byte>)
    requires |s| <= 2
    ensures !Accepts(s)
  {
  }

  lemma InvertedByte(b: byte)
    ensures LowByte(Xor(INIT, Word(b))) == LowByte(Xor(0, Word(b ^ 0xff)))
  {
  }

  lemma InvertedSecond(entry: bv16, b: byte)
    ensures var c, d := Xor(High(INIT), entry), Xor(High(0), entry);
            High(c) == High(d) && LowByte(Xor(c, Word(b))) == LowByte(Xor(d, Word(b ^ 0xff)))
  {
  }

  lemma TwoSteps(c: bv16, a: byte, b: byte, tail: seq<byte>)
    ensures Crc(c, [a, b] + tail) == Crc(TableStep(TableStep(c, a), b), tail)
  {
    var s, t := [a, b] + tail, [b] + tail;
    assert s[1..] == t && t[1..] == tail;
    assert Crc(c, s) == Crc(TableStep(c, a), t);
    assert Crc(TableStep(c, a), t) == Crc(TableStep(TableStep(c, a), b), tail);
  }

  lemma InvertedStart(a: byte, b: byte)
    ensures TableStep(TableStep(INIT, a), b) == TableStep(TableStep(0, a ^ 0xff), b ^ 0xff)
  {
    InvertedByte(a);
    InvertedSecond(Crc16Table.Entry(LowByte(Xor(INIT, Word(a)))), b);
  }

  /** Starting from 0xffff is starting from 0 with the first two bytes inverted, so that zero bytes in front of a message
      are seen. */
  lemma InitInvertsFirst(a: byte, b: byte, tail: seq<byte>)
    ensures Crc(INIT, [a, b] + tail) == Crc(0, [a ^ 0xff, b ^ 0xff] + tail)
  {
    TwoSteps(INIT, a, b, tail);
    TwoSteps(0, a ^ 0xff, b ^ 0xff, tail);
    InvertedStart(a, b);
  }

  // ------------------------------------------------- the accepting residue is 0

  lemma LowEight(v: bv16)
    ensures WordBits(v, 8) == ByteBits(LowByte(v))
  {
    EmitEight(Low, Half, v);
    EmitEight(Low, Half, Word(LowByte(v)));
    LowEightBits(v, Word(LowByte(v)));
  }

  lemma LowEightBits(v: bv16, u: bv16)
    requires u == v & 0xff
    ensures Low(v) == Low(u) && Low(Half(v)) == Low(Half(u)) && Low(Half(Half(v))) == Low(Half(Half(u)))
    ensures Low(Half(Half(Half(v)))) == Low(Half(Half(Half(u))))
    ensures Low(Half(Half(Half(Half(v))))) == Low(Half(Half(Half(Half(u)))))
    ensures Low(Half(Half(Half(Half(Half(v)))))) == Low(Half(Half(Half(Half(Half(u))))))
    ensures Low(Half(Half(Half(Half(Half(Half(v))))))) == Low(Half(Half(Half(Half(Half(Half(u)))))))
    ensures Low(Half(Half(Half(Half(Half(Half(Half(v)))))))) == Low(Half(Half(Half(Half(Half(Half(Half(u))))))))
  {
  }

  lemma TwoBytes(v: bv16)
    ensures Bits16(v) == ByteBits(LowByte(v)) + ByteBits(LowByte(High(v)))
  {
    EmitAppend(Low, Half, v, 8, 8);
    HalfEight(v);
    LowEight(v);
    LowEight(High(v));
  }

  lemma JoinBytes(lo: byte, hi: byte) returns (v: bv16)
    ensures LowByte(v) == lo && LowByte(High(v)) == hi
  {
    v := (lo as bv16) | ((hi as bv16) << 8);
  }

  lemma SameBytes(v: bv16, w: bv16)
    ensures v == w <==> LowByte(v) == LowByte(w) && LowByte(High(v)) == LowByte(High(w))
  {
  }

  /** Dividing a register's own word out of it leaves 0, and nothing else does. */
  lemma OwnWord(w: bv16, v: bv16)
    ensures Divide(w, Bits16(v)) == 0 <==> w == v
  {
    var s := Bits16(v);
    DivideLinear(w, v, s, s);
    MixSelf(s);
    FeedOwnBits(v, 16);
    SixteenHalves(v);
    XorNothing(Divide(w, s));
    ZeroStaysZero(Xor(w, v), 16);
    XorZero(w, v);
  }

  lemma BitsOfTwo(lo: byte, hi: byte)
    ensures Bits([lo, hi]) == ByteBits(lo) + ByteBits(hi)
  {
    FlattenTwo(ByteBits, lo, hi);
  }

  lemma LastTwoBytes(w: bv16, lo: byte, hi: byte)
    ensures Crc(w, [lo, hi]) == 0 <==> LowByte(w) == lo && LowByte(High(w)) == hi
  {
    TableFoldIsDivision(w, [lo, hi]);
    BitsOfTwo(lo, hi);
    var v := JoinBytes(lo, hi);
    TwoBytes(v);
    OwnWord(w, v);
    SameBytes(v, w);
  }

  /** A buffer of more than two bytes is accepted exactly when the checksum of ALL of it is 0. */
  lemma AcceptedIffResidueZero(s: seq<byte>)
    requires |s| > 2
    ensures Accepts(s) <==> Crc(INIT, s) == 0
  {
    var body, lo, hi := s[..|s| - 2], s[|s| - 2], s[|s| - 1];
    assert s == body + [lo, hi];
    FoldAppend(TableStep, INIT, body, [lo, hi]);
    LastTwoBytes(Crc(INIT, body), lo, hi);
  }

  // ------------------------------------------------------- padding with zeros

  function ZeroBytes(n: nat): seq<byte> {
    seq(n, _ => 0 as byte)
  }

  lemma BitsOfZeroBytes(n: nat)
    ensures Bits(ZeroBytes(n)) == Zeros(8 * n)
  {
    if n > 0 {
      BitsOfZeroBytes(n - 1);
      assert ZeroBytes(n)[1..] == ZeroBytes(n - 1);
      ZeroWord(8);
      assert Zeros(8) + Zeros(8 * (n - 1)) == Zeros(8 * n);
    }
  }

  /** Zero bytes after a frame change nothing: the padded buffer is accepted exactly when the frame is. */
  lemma PaddingIsInvisible(s: seq<byte>, n: nat)
    requires |s| > 2
    ensures Accepts(s + ZeroBytes(n)) <==> Accepts(s)
  {
    AcceptedIffResidueZero(s);
    AcceptedIffResidueZero(s + ZeroBytes(n));
    FoldAppend(TableStep, INIT, s, ZeroBytes(n));
    TableFoldIsDivision(Crc(INIT, s), ZeroBytes(n));
    BitsOfZeroBytes(n);
    ZeroStaysZero(Crc(INIT, s), 8 * n);
  }

  // --------------------------------------------------------- damaged frames

  function XorByte(a: byte, b: byte): byte {
    a ^ b
  }

  /** The frame with the bits set in `err` flipped. */
  function Damaged(frame: seq<byte>, err: seq<byte>): seq<byte>
    requires |frame| == |err|
  {
    Mix(XorByte, frame, err)
  }

  lemma XorByteWord(a: byte, b: byte)
    ensures Word(XorByte(a, b)) == Xor(Word(a), Word(b))
  {
  }

  lemma BitsOfDamaged(s: seq<byte>, t: seq<byte>)
    requires |s| == |t|
    ensures |Bits(s)| == |Bits(t)| && Bits(Damaged(s, t)) == Mix(XorBit, Bits(s), Bits(t))
  {
    if s != [] {
      BitsOfDamaged(s[1..], t[1..]);
      assert Damaged(s, t)[1..] == Damaged(s[1..], t[1..]);
      XorByteWord(s[0], t[0]);
      WordBitsLinear(Word(s[0]), Word(t[0]), 8);
      MixAppend(XorBit, ByteBits(s[0]), Bits(s[1..]), ByteBits(t[0]), Bits(t[1..]));
    }
  }

  /** Damage to an accepted frame goes unseen exactly when its own remainder is 0. */
  lemma UnseenDamage(frame: seq<byte>, err: seq<byte>)
    requires Accepts(frame) && |err| == |frame|
    ensures Accepts(Damaged(frame, err)) <==> Divide(0, Bits(err)) == 0
  {
    AcceptedIffResidueZero(frame);
    AcceptedIffResidueZero(Damaged(frame, err));
    TableFoldIsDivision(INIT, frame);
    TableFoldIsDivision(INIT, Damaged(frame, err));
    BitsOfDamaged(frame, err);
    DivideLinear(INIT, 0, Bits(frame), Bits(err));
    XorNothing(INIT);
    XorNothing(Divide(0, Bits(err)));
  }

  ghost predicate IsBurst(e: seq<bool>) {
    exists before: nat, burst: seq<bool>, after: nat ::
      e == Zeros(before) + burst + Zeros(after) && |burst| <= 16 && true in burst
  }

  /** Errors the CRC-16 always sees: a burst of at most sixteen bits, an odd number of flipped bits, or at most
      three flipped bits in a frame of at most 4095 bytes. */
  ghost predicate Detectable(err: seq<byte>) {
    var e := Bits(err);
    IsBurst(e) || Count(e) % 2 == 1 || (|err| <= 4095 && 1 <= Count(e) <= 3)
  }

  lemma NoOnes(e: seq<bool>)
    requires Count(e) == 0
    ensures e == Zeros(|e|)
  {
    if e != [] {
      NoOnes(e[1..]);
    }
  }

  lemma FirstOne(e: seq<bool>) returns (i: nat)
    requires Count(e) > 0
    ensures i < |e| && e == Zeros(i) + [true] + e[i + 1..] && Count(e[i + 1..]) == Count(e) - 1
  {
    if e[0] {
      i := 0;
    } else {
      var j := FirstOne(e[1..]);
      i := j + 1;
      assert e[1..][j + 1..] == e[i + 1..];
      assert Zeros(i) == [false] + Zeros(j);
      assert e == [false] + e[1..];
    }
  }

  lemma TwoOnes(e: seq<bool>)
    requires Count(e) == 2 && |e| <= ORDER
    ensures Divide(0, e) != 0
  {
    var i := FirstOne(e);
    var rest := e[i + 1..];
    var j := FirstOne(rest);
    var tail := rest[j + 1..];
    NoOnes(tail);
    AroundTwo(e, rest, tail, i, j);
    TwoBitErrors(i, j + 1, |tail|);
  }

  lemma AroundTwo(e: seq<bool>, rest: seq<bool>, tail: seq<bool>, i: nat, j: nat)
    requires e == Zeros(i) + [true] + rest && rest == Zeros(j) + [true] + tail
    ensures e == Zeros(i) + ([true] + Zeros(j) + [true]) + tail
  {
  }

  lemma BitsLength(s: seq<byte>)
    ensures |Bits(s)| == 8 * |s|
  {
    if s != [] {
      BitsLength(s[1..]);
    }
  }

  lemma BurstRemainder(e: seq<bool>)
    requires IsBurst(e)
    ensures Divide(0, e) != 0
  {
    var before: nat, burst: seq<bool>, after: nat :|
      e == Zeros(before) + burst + Zeros(after) && |burst| <= 16 && true in burst;
    BurstErrors(before, burst, after);
  }

  lemma DetectableRemainder(err: seq<byte>)
    requires Detectable(err)
    ensures Divide(0, Bits(err)) != 0
  {
    var e := Bits(err);
    if IsBurst(e) {
      BurstRemainder(e);
    } else if Count(e) % 2 == 1 {
      OddErrors(e);
    } else {
      BitsLength(err);
      TwoOnes(e);
    }
  }

  /** An accepted frame hit by a detectable error is never accepted. */
  lemma DetectableIsRejected(frame: seq<byte>, err: seq<byte>)
    requires Accepts(frame) && |err| == |frame| && Detectable(err)
    ensures !Accepts(Damaged(frame, err))
  {
    UnseenDamage(frame, err);
    DetectableRemainder(err);
  }
}
