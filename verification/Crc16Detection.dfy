/** What the CRC-16 of the serial link detects, for frames of every length. */
module Crc16Detection {
  import opened Folds
  import opened Crc16Spec

  /** The number of set bits. */
  function Count(s: seq<bool>): nat {
    if s == [] then 0 else (if s[0] then 1 else 0) + Count(s[1..])
  }

  /** The sum of the bits modulo 2. */
  predicate Odd(s: seq<bool>) {
    s != [] && s[0] != Odd(s[1..])
  }

  lemma {:induction false} OddIsOddCount(s: seq<bool>)
    ensures Odd(s) <==> Count(s) % 2 == 1
  {
    if s != [] {
      OddIsOddCount(s[1..]);
    }
  }

  lemma OddAppend(s: seq<bool>, t: seq<bool>)
    ensures Odd(s + t) == (Odd(s) != Odd(t))
  {
    if s == [] {
      assert s + t == t;
    } else {
      assert (s + t)[1..] == s[1..] + t;
      OddAppend(s[1..], t);
    }
  }

  lemma OddMix(s: seq<bool>, t: seq<bool>)
    requires |s| == |t|
    ensures Odd(Mix(XorBit, s, t)) == (Odd(s) != Odd(t))
  {
    if s != [] {
      OddMix(s[1..], t[1..]);
      assert Mix(XorBit, s, t)[1..] == Mix(XorBit, s[1..], t[1..]);
    }
  }

  lemma OddFour(s: seq<bool>)
    requires |s| == 4
    ensures Odd(s) == (s[0] != (s[1] != (s[2] != s[3])))
  {
    assert s == [s[0]] + ([s[1]] + ([s[2]] + [s[3]]));
    OddAppend([s[0]], [s[1]] + ([s[2]] + [s[3]]));
    OddAppend([s[1]], [s[2]] + [s[3]]);
    OddAppend([s[2]], [s[3]]);
  }

  lemma WordBitsLinear(x: bv16, y: bv16, n: nat)
    ensures WordBits(Xor(x, y), n) == Mix(XorBit, WordBits(x, n), WordBits(y, n))
  {
    EmitLinear(Low, Half, Xor, XorBit, x, y, n);
  }

  lemma Generator()
    ensures Odd(WordBits(0x8408, 16))
  {
    HalfEight(0x8408);
    EmitAppend(Low, Half, 0x8408, 8, 8);
    GeneratorBytes();
    OddEight(WordBits(0x8408, 8));
    OddEight(WordBits(0x84, 8));
    OddAppend(WordBits(0x8408, 8), WordBits(0x84, 8));
  }

  lemma OddEight(s: seq<bool>)
    requires |s| == 8
    ensures Odd(s) == ((s[0] != (s[1] != (s[2] != s[3]))) != (s[4] != (s[5] != (s[6] != s[7]))))
  {
    assert s == s[..4] + s[4..];
    OddAppend(s[..4], s[4..]);
    OddFour(s[..4]);
    OddFour(s[4..]);
  }

  /** Bits 3, 10 and 15: the generator without its leading term. */
  lemma GeneratorBytes()
    ensures WordBits(0x8408, 8) == [false, false, false, true, false, false, false, false]
    ensures WordBits(0x84, 8) == [false, false, true, false, false, false, false, true]
  {
    EmitEight(Low, Half, 0x8408);
    EmitEight(Low, Half, 0x84);
  }

  lemma FifteenHalves(x: bv16)
    ensures Iterate(Half, Half(x), 15) == 0
  {
    IterateAdd(Half, x, 8, 8);
    HalfEight(x);
    HalfEight(High(x));
    assert (x >> 8) >> 8 == 0;
  }

  lemma HalfBits(x: bv16)
    ensures WordBits(Half(x), 16) == WordBits(x, 16)[1..] + [false]
  {
    FifteenHalves(x);
    EmitAppend(Low, Half, Half(x), 15, 1);
  }

  lemma HalfParity(x: bv16)
    ensures Odd(WordBits(Half(x), 16)) == (Odd(WordBits(x, 16)) != Low(x))
  {
    HalfBits(x);
    OddAppend(WordBits(x, 16)[1..], [false]);
    assert WordBits(x, 16)[0] == Low(x);
  }

  /** x + 1 divides the generator: a division step keeps the parity of the register. */
  lemma ShiftParity(x: bv16)
    ensures Odd(WordBits(Shift(x), 16)) == Odd(WordBits(x, 16))
  {
    var taps: bv16 := if Low(x) then 0x8408 else 0;
    DivisionStep(x);
    assert Shift(x) == Xor(Half(x), taps);
    WordBitsLinear(Half(x), taps, 16);
    OddMix(WordBits(Half(x), 16), WordBits(taps, 16));
    HalfParity(x);
    Generator();
    ZeroWord(16);
  }

  lemma ZeroWord(n: nat)
    ensures WordBits(0, n) == Zeros(n) && !Odd(Zeros(n))
  {
    if n > 0 {
      ZeroWord(n - 1);
      assert Zeros(n) == [false] + Zeros(n - 1);
    }
  }

  lemma BitParity(b: bool)
    ensures Odd(WordBits(Bit(b), 16)) == b
  {
    ZeroWord(15);
    ZeroWord(16);
    if b {
      assert WordBits(1, 16) == [Low(1)] + WordBits(Half(1), 15);
    }
  }

  lemma FeedParity(c: bv16, b: bool)
    ensures Odd(WordBits(Feed(c, b), 16)) == (Odd(WordBits(c, 16)) != b)
  {
    ShiftParity(Xor(c, Bit(b)));
    WordBitsLinear(c, Bit(b), 16);
    OddMix(WordBits(c, 16), WordBits(Bit(b), 16));
    BitParity(b);
  }

  /** The parity of the register is the parity of everything divided so far. */
  lemma {:induction false} ParityLaw(c: bv16, s: seq<bool>)
    ensures Odd(WordBits(Divide(c, s), 16)) == (Odd(WordBits(c, 16)) != Odd(s))
    decreases |s|
  {
    if s != [] {
      FeedParity(c, s[0]);
      ParityLaw(Feed(c, s[0]), s[1..]);
    }
  }

  /** Any odd number of flipped bits leaves a non-zero remainder. */
  lemma OddErrors(e: seq<bool>)
    requires Count(e) % 2 == 1
    ensures Divide(0, e) != 0
  {
    OddIsOddCount(e);
    ParityLaw(0, e);
    ZeroWord(16);
  }

  // ------------------------------------------------------------------ bursts

  /** Shifts one bit in from the top. */
  function PushTop(w: bv16, b: bool): bv16 {
    Xor(Half(w), if b then 0x8000 else 0)
  }

  function WordOf(s: seq<bool>): bv16 {
    Fold(PushTop, 0, s)
  }

  lemma TopBit()
    ensures WordBits(0x8000, 16) == Zeros(15) + [true]
  {
    HalfEight(0x8000);
    EmitAppend(Low, Half, 0x8000, 8, 8);
    TopBytes();
  }

  lemma TopBytes()
    ensures WordBits(0x8000, 8) == Zeros(8)
    ensures WordBits(0x80, 8) == Zeros(7) + [true]
  {
    EmitEight(Low, Half, 0x8000);
    EmitEight(Low, Half, 0x80);
  }

  function Bits16(w: bv16): seq<bool> {
    WordBits(w, 16)
  }

  lemma MixLast(s: seq<bool>, b: bool)
    ensures Mix(XorBit, s + [false], Zeros(|s|) + [b]) == s + [b]
  {
    var m := Mix(XorBit, s + [false], Zeros(|s|) + [b]);
    forall i | 0 <= i <= |s| ensures m[i] == (s + [b])[i] {
      assert m[i] == XorBit((s + [false])[i], (Zeros(|s|) + [b])[i]);
    }
  }

  lemma PushTopBits(w: bv16, b: bool)
    ensures Bits16(PushTop(w, b)) == Bits16(w)[1..] + [b]
  {
    var top: bv16 := if b then 0x8000 else 0;
    HalfBits(w);
    WordBitsLinear(Half(w), top, 16);
    TopBit();
    ZeroWord(16);
    assert WordBits(top, 16) == Zeros(15) + [b];
    MixLast(Bits16(w)[1..], b);
  }

  lemma PushTopPushes()
    ensures Pushes(Bits16, PushTop, 16)
  {
    forall w, b ensures Bits16(PushTop(w, b)) == Bits16(w)[1..] + [b] {
      PushTopBits(w, b);
    }
  }

  lemma WordOfBits(s: seq<bool>)
    requires |s| == 16
    ensures Bits16(WordOf(s)) == s
  {
    PushTopPushes();
    ShiftRegister(Bits16, PushTop, 16, 0, s);
  }

  lemma SixteenHalves(w: bv16)
    ensures Iterate(Half, w, 16) == 0
  {
    IterateAdd(Half, w, 8, 8);
    HalfEight(w);
    HalfEight(High(w));
    assert (w >> 8) >> 8 == 0;
  }

  /** Sixteen bits divided from 0 leave what stepping their word leaves. */
  lemma SixteenBits(w: bv16)
    ensures Divide(0, Bits16(w)) == Divide(w, Zeros(16))
  {
    var s := Bits16(w);
    FeedOwnBits(w, 16);
    SixteenHalves(w);
    DivideLinear(0, w, s, s);
    MixSelf(s);
    XorNothing(w);
    XorNothing(Divide(0, s));
  }

  lemma SixteenBitErrors(s: seq<bool>)
    requires |s| == 16 && true in s
    ensures Divide(0, s) != 0
  {
    WordOfBits(s);
    SixteenBits(WordOf(s));
    ZeroStaysZero(WordOf(s), 16);
    ZeroWord(16);
  }

  /** Leading and trailing zeros do not matter to whether an error is seen. */
  lemma ZerosAround(before: nat, e: seq<bool>, after: nat)
    ensures Divide(0, Zeros(before) + e + Zeros(after)) == 0 <==> Divide(0, e) == 0
  {
    ZeroStaysZero(0, before);
    FoldAppend(Feed, 0, Zeros(before) + e, Zeros(after));
    FoldAppend(Feed, 0, Zeros(before), e);
    ZeroStaysZero(Divide(0, e), after);
  }

  /** Any non-zero pattern inside sixteen consecutive bits leaves a non-zero remainder. */
  lemma BurstErrors(before: nat, burst: seq<bool>, after: nat)
    requires |burst| <= 16 && true in burst
    ensures Divide(0, Zeros(before) + burst + Zeros(after)) != 0
  {
    var pad := Zeros(16 - |burst|);
    SixteenBitErrors(burst + pad);
    FoldAppend(Feed, 0, burst, pad);
    ZeroStaysZero(Divide(0, burst), 16 - |burst|);
    ZerosAround(before, burst, after);
  }
}
