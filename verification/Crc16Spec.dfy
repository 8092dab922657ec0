/** The specification of the CRC-16: bit-at-a-time division by x^16 + x^12 + x^5 + 1, LSB first
    (Appendix C.2 of RFC 1662, without the final complement). */
module Crc16Spec {
  import opened Folds

  type byte = bv8

  const INIT: bv16 := 0xffff

  /** One step of the division: when the coefficient leaving at bit 0 is 1, the generator 0x8408 is subtracted.
      Written without a branch, so that it is visibly linear; DivisionStep gives the branching form. */
  function Shift(x: bv16): bv16 {
    (x >> 1) ^ ((x & 1) << 15) ^ ((x & 1) << 10) ^ ((x & 1) << 3)
  }

  function Bit(b: bool): bv16 {
    if b then 1 else 0
  }

  function Feed(c: bv16, b: bool): bv16 {
    Shift(Xor(c, Bit(b)))
  }

  /** The register after dividing a bit string, first bit first, starting from `c`. */
  function Divide(c: bv16, bits: seq<bool>): bv16 {
    Fold(Feed, c, bits)
  }

  /** The lowest `n` bits of a word in transmission order, least significant first. */
  function WordBits(w: bv16, n: nat): (s: seq<bool>)
    ensures |s| == n
  {
    Emit(Low, Half, w, n)
  }

  function ByteBits(b: byte): seq<bool> {
    WordBits(Word(b), 8)
  }

  function Bits(s: seq<byte>): seq<bool> {
    Flatten(ByteBits, s)
  }

  // Named operations: the lemmas about long folds speak of these and not of bit-vector expressions.
  function Xor(x: bv16, y: bv16): bv16 { x ^ y }
  function Half(x: bv16): bv16 { x >> 1 }
  predicate Low(x: bv16) { x & 1 == 1 }
  function High(x: bv16): bv16 { x >> 8 }
  function LowByte(x: bv16): byte { (x & 0xff) as bv8 }
  function Word(b: byte): bv16 { b as bv16 }

  lemma DivisionStep(x: bv16)
    ensures Shift(x) == if x & 1 == 1 then (x >> 1) ^ 0x8408 else x >> 1
  {
    assert x & 1 == 0 || x & 1 == 1;
    if x & 1 == 0 {
      assert ((x & 1) << 15) ^ ((x & 1) << 10) ^ ((x & 1) << 3) == 0;
    } else {
      assert ((x & 1) << 15) ^ ((x & 1) << 10) ^ ((x & 1) << 3) == 0x8408;
    }
  }

  /** The division step loses no information: only 0 goes to 0. */
  lemma ShiftZero(x: bv16)
    ensures Shift(x) == 0 <==> x == 0
  {
  }

  lemma ShiftLinear(x: bv16, y: bv16)
    ensures Shift(Xor(x, y)) == Xor(Shift(x), Shift(y))
  {
  }

  lemma BitLinear(p: bool, q: bool)
    ensures Bit(XorBit(p, q)) == Xor(Bit(p), Bit(q))
  {
  }

  lemma XorAssociative(a: bv16, b: bv16, c: bv16)
    ensures Xor(Xor(a, b), c) == Xor(a, Xor(b, c))
  {
  }

  lemma FeedIsLinear()
    ensures Linear(Feed, Xor, XorBit)
  {
    forall a, b, c {
      XorAssociative(a, b, c);
    }
    IsMedial(Xor);
    forall x, y {
      ShiftLinear(x, y);
    }
    forall p, q {
      BitLinear(p, q);
    }
    StepIsLinear(Feed, Shift, Xor, Bit);
  }

  /** Division is linear over GF(2), in the register and in the input together. */
  lemma DivideLinear(c: bv16, d: bv16, s: seq<bool>, t: seq<bool>)
    requires |s| == |t|
    ensures Divide(Xor(c, d), Mix(XorBit, s, t)) == Xor(Divide(c, s), Divide(d, t))
  {
    FeedIsLinear();
    Superposition(Feed, Xor, XorBit, c, d, s, t);
  }

  lemma XorZero(x: bv16, y: bv16)
    ensures Xor(x, y) == 0 <==> x == y
  {
    if Xor(x, y) == 0 {
      assert (x ^ y) ^ y == x;
    }
  }

  lemma XorNothing(x: bv16)
    ensures Xor(x, 0) == x && Xor(0, x) == x
  {
  }

  lemma FeedNothing(x: bv16)
    ensures Feed(x, false) == Shift(x)
  {
    XorNothing(x);
  }

  /** Dividing zeros is stepping the register. */
  lemma DivideZeros(x: bv16, n: nat)
    ensures Divide(x, Zeros(n)) == Iterate(Shift, x, n)
  {
    forall y {
      FeedNothing(y);
    }
    FoldZeros(Feed, Shift, x, n);
  }

  /** Stepping never destroys a non-zero register. */
  lemma ZeroStaysZero(x: bv16, n: nat)
    ensures Divide(x, Zeros(n)) == 0 <==> x == 0
  {
    DivideZeros(x, n);
    forall y {
      ShiftZero(y);
    }
    IterateKeeps(Shift, 0, x, n);
  }

  lemma FeedOwnBit(w: bv16)
    ensures Feed(w, Low(w)) == Half(w)
  {
    ClearedLowBit(w);
  }

  lemma ClearedLowBit(w: bv16)
    ensures Shift(Xor(w, w & 1)) == Half(w)
  {
  }

  lemma FeedOwnBits(w: bv16, n: nat)
    ensures Divide(w, WordBits(w, n)) == Iterate(Half, w, n)
  {
    forall v {
      FeedOwnBit(v);
    }
    FoldOwn(Feed, Low, Half, w, n);
  }

  lemma HalfEight(w: bv16)
    ensures Iterate(Half, w, 8) == High(w)
  {
    IterateEight(Half, w);
    EightHalves(w);
  }

  lemma EightHalves(w: bv16)
    ensures Half(Half(Half(Half(Half(Half(Half(Half(w)))))))) == High(w)
  {
  }
}
