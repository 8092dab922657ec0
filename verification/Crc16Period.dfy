/** Two flipped bits escape the CRC-16 exactly when they lie a multiple of 32767 bits apart. */
module Crc16Period {
  import opened Folds
  import opened Crc16Spec
  import opened Crc16Detection
  import opened Periods

  const ORDER := 32767

  /** The register `n` steps after 1. */
  function Steps(n: nat): bv16 {
    Iterate(Shift, 1, n)
  }

  /** The value of an input bit when `w` stands in the place of 1. */
  function Scale(w: bv16): bool -> bv16 {
    (b: bool) => if b then w else 0
  }

  function Product(w: bv16, s: seq<bool>): bv16 {
    Horner(Shift, Xor, Scale(w), 0, s)
  }

  lemma ShiftAdditive()
    ensures Additive(Shift, Xor, Xor)
  {
    forall x, y ensures Shift(Xor(x, y)) == Xor(Shift(x), Shift(y)) {
      ShiftLinear(x, y);
    }
  }

  lemma StepsZero(n: nat)
    ensures Iterate(Shift, 0, n) == 0
  {
    ZeroStaysZero(0, n);
    DivideZeros(0, n);
  }

  lemma {:induction false} DivideIsHorner(c: bv16, s: seq<bool>)
    ensures Divide(c, s) == Horner(Shift, Xor, Bit, c, s)
    decreases |s|
  {
    if s != [] {
      DivideIsHorner(Feed(c, s[0]), s[1..]);
    }
  }

  lemma ScaledBits(n: nat)
    ensures forall b :: Scale(Steps(n))(b) == Iterate(Shift, Bit(b), n)
  {
    StepsZero(n);
    forall b ensures Scale(Steps(n))(b) == Iterate(Shift, Bit(b), n) {
      assert b || !b;
    }
  }

  lemma DivideThenSteps(s: seq<bool>, n: nat)
    ensures Iterate(Shift, Divide(0, s), n) == Product(Steps(n), s)
  {
    ShiftAdditive();
    ScaledBits(n);
    DivideIsHorner(0, s);
    StepsZero(n);
    HornerThenIterate(Shift, Xor, Bit, Scale(Steps(n)), 0, s, n);
  }

  lemma SixteenSteps(v: bv16)
    ensures Iterate(Shift, v, 16) == Divide(0, Bits16(v))
  {
    SixteenBits(v);
    DivideZeros(v, 16);
  }

  /** The exponent law: steps add up, sixteen more for each product. */
  lemma StepsProduct(m: nat, n: nat)
    ensures Steps(m + 16 + n) == Product(Steps(n), Bits16(Steps(m)))
  {
    SixteenSteps(Steps(m));
    DivideThenSteps(Bits16(Steps(m)), n);
    IterateThrice(Shift, 1, m, 16, n);
  }

  // ------------------------------------------------ evaluating a product

  function Term(w: bv16, c: bv16, b: bool): bv16 {
    Shift(Xor(c, if b then w else 0))
  }

  function Nibble(w: bv16, c: bv16, v: bv16): bv16 {
    Term(w, Term(w, Term(w, Term(w, c, Low(v)), Low(v >> 1)), Low(v >> 2)), Low(v >> 3))
  }

  function Quarter(v: bv16): bv16 { v >> 4 }

  function TwoNibbles(w: bv16, c: bv16, v: bv16): bv16 {
    Nibble(w, Nibble(w, c, v), Quarter(v))
  }

  function Multiply(w: bv16, v: bv16): bv16 {
    TwoNibbles(w, TwoNibbles(w, 0, v), Quarter(Quarter(v)))
  }

  lemma FourBits(v: bv16)
    ensures WordBits(v, 4) == [Low(v), Low(v >> 1), Low(v >> 2), Low(v >> 3)]
    ensures Iterate(Half, v, 4) == Quarter(v)
  {
    EmitFour(Low, Half, v);
    Halves(v);
  }

  lemma Halves(v: bv16)
    ensures Half(v) == v >> 1 && Half(Half(v)) == v >> 2 && Half(Half(Half(v))) == v >> 3
    ensures Half(Half(Half(Half(v)))) == Quarter(v)
  {
  }

  lemma NibbleIsHorner(w: bv16, c: bv16, v: bv16)
    ensures Horner(Shift, Xor, Scale(w), c, WordBits(v, 4)) == Nibble(w, c, v)
  {
    FourBits(v);
    HornerFour(Shift, Xor, Scale(w), c, Low(v), Low(v >> 1), Low(v >> 2), Low(v >> 3));
  }

  lemma NibbleSteps(w: bv16, c: bv16, v: bv16, n: nat)
    ensures Horner(Shift, Xor, Scale(w), c, WordBits(v, 4 + n)) ==
            Horner(Shift, Xor, Scale(w), Nibble(w, c, v), WordBits(Quarter(v), n))
  {
    EmitAppend(Low, Half, v, 4, n);
    FourBits(v);
    HornerAppend(Shift, Xor, Scale(w), c, WordBits(v, 4), WordBits(Quarter(v), n));
    NibbleIsHorner(w, c, v);
  }

  lemma TwoNibblesSteps(w: bv16, c: bv16, v: bv16, n: nat)
    ensures Horner(Shift, Xor, Scale(w), c, WordBits(v, 8 + n)) ==
            Horner(Shift, Xor, Scale(w), TwoNibbles(w, c, v), WordBits(Quarter(Quarter(v)), n))
  {
    NibbleSteps(w, c, v, 4 + n);
    NibbleSteps(w, Nibble(w, c, v), Quarter(v), n);
  }

  lemma LastTwoNibbles(w: bv16, c: bv16, v: bv16)
    ensures Horner(Shift, Xor, Scale(w), c, WordBits(v, 8)) == TwoNibbles(w, c, v)
  {
    TwoNibblesSteps(w, c, v, 0);
  }

  lemma ProductByHalves(w: bv16, v: bv16, c: bv16, u: bv16)
    requires c == TwoNibbles(w, 0, v) && u == Quarter(Quarter(v))
    ensures Product(w, Bits16(v)) == TwoNibbles(w, c, u)
  {
    TwoNibblesSteps(w, 0, v, 8);
    LastTwoNibbles(w, c, u);
  }

  lemma ProductIsMultiply(w: bv16, v: bv16)
    ensures Product(w, Bits16(v)) == Multiply(w, v)
  {
    ProductByHalves(w, v, TwoNibbles(w, 0, v), Quarter(Quarter(v)));
  }

  lemma Square(n: nat, x: bv16, y: bv16)
    requires Steps(n) == x && Multiply(x, x) == y
    ensures Steps(2 * n + 16) == y
  {
    StepsProduct(n, n);
    ProductIsMultiply(x, x);
  }

  lemma Next(n: nat, x: bv16, y: bv16)
    requires Steps(n) == x && Shift(x) == y
    ensures Steps(n + 1) == y
  {
    IterateAround(Shift, 1, n);
  }

  // The chains below double the exponent (2 n + 16 for n) and step once where it is odd.

  lemma StepsTo13()
    ensures Steps(13) == 0xcec0
  {
    Next(0, 0x1, 0x8408);
    Next(1, 0x8408, 0x4204);
    Next(2, 0x4204, 0x2102);
    Next(3, 0x2102, 0x1081);
    Next(4, 0x1081, 0x8c48);
    Next(5, 0x8c48, 0x4624);
    Next(6, 0x4624, 0x2312);
    Next(7, 0x2312, 0x1189);
    Next(8, 0x1189, 0x8ccc);
    Next(9, 0x8ccc, 0x4666);
    Next(10, 0x4666, 0x2333);
    Next(11, 0x2333, 0x9591);
    Next(12, 0x9591, 0xcec0);
  }

  lemma StepsTo16()
    ensures Steps(16) == 0x19d8
  {
    StepsTo13();
    Next(13, 0xcec0, 0x6760);
    Next(14, 0x6760, 0x33b0);
    Next(15, 0x33b0, 0x19d8);
  }

  lemma StepsTo496()
    ensures Steps(496) == 0x7f90
  {
    StepsTo16();
    Square(16, 0x19d8, 0x42b);
    Square(48, 0x42b, 0x7eea);
    Square(112, 0x7eea, 0x20f3);
    Square(240, 0x20f3, 0x7f90);
  }

  lemma StepsTo32767()
    ensures Steps(32767) == 0x1
  {
    StepsTo496();
    Square(496, 0x7f90, 0x46d8);
    Square(1008, 0x46d8, 0x157e);
    Square(2032, 0x157e, 0xf2aa);
    Next(4080, 0xf2aa, 0x7955);
    Square(4081, 0x7955, 0x9800);
    Next(8178, 0x9800, 0x4c00);
    Square(8179, 0x4c00, 0x1050);
    Next(16374, 0x1050, 0x828);
    Square(16375, 0x828, 0x2);
    Next(32766, 0x2, 0x1);
  }

  lemma StepsTo4681()
    ensures Steps(4681) == 0x69b9
  {
    Next(0, 0x1, 0x8408);
    Next(1, 0x8408, 0x4204);
    Square(2, 0x4204, 0x8595);
    Square(20, 0x8595, 0x9fd5);
    Next(56, 0x9fd5, 0xcbe2);
    Square(57, 0xcbe2, 0x2384);
    Square(130, 0x2384, 0xd390);
    Next(276, 0xd390, 0x69c8);
    Square(277, 0x69c8, 0xa2);
    Next(570, 0xa2, 0x51);
    Square(571, 0x51, 0x18d0);
    Square(1158, 0x18d0, 0x424c);
    Square(2332, 0x424c, 0xd372);
    Next(4680, 0xd372, 0x69b9);
  }

  lemma StepsTo1057()
    ensures Steps(1057) == 0xcb18
  {
    StepsTo16();
    Next(16, 0x19d8, 0xcec);
    Square(17, 0xcec, 0xc706);
    Next(50, 0xc706, 0x6383);
    Square(51, 0x6383, 0x28b9);
    Square(118, 0x28b9, 0x4e57);
    Square(252, 0x4e57, 0xfa75);
    Square(520, 0xfa75, 0x9e21);
    Next(1056, 0x9e21, 0xcb18);
  }

  lemma StepsTo217()
    ensures Steps(217) == 0x2924
  {
    StepsTo13();
    Square(13, 0xcec0, 0x2d1);
    Square(42, 0x2d1, 0x5ad0);
    Square(100, 0x5ad0, 0x5248);
    Next(216, 0x5248, 0x2924);
  }

  // --------------------------------------------------------- the order is 32767

  /** 32767 = 7 * 31 * 151: a proper divisor divides 32767/7, 32767/31 or 32767/151. */
  lemma ProperDivisors(g: nat, q: nat) returns (k: nat)
    requires g * q == ORDER && g < ORDER
    ensures g * k == 4681 || g * k == 1057 || g * k == 217
  {
    if q % 7 == 0 {
      k := q / 7;
      assert g * (7 * k) == 7 * (g * k);
    } else {
      var g1 := Seventh(g, q);
      assert 7 * (g1 * q) == (7 * g1) * q;
      if q % 31 == 0 {
        k := q / 31;
        assert g1 * (31 * k) == 31 * (g1 * k);
        assert (7 * g1) * k == 7 * (g1 * k);
      } else {
        var g2 := ThirtyFirst(g1, q);
        assert 31 * (g2 * q) == (31 * g2) * q;
        CofactorOf151(g2, q);
        k := 1;
      }
    }
  }

  // Euclid's lemma, from the periods of repeated addition modulo p.

  function AddMod(g: nat, p: nat): nat -> nat
    requires p > 0
  {
    (x: nat) => (x + g) % p
  }

  lemma ModStep(x: nat, g: nat, t: nat, p: nat)
    requires p == 7 || p == 31
    ensures ((x + g) % p + t) % p == (x + (g + t)) % p
  {
    if p == 7 {
      assert ((x + g) % 7 + t) % 7 == (x + (g + t)) % 7;
    } else {
      assert ((x + g) % 31 + t) % 31 == (x + (g + t)) % 31;
    }
  }

  lemma {:induction false} SumMod(g: nat, p: nat, x: nat, n: nat)
    requires (p == 7 || p == 31) && x < p
    ensures Iterate(AddMod(g, p), x, n) == (x + g * n) % p
    decreases n
  {
    if n > 0 {
      SumMod(g, p, (x + g) % p, n - 1);
      ModStep(x, g, g * (n - 1), p);
      assert g * n == g + g * (n - 1);
    }
  }

  lemma PrimeMultiple(i: nat, p: nat)
    requires p == 7 || p == 31
    ensures (p * i) % p == 0 && (i * p) % p == 0
  {
    if p == 7 {
      assert (7 * i) % 7 == 0;
    } else {
      assert (31 * i) % 31 == 0;
    }
  }

  lemma Euclid(g: nat, q: nat, p: nat)
    requires p == 7 || p == 31
    requires q > 0 && (g * q) % p == 0
    ensures g % p == 0 || q % p == 0
  {
    SumMod(g, p, 0, q);
    SumMod(g, p, 0, p);
    PrimeMultiple(g, p);
    var d, i, j := PeriodDivisor(AddMod(g, p), 0, q, p);
    SumMod(g, p, 0, d);
    CommonDivisor(g, q, p, d, i, j);
  }

  lemma CommonDivisor(g: nat, q: nat, p: nat, d: nat, i: nat, j: nat)
    requires p == 7 || p == 31
    requires q == d * i && p == d * j && (g * d) % p == 0
    ensures g % p == 0 || q % p == 0
  {
    if d != 1 {
      PrimeDivisor(d, j, p);
      PrimeMultiple(i, p);
    }
  }

  lemma PrimeDivisor(d: nat, j: nat, p: nat)
    requires p == 7 || p == 31
    requires d * j == p && d != 1
    ensures d == p
  {
    assert j == 1;
  }

  lemma Seventh(g: nat, q: nat) returns (h: nat)
    requires g * q == 7 * 4681 && q % 7 != 0
    ensures g == 7 * h
  {
    Euclid(g, q, 7);
    h := g / 7;
  }

  lemma ThirtyFirst(g: nat, q: nat) returns (h: nat)
    requires g * q == 31 * 151 && q % 31 != 0
    ensures g == 31 * h
  {
    Euclid(g, q, 31);
    h := g / 31;
  }

  lemma CofactorOf151(g: nat, q: nat)
    requires g * q == 151 && q > 1
    ensures g == 1
  {
  }

  /** The order of the step: 1 comes back after 32767 steps and never earlier. */
  lemma OrderOfShift(d: nat)
    ensures Steps(d) == 1 <==> d % ORDER == 0
  {
    StepsTo32767();
    if d % ORDER == 0 {
      PeriodMultiple(Shift, 1, ORDER, d / ORDER);
      assert d == ORDER * (d / ORDER);
    } else if Steps(d) == 1 {
      PeriodRemainder(Shift, 1, d, ORDER);
      var g, i, j := PeriodDivisor(Shift, 1, d % ORDER, ORDER);
      DivisorBelow(g, i, d % ORDER);
      var k := ProperDivisors(g, j);
      PeriodMultiple(Shift, 1, g, k);
      StepsTo4681();
      StepsTo1057();
      StepsTo217();
      assert false;
    }
  }

  lemma DivisorBelow(g: nat, i: nat, n: nat)
    requires n == g * i && n > 0
    ensures g <= n
  {
  }

  /** Two flipped bits `d` positions apart, anywhere in a frame of any length, leave a zero remainder
      exactly when `d` is a multiple of 32767. */
  lemma TwoBitErrors(before: nat, d: nat, after: nat)
    requires d > 0
    ensures Divide(0, Zeros(before) + ([true] + Zeros(d - 1) + [true]) + Zeros(after)) == 0 <==> d % ORDER == 0
  {
    ZerosAround(before, [true] + Zeros(d - 1) + [true], after);
    TwoBits(d);
    OrderOfShift(d);
  }

  lemma TwoBits(d: nat)
    requires d > 0
    ensures Divide(0, [true] + Zeros(d - 1) + [true]) == 0 <==> Steps(d) == 1
  {
    FoldAppend(Feed, 0, [true] + Zeros(d - 1), [true]);
    FoldAppend(Feed, 0, [true], Zeros(d - 1));
    XorNothing(1);
    assert Feed(0, true) == Shift(1);
    DivideZeros(Shift(1), d - 1);
    LastBit(Steps(d));
  }

  lemma LastBit(x: bv16)
    ensures Divide(x, [true]) == 0 <==> x == 1
  {
    assert Divide(x, [true]) == Shift(Xor(x, 1));
    ShiftZero(Xor(x, 1));
    XorOne(x);
  }

  lemma XorOne(x: bv16)
    ensures Xor(x, 1) == 0 <==> x == 1
  {
  }
}
