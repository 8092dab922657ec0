/** The packed sentry command word, from cmdSentryCallback in standard_robot_pp_ros2/src/standard_robot_pp_ros2.cpp.
    Unsigned integers are natural numbers and the bit operations act on their binary digits. */
module SentryCommand {

  // ------------------------------------------------ binary digits

  function Pow2(k: nat): (p: nat)
    ensures p > 0
  {
    if k == 0 then 1 else 2 * Pow2(k - 1)
  }

  function Or(a: nat, b: nat): nat {
    if a == 0 && b == 0 then 0 else 2 * Or(a / 2, b / 2) + if a % 2 == 1 || b % 2 == 1 then 1 else 0
  }

  function And(a: nat, b: nat): nat {
    if a == 0 || b == 0 then 0 else 2 * And(a / 2, b / 2) + if a % 2 == 1 && b % 2 == 1 then 1 else 0
  }

  function Shl(a: nat, k: nat): nat {
    if k == 0 then a else 2 * Shl(a, k - 1)
  }

  function Shr(a: nat, k: nat): nat {
    if k == 0 then a else Shr(a / 2, k - 1)
  }

  /** The lowest `k` digits. */
  function Low(a: nat, k: nat): (r: nat)
    ensures r < Pow2(k)
  {
    if k == 0 then 0 else 2 * Low(a / 2, k - 1) + a % 2
  }

  /** The digits a receiver reads from position `at` on. */
  function Extract(word: nat, at: nat, width: nat): nat {
    And(Shr(word, at), Pow2(width) - 1)
  }

  lemma {:induction false} AndMask(a: nat, k: nat)
    ensures And(a, Pow2(k) - 1) == Low(a, k)
    decreases k
  {
    if k > 0 {
      AndMask(a / 2, k - 1);
      assert (Pow2(k) - 1) / 2 == Pow2(k - 1) - 1;
      LowZero(k);
    }
  }

  lemma {:induction false} LowZero(k: nat)
    ensures Low(0, k) == 0
  {
    if k > 0 {
      LowZero(k - 1);
    }
  }

  lemma {:induction false} OrZero(b: nat)
    ensures Or(0, b) == b
  {
    if b > 0 {
      OrZero(b / 2);
    }
  }

  /** Digits above all of `a` are put in without touching it. */
  lemma {:induction false} OrAbove(a: nat, b: nat, k: nat)
    requires a < Pow2(k)
    ensures Or(a, Shl(b, k)) == a + Shl(b, k)
    decreases k
  {
    if k == 0 {
      OrZero(b);
    } else {
      OrAbove(a / 2, b, k - 1);
    }
  }

  lemma {:induction false} ShrAbove(a: nat, b: nat, k: nat)
    requires a < Pow2(k)
    ensures Shr(a + Shl(b, k), k) == b
    decreases k
  {
    if k > 0 {
      ShrAbove(a / 2, b, k - 1);
      assert (a + Shl(b, k)) / 2 == a / 2 + Shl(b, k - 1);
    }
  }

  lemma {:induction false} LowAbove(a: nat, b: nat, k: nat)
    requires a < Pow2(k)
    ensures Low(a + Shl(b, k), k) == a
    decreases k
  {
    if k > 0 {
      LowAbove(a / 2, b, k - 1);
      assert (a + Shl(b, k)) / 2 == a / 2 + Shl(b, k - 1);
    }
  }

  lemma {:induction false} ShlShl(a: nat, j: nat, k: nat)
    ensures Shl(Shl(a, j), k) == Shl(a, j + k)
  {
    if k > 0 {
      ShlShl(a, j, k - 1);
    }
  }

  lemma {:induction false} ShrShr(a: nat, j: nat, k: nat)
    ensures Shr(Shr(a, j), k) == Shr(a, j + k)
    decreases j
  {
    if j > 0 {
      ShrShr(a / 2, j - 1, k);
    }
  }

  lemma {:induction false} ShlSum(a: nat, b: nat, k: nat)
    ensures Shl(a + b, k) == Shl(a, k) + Shl(b, k)
  {
    if k > 0 {
      ShlSum(a, b, k - 1);
    }
  }

  lemma {:induction false} LowAndRest(a: nat, k: nat)
    ensures a == Low(a, k) + Shl(Shr(a, k), k)
    decreases k
  {
    if k > 0 {
      LowAndRest(a / 2, k - 1);
    }
  }

  lemma {:induction false} ShlIsTimes(a: nat, k: nat)
    ensures Shl(a, k) == Pow2(k) * a
  {
    if k > 0 {
      ShlIsTimes(a, k - 1);
      assert 2 * (Pow2(k - 1) * a) == (2 * Pow2(k - 1)) * a;
    }
  }

  lemma SmallPowers()
    ensures Pow2(1) == 2 && Pow2(2) == 4 && Pow2(4) == 16 && Pow2(11) == 2048
  {
    assert Pow2(4) == 2 * Pow2(3) && Pow2(8) == 2 * Pow2(7);
  }

  lemma Remainder(a: nat, low: nat, rest: nat, p: nat)
    requires p in {16, 2048} && a == low + p * rest && low < p
    ensures low == a % p
  {
    if p == 16 {
      assert low == a % 16;
    }
  }

  /** The lowest four and eleven digits are the remainders modulo 16 and 2048. */
  lemma LowIsRemainder(a: nat, k: nat)
    requires k in {4, 11}
    ensures Low(a, k) == a % if k == 4 then 16 else 2048
  {
    SmallPowers();
    LowAndRest(a, k);
    ShlIsTimes(Shr(a, k), k);
    Remainder(a, Low(a, k), Shr(a, k), Pow2(k));
  }

  lemma {:induction false} LowFits(a: nat, k: nat)
    ensures Low(a, k) == a <==> a < Pow2(k)
    decreases k
  {
    if k > 0 {
      LowFits(a / 2, k - 1);
    }
  }

  // ------------------------------------------------ words made of fields

  datatype Field = Field(value: nat, width: nat)

  function Width(fields: seq<Field>): nat {
    if fields == [] then 0 else fields[0].width + Width(fields[1..])
  }

  /** Every value has no more digits than its field. */
  ghost predicate Fit(fields: seq<Field>) {
    forall f | f in fields :: f.value < Pow2(f.width)
  }

  /** The fields side by side, the first one lowest. */
  function Layout(fields: seq<Field>): nat {
    if fields == [] then 0 else fields[0].value + Shl(Layout(fields[1..]), fields[0].width)
  }

  lemma {:induction false} PowShl(k: nat, j: nat)
    ensures Shl(Pow2(k), j) == Pow2(k + j)
  {
    if j > 0 {
      PowShl(k, j - 1);
    }
  }

  lemma {:induction false} ShlOrder(a: nat, b: nat, k: nat)
    requires a <= b
    ensures Shl(a, k) <= Shl(b, k)
  {
    if k > 0 {
      ShlOrder(a, b, k - 1);
    }
  }

  lemma {:induction false} LayoutFits(fields: seq<Field>)
    requires Fit(fields)
    ensures Layout(fields) < Pow2(Width(fields))
  {
    if fields != [] {
      var w := fields[0].width;
      LayoutFits(fields[1..]);
      ShlOrder(Layout(fields[1..]) + 1, Pow2(Width(fields[1..])), w);
      ShlSum(Layout(fields[1..]), 1, w);
      PowShl(Width(fields[1..]), w);
      PowShl(0, w);
    }
  }

  lemma {:induction false} LayoutMore(fields: seq<Field>, f: Field)
    ensures Layout(fields + [f]) == Layout(fields) + Shl(f.value, Width(fields))
    ensures Width(fields + [f]) == Width(fields) + f.width
  {
    if fields == [] {
      assert fields + [f] == [f] && [f][1..] == [];
      assert Layout([]) == 0 && Width([]) == 0;
      ShlZero(f.width);
    } else {
      LayoutMore(fields[1..], f);
      assert (fields + [f])[1..] == fields[1..] + [f];
      ShlSum(Layout(fields[1..]), Shl(f.value, Width(fields[1..])), fields[0].width);
      ShlShl(f.value, Width(fields[1..]), fields[0].width);
    }
  }

  lemma {:induction false} ShlZero(k: nat)
    ensures Shl(0, k) == 0
  {
    if k > 0 {
      ShlZero(k - 1);
    }
  }

  /** OR-ing a field in above the others is the same as laying it beside them. */
  lemma OrField(fields: seq<Field>, f: Field)
    requires Fit(fields)
    ensures Or(Layout(fields), Shl(f.value, Width(fields))) == Layout(fields + [f])
  {
    LayoutFits(fields);
    OrAbove(Layout(fields), f.value, Width(fields));
    LayoutMore(fields, f);
  }

  /** Every field is read back from where the ones before it end: the fields do not overlap. */
  lemma {:induction false} FieldsReadBack(fields: seq<Field>, i: nat)
    requires Fit(fields) && i < |fields|
    ensures Extract(Layout(fields), Width(fields[..i]), fields[i].width) == fields[i].value
    decreases i
  {
    var w, rest := fields[0].width, Layout(fields[1..]);
    if i == 0 {
      AndMask(Layout(fields), w);
      LowAbove(fields[0].value, rest, w);
    } else {
      FieldsReadBack(fields[1..], i - 1);
      assert fields[1..][..i - 1] == fields[..i][1..];
      ShrAbove(fields[0].value, rest, w);
      ShrShr(Layout(fields), w, Width(fields[..i][1..]));
    }
  }

  // ------------------------------------------------ the sentry command

  /** The message; the counts are unsigned integers of 16 and 8 bits. */
  datatype SentryCmd = SentryCmd(
    confirmRespawn: bool,
    confirmPayRespawn: bool,
    projectileAllowance: nat,
    remoteProjectileRequests: nat,
    remoteHpRequests: nat,
    posture: nat,
    activateRune: bool)

  function Digit(b: bool): nat {
    if b then 1 else 0
  }

  /** Postures outside 1 to 3 fall back to 3. */
  function Posture(posture: nat): nat {
    if 1 <= posture <= 3 then posture else 3
  }

  /** The protocol's fields from bit 0 up, the last one reserved. */
  function Fields(msg: SentryCmd): seq<Field> {
    [Field(Digit(msg.confirmRespawn), 1),
     Field(Digit(msg.confirmPayRespawn), 1),
     Field(Low(msg.projectileAllowance, 11), 11),
     Field(Low(msg.remoteProjectileRequests, 4), 4),
     Field(Low(msg.remoteHpRequests, 4), 4),
     Field(Posture(msg.posture), 2),
     Field(Digit(msg.activateRune), 1),
     Field(0, 8)]
  }

  /** Where each field begins. */
  const OFFSETS: seq<nat> := [0, 1, 2, 13, 17, 21, 23, 24]

  lemma Offset(msg: SentryCmd, j: nat)
    requires j < 8
    ensures Width(Fields(msg)[..j]) == OFFSETS[j]
    decreases j
  {
    var fields := Fields(msg);
    if j > 0 {
      Offset(msg, j - 1);
      assert fields[..j] == fields[..j - 1] + [fields[j - 1]];
      LayoutMore(fields[..j - 1], fields[j - 1]);
    }
  }

  lemma FieldsFit(msg: SentryCmd)
    ensures Fit(Fields(msg))
  {
    assert Pow2(1) == 2 && Pow2(2) == 4;
  }

  /** The packed word. */
  function Word(msg: SentryCmd): nat {
    Layout(Fields(msg))
  }

  /** The word with the first `j` fields in place. */
  function Begun(msg: SentryCmd, j: nat): nat
    requires j <= 8
  {
    Layout(Fields(msg)[..j])
  }

  /** One OR of the packing puts the next field in place. */
  predicate Puts(msg: SentryCmd, j: nat, value: nat, mask: nat, at: nat)
    requires j < 8
  {
    Or(Begun(msg, j), Shl(And(value, mask), at)) == Begun(msg, j + 1)
  }

  lemma PutsField(msg: SentryCmd, j: nat, value: nat, width: nat, mask: nat)
    requires j < 8 && mask == Pow2(width) - 1 && Fields(msg)[j] == Field(Low(value, width), width)
    ensures Puts(msg, j, value, mask, OFFSETS[j])
  {
    var fields := Fields(msg);
    FieldsFit(msg);
    Offset(msg, j);
    AndMask(value, width);
    OrField(fields[..j], fields[j]);
    assert fields[..j + 1] == fields[..j] + [fields[j]];
  }

  lemma PutsRespawn(msg: SentryCmd)
    ensures Puts(msg, 0, Digit(msg.confirmRespawn), 0x1, 0)
  {
    LowFits(Digit(msg.confirmRespawn), 1);
    PutsField(msg, 0, Digit(msg.confirmRespawn), 1, 0x1);
  }

  lemma PutsPayRespawn(msg: SentryCmd)
    ensures Puts(msg, 1, Digit(msg.confirmPayRespawn), 0x1, 1)
  {
    LowFits(Digit(msg.confirmPayRespawn), 1);
    PutsField(msg, 1, Digit(msg.confirmPayRespawn), 1, 0x1);
  }

  lemma PutsProjectiles(msg: SentryCmd)
    ensures Puts(msg, 2, msg.projectileAllowance, 0x7FF, 2)
  {
    PutsField(msg, 2, msg.projectileAllowance, 11, 0x7FF);
  }

  lemma PutsRequests(msg: SentryCmd)
    ensures Puts(msg, 3, msg.remoteProjectileRequests, 0x0F, 13)
    ensures Puts(msg, 4, msg.remoteHpRequests, 0x0F, 17)
  {
    PutsField(msg, 3, msg.remoteProjectileRequests, 4, 0x0F);
    PutsField(msg, 4, msg.remoteHpRequests, 4, 0x0F);
  }

  lemma PutsPosture(msg: SentryCmd)
    ensures Puts(msg, 5, Posture(msg.posture), 0x03, 21)
  {
    assert Pow2(2) == 4;
    LowFits(Posture(msg.posture), 2);
    PutsField(msg, 5, Posture(msg.posture), 2, 0x03);
  }

  lemma PutsRune(msg: SentryCmd)
    ensures Puts(msg, 6, Digit(msg.activateRune), 0x1, 23)
  {
    LowFits(Digit(msg.activateRune), 1);
    PutsField(msg, 6, Digit(msg.activateRune), 1, 0x1);
  }

  /** The reserved field is not put in, its digits are zero anyway. */
  lemma ReservedIsZero(msg: SentryCmd)
    ensures Begun(msg, 7) == Word(msg)
  {
    var fields := Fields(msg);
    LayoutMore(fields[..7], fields[7]);
    ShlZero(Width(fields[..7]));
    assert fields == fields[..7] + [fields[7]];
  }

  class StandardRobot {
    var sentryCmd: nat

    method CmdSentryCallback(msg: SentryCmd)
      modifies this
      ensures sentryCmd == Word(msg)
    {
      var cmd := 0;
      assert cmd == Begun(msg, 0);
      PutsRespawn(msg);
      cmd := Or(cmd, Shl(And(Digit(msg.confirmRespawn), 0x1), 0));
      PutsPayRespawn(msg);
      cmd := Or(cmd, Shl(And(Digit(msg.confirmPayRespawn), 0x1), 1));
      PutsProjectiles(msg);
      cmd := Or(cmd, Shl(And(msg.projectileAllowance, 0x7FF), 2));
      PutsRequests(msg);
      cmd := Or(cmd, Shl(And(msg.remoteProjectileRequests, 0x0F), 13));
      cmd := Or(cmd, Shl(And(msg.remoteHpRequests, 0x0F), 17));
      var posture := msg.posture;
      if posture < 1 || posture > 3 {
        posture := 3;
      }
      PutsPosture(msg);
      cmd := Or(cmd, Shl(And(posture, 0x03), 21));
      PutsRune(msg);
      cmd := Or(cmd, Shl(And(Digit(msg.activateRune), 0x1), 23));
      ReservedIsZero(msg);
      sentryCmd := cmd;
    }
  }

  /** A receiver reads a field, or the reserved one, back from its own bits of the word. */
  lemma FieldReadsBack(msg: SentryCmd, j: nat, value: nat, at: nat, width: nat)
    requires j < 8 && at == OFFSETS[j] && Fields(msg)[j] == Field(value, width)
    ensures Extract(Word(msg), at, width) == value
  {
    FieldsFit(msg);
    Offset(msg, j);
    FieldsReadBack(Fields(msg), j);
  }

  /** What a receiver reads from the bits of the word is what the message says: a flag is 1 if it is set and 0 if not, the
      counts arrive modulo 2048 and 16, the posture as it is if it is one of the three and as 3 if not, and the rest is
      clear. */
  lemma CommandReadsBack(msg: SentryCmd)
    ensures Extract(Word(msg), 0, 1) == if msg.confirmRespawn then 1 else 0
    ensures Extract(Word(msg), 1, 1) == if msg.confirmPayRespawn then 1 else 0
    ensures Extract(Word(msg), 2, 11) == msg.projectileAllowance % 2048
    ensures Extract(Word(msg), 13, 4) == msg.remoteProjectileRequests % 16
    ensures Extract(Word(msg), 17, 4) == msg.remoteHpRequests % 16
    ensures Extract(Word(msg), 21, 2) == if msg.posture in {1, 2, 3} then msg.posture else 3
    ensures Extract(Word(msg), 23, 1) == if msg.activateRune then 1 else 0
    ensures Extract(Word(msg), 24, 8) == 0
  {
    FieldReadsBack(msg, 0, Digit(msg.confirmRespawn), 0, 1);
    FieldReadsBack(msg, 1, Digit(msg.confirmPayRespawn), 1, 1);
    FieldReadsBack(msg, 2, Low(msg.projectileAllowance, 11), 2, 11);
    LowIsRemainder(msg.projectileAllowance, 11);
    FieldReadsBack(msg, 3, Low(msg.remoteProjectileRequests, 4), 13, 4);
    LowIsRemainder(msg.remoteProjectileRequests, 4);
    FieldReadsBack(msg, 4, Low(msg.remoteHpRequests, 4), 17, 4);
    LowIsRemainder(msg.remoteHpRequests, 4);
    FieldReadsBack(msg, 5, Posture(msg.posture), 21, 2);
    FieldReadsBack(msg, 6, Digit(msg.activateRune), 23, 1);
    FieldReadsBack(msg, 7, 0, 24, 8);
  }

  /** The k-th binary digit. */
  function Bit(a: nat, k: nat): nat {
    if k == 0 then a % 2 else Bit(a / 2, k - 1)
  }

  /** What a receiver extracts are the digits of the word from that position on, and no others. */
  lemma {:induction false} ExtractedBits(word: nat, at: nat, width: nat, k: nat)
    ensures Bit(Extract(word, at, width), k) == if k < width then Bit(word, at + k) else 0
  {
    AndMask(Shr(word, at), width);
    LowBits(Shr(word, at), width, k);
    ShiftedBits(word, at, k);
  }

  lemma {:induction false} LowBits(a: nat, width: nat, k: nat)
    ensures Bit(Low(a, width), k) == if k < width then Bit(a, k) else 0
    decreases width
  {
    if width == 0 {
      ZeroBits(k);
    } else if k > 0 {
      LowBits(a / 2, width - 1, k - 1);
    }
  }

  lemma {:induction false} ZeroBits(k: nat)
    ensures Bit(0, k) == 0
  {
    if k > 0 {
      ZeroBits(k - 1);
    }
  }

  lemma {:induction false} ShiftedBits(a: nat, at: nat, k: nat)
    ensures Bit(Shr(a, at), k) == Bit(a, at + k)
    decreases at
  {
    if at > 0 {
      ShiftedBits(a / 2, at - 1, k);
    }
  }

  /** Nothing is put above bit 23. */
  lemma ReservedBitsAreClear(msg: SentryCmd)
    ensures Word(msg) < Pow2(24)
  {
    ReservedIsZero(msg);
    Offset(msg, 7);
    FieldsFit(msg);
    LayoutFits(Fields(msg)[..7]);
  }

  /** What a receiver takes for the amount. */
  function AmountOnWire(msg: SentryCmd): nat {
    Extract(Word(msg), 2, 11)
  }

  /** What a receiver takes for the amount is the amount modulo 2048. */
  lemma AmountIsRemainder(msg: SentryCmd)
    ensures AmountOnWire(msg) == msg.projectileAllowance % 2048
  {
    CommandReadsBack(msg);
  }

  /** The 11 bits on the wire carry the amount exactly if it is below 2048. */
  lemma AmountOnWireIff(msg: SentryCmd)
    ensures AmountOnWire(msg) == msg.projectileAllowance <==> msg.projectileAllowance < 2048
  {
    AmountIsRemainder(msg);
  }
}
