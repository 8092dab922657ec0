/** The ammunition exchange node of pb2025_sentry_behavior/plugins/action/exchange_projectile_once.cpp, down to the
    amount a receiver reads from the packed command word. */
module ExchangeOnce {
  import opened SentryCommand

  datatype Status = Success | Failure

  datatype Zones = Zones(exchange: bool, nonExchange: bool)

  datatype Robot = Robot(ammo: nat, gold: nat)

  datatype Port<T> = Missing | Given(value: T)

  /** What one tick reads besides the amounts. */
  datatype Input = Input(rfid: Port<Zones>, robot: Port<Robot>, useExchange: bool, useNonExchange: bool,
                         ammoThreshold: int, minGold: int)

  /** The ports that set the amounts. */
  datatype Plan = Plan(base: int, step: int, max: int)

  datatype State = State(wasInZone: bool, exchanged: bool, index: int, last: int, published: seq<SentryCmd>)

  const START := State(false, false, 0, 0, [])

  predicate InZone(i: Input)
    requires i.rfid.Given?
  {
    || (i.useExchange && i.rfid.value.exchange)
    || (i.useNonExchange && i.rfid.value.nonExchange)
  }

  function Clamp(x: int, lo: int, hi: int): int {
    if x < lo then lo else if hi < x then hi else x
  }

  function Amount(plan: Plan, index: int): int {
    Clamp(plan.base + Times(index, plan.step), 0, plan.max)
  }

  function Times(a: int, b: int): int { a * b }

  /** The published message; the cast keeps the lowest 16 bits. */
  function Request(amount: int): SentryCmd {
    SentryCmd(false, false, (if amount < 0 then 0 else amount) % 0x10000, 0, 0, 0, false)
  }

  predicate IsPresent(i: Input) {
    i.rfid.Given? && i.robot.Given?
  }

  predicate Wants(i: Input)
    requires IsPresent(i)
  {
    InZone(i) && i.robot.value.ammo < i.ammoThreshold && i.robot.value.gold >= i.minGold
  }

  function TickFrom(s: State, plan: Plan, i: Input): (Status, State) {
    if !IsPresent(i) then (Failure, s)
    else if !InZone(i) then (Failure, s.(wasInZone := false, exchanged := false))
    else if !Wants(i) then (Failure, s.(wasInZone := true))
    else
      var t := if s.exchanged then s else s.(exchanged := true, index := s.index + 1, last := Amount(plan, s.index));
      (Success, t.(wasInZone := true, published := t.published + [Request(t.last)]))
  }

  class ExchangeProjectileOnce {
    var wasInSupplyZone: bool
    var exchangedThisVisit: bool
    var exchangeIndex: int
    var lastExchangeAmount: int
    var published: seq<SentryCmd>

    ghost function Now(): State
      reads this
    {
      State(wasInSupplyZone, exchangedThisVisit, exchangeIndex, lastExchangeAmount, published)
    }

    constructor ()
      ensures Now() == START
    {
      wasInSupplyZone, exchangedThisVisit, exchangeIndex, lastExchangeAmount, published := false, false, 0, 0, [];
    }

    method PublishExchangeCommand(amount: int)
      modifies `published
      ensures published == old(published) + [Request(amount)]
    {
      var allowance := (if amount < 0 then 0 else amount) % 0x10000;
      published := published + [SentryCmd(false, false, allowance, 0, 0, 0, false)];
    }

    /** std::clamp demands that the maximum is not below 0. */
    method Tick(plan: Plan, i: Input) returns (status: Status)
      requires 0 <= plan.max
      modifies this
      ensures (status, Now()) == TickFrom(old(Now()), plan, i)
    {
      if i.rfid.Missing? {
        return Failure;
      }
      if i.robot.Missing? {
        return Failure;
      }
      var inSupplyZone := InZone(i);
      var currentAmmo, remainingGold := i.robot.value.ammo, i.robot.value.gold;
      if !inSupplyZone {
        wasInSupplyZone := false;
        exchangedThisVisit := false;
        return Failure;
      }
      wasInSupplyZone := true;
      if currentAmmo >= i.ammoThreshold {
        return Failure;
      }
      if remainingGold < i.minGold {
        return Failure;
      }
      if !exchangedThisVisit {
        var amount := plan.base + Times(exchangeIndex, plan.step);
        amount := Clamp(amount, 0, plan.max);
        lastExchangeAmount := amount;
        exchangedThisVisit := true;
        exchangeIndex := exchangeIndex + 1;
      }
      PublishExchangeCommand(lastExchangeAmount);
      return Success;
    }
  }

  // ------------------------------------------------ runs

  function After(plan: Plan, run: seq<Input>): State {
    if run == [] then START else TickFrom(After(plan, run[..|run| - 1]), plan, run[|run| - 1]).1
  }

  predicate IsOutside(i: Input) {
    IsPresent(i) && !InZone(i)
  }

  predicate IsSend(i: Input) {
    IsPresent(i) && Wants(i)
  }

  /** Which visit to the zone a run has come to: a tick outside ends one. Ticks without both messages say nothing. */
  function Visit(run: seq<Input>): nat {
    if run == [] then 0 else Visit(run[..|run| - 1]) + if IsOutside(run[|run| - 1]) then 1 else 0
  }

  /** The visits in which the node had reason to publish, one entry for every message. */
  function Sends(run: seq<Input>): seq<nat> {
    if run == [] then []
    else
      var before := Sends(run[..|run| - 1]);
      if IsSend(run[|run| - 1]) then before + [Visit(run)] else before
  }

  /** How many visits are among the entries of a list in order. */
  function Visits(sends: seq<nat>): (k: nat)
    ensures sends != [] ==> k >= 1
  {
    if sends == [] then 0
    else
      var n := |sends| - 1;
      Visits(sends[..n]) + if n > 0 && sends[n - 1] == sends[n] then 0 else 1
  }

  /** The messages of a run, worked out from its inputs alone: in its k-th visit with messages the k-th amount. */
  function Expected(plan: Plan, sends: seq<nat>): (r: seq<SentryCmd>)
    ensures |r| == |sends|
  {
    if sends == [] then [] else Expected(plan, sends[..|sends| - 1]) + [Request(Amount(plan, Visits(sends) - 1))]
  }

  /** The state of the node in terms of the messages' visits and the present visit. */
  ghost predicate Fits(plan: Plan, sends: seq<nat>, visit: nat, s: State) {
    && s.published == Expected(plan, sends)
    && s.index == Visits(sends)
    && (s.exchanged <==> sends != [] && sends[|sends| - 1] == visit)
    && s.last == (if sends == [] then 0 else Amount(plan, s.index - 1))
    && (sends != [] ==> sends[|sends| - 1] <= visit)
  }

  lemma ExpectedMore(plan: Plan, sends: seq<nat>, v: nat)
    ensures Expected(plan, sends + [v]) == Expected(plan, sends) + [Request(Amount(plan, Visits(sends + [v]) - 1))]
  {
    assert (sends + [v])[..|sends|] == sends;
  }

  lemma {:induction false} ExpectedAt(plan: Plan, sends: seq<nat>, i: nat)
    requires i < |sends|
    ensures Expected(plan, sends)[i] == Request(Amount(plan, Visits(sends[..i + 1]) - 1))
  {
    if i < |sends| - 1 {
      ExpectedAt(plan, sends[..|sends| - 1], i);
      assert sends[..|sends| - 1][..i + 1] == sends[..i + 1];
    } else {
      assert sends[..i + 1] == sends;
    }
  }

  lemma VisitsMore(sends: seq<nat>, v: nat)
    ensures Visits(sends + [v]) == Visits(sends) + if sends != [] && sends[|sends| - 1] == v then 0 else 1
  {
    assert (sends + [v])[..|sends|] == sends;
  }

  lemma SendFits(plan: Plan, sends: seq<nat>, visit: nat, s: State, i: Input)
    requires Fits(plan, sends, visit, s) && IsSend(i)
    ensures Fits(plan, sends + [visit], visit, TickFrom(s, plan, i).1)
  {
    ExpectedMore(plan, sends, visit);
    VisitsMore(sends, visit);
    assert Visits(sends + [visit]) == if s.exchanged then s.index else s.index + 1;
  }

  /** The node publishes exactly the expected messages: one amount for each visit, advanced once for each visit in which
      anything is published. */
  lemma {:induction false} PublishesExpected(plan: Plan, run: seq<Input>)
    ensures Fits(plan, Sends(run), Visit(run), After(plan, run))
  {
    if run != [] {
      var i, before := run[|run| - 1], run[..|run| - 1];
      PublishesExpected(plan, before);
      if IsSend(i) {
        SendFits(plan, Sends(before), Visit(before), After(plan, before), i);
      }
    }
  }

  // ------------------------------------------------ when and what it publishes

  /** The answer of the last tick of a run. */
  function Answer(plan: Plan, run: seq<Input>): Status
    requires run != []
  {
    TickFrom(After(plan, run[..|run| - 1]), plan, run[|run| - 1]).0
  }

  /** The robot is seen in a part of the supply zone that counts, short of ammunition and with gold enough. */
  ghost predicate Shops(i: Input) {
    && i.rfid != Missing && i.robot != Missing
    && ((i.useExchange && i.rfid.value.exchange) || (i.useNonExchange && i.rfid.value.nonExchange))
    && i.robot.value.ammo < i.ammoThreshold && i.robot.value.gold >= i.minGold
  }

  /** A tick publishes one message and answers SUCCESS exactly if both messages have been received, the robot is in the
      zone, short of ammunition and rich enough; otherwise it publishes nothing and answers FAILURE. */
  lemma PublishesIff(plan: Plan, run: seq<Input>)
    requires run != []
    ensures var n := |run| - 1;
            var before, after := After(plan, run[..n]).published, After(plan, run).published;
            && (Answer(plan, run) == Success <==> Shops(run[n]))
            && (if Shops(run[n]) then |after| == |before| + 1 && before <= after else after == before)
  {
  }

  /** Whether the robot was in the zone when last both messages had been received. */
  function SeenInZone(run: seq<Input>): bool {
    if run == [] then false
    else
      var i := run[|run| - 1];
      if i.rfid == Missing || i.robot == Missing then SeenInZone(run[..|run| - 1])
      else (i.useExchange && i.rfid.value.exchange) || (i.useNonExchange && i.rfid.value.nonExchange)
  }

  lemma {:induction false} KnowsZone(plan: Plan, run: seq<Input>)
    ensures After(plan, run).wasInZone <==> SeenInZone(run)
  {
    if run != [] {
      KnowsZone(plan, run[..|run| - 1]);
    }
  }

  /** The i-th message of a run asks for ammunition and nothing else: for the base amount and one step more for every visit
      with messages before, kept between 0 and the maximum and then cut to 16 bits. */
  lemma MessageCarries(plan: Plan, run: seq<Input>, i: nat)
    requires plan.max >= 0 && i < |Sends(run)|
    ensures |After(plan, run).published| == |Sends(run)|
    ensures var k := Visits(Sends(run)[..i + 1]) - 1;
            var amount := plan.base + k * plan.step;
            After(plan, run).published[i] ==
            SentryCmd(false, false, (if amount < 0 then 0 else if amount > plan.max then plan.max else amount) % 65536,
                      0, 0, 0, false)
  {
    MessageSent(plan, run, i);
  }

  /** What a receiver reads confirms no respawn, requests nothing remotely and activates nothing, but orders posture 3. */
  ghost predicate AsksForNothingElse(word: nat) {
    && Extract(word, 0, 1) == 0 && Extract(word, 1, 1) == 0 && Extract(word, 13, 4) == 0
    && Extract(word, 17, 4) == 0 && Extract(word, 23, 1) == 0 && Extract(word, 21, 2) == 3
  }

  lemma AmmunitionAlone(msg: SentryCmd)
    requires msg == SentryCmd(false, false, msg.projectileAllowance, 0, 0, 0, false)
    ensures AsksForNothingElse(Word(msg))
  {
    CommandReadsBack(msg);
  }

  /** So down on the wire every message of a run asks for ammunition alone; but it orders posture 3, which is what the
      packing makes of none. */
  lemma OnlyAsksForAmmunition(plan: Plan, run: seq<Input>, i: nat)
    requires plan.max >= 0 && i < |Sends(run)|
    ensures |After(plan, run).published| == |Sends(run)| && AsksForNothingElse(Word(After(plan, run).published[i]))
  {
    MessageCarries(plan, run, i);
    AmmunitionAlone(After(plan, run).published[i]);
  }

  // ------------------------------------------------ amounts over a run

  lemma {:induction false} SendsInOrder(run: seq<Input>)
    ensures Ordered(Sends(run)) && (Sends(run) != [] ==> Sends(run)[|Sends(run)| - 1] <= Visit(run))
  {
    if run != [] {
      SendsInOrder(run[..|run| - 1]);
    }
  }

  ghost predicate Ordered(sends: seq<nat>) {
    forall i, j | 0 <= i <= j < |sends| :: sends[i] <= sends[j]
  }

  /** In a list in order the count moves on exactly from one visit to the next. */
  lemma {:induction false} VisitsInOrder(sends: seq<nat>, i: nat, j: nat)
    requires Ordered(sends) && i <= j < |sends|
    ensures 1 <= Visits(sends[..i + 1]) <= Visits(sends[..j + 1])
    ensures Visits(sends[..i + 1]) == Visits(sends[..j + 1]) <==> sends[i] == sends[j]
    decreases j
  {
    assert sends[..j + 1] == sends[..j] + [sends[j]];
    VisitsMore(sends[..j], sends[j]);
    if i < j {
      VisitsInOrder(sends, i, j - 1);
      assert sends[..j][j - 1] == sends[j - 1];
    }
  }

  lemma TimesOrder(a: int, b: int, step: int)
    requires a <= b && step >= 0
    ensures Times(a, step) <= Times(b, step)
  {
    assert (b - a) * step >= 0;
  }

  /** The amounts grow with the visits and never leave the range. */
  lemma AmountsGrow(plan: Plan, a: int, b: int)
    requires plan.step >= 0 && plan.max >= 0 && a <= b
    ensures 0 <= Amount(plan, a) <= Amount(plan, b) <= plan.max
  {
    TimesOrder(a, b, plan.step);
  }

  /** The amount behind the i-th message of a run. */
  function AmountSent(plan: Plan, run: seq<Input>, i: nat): int
    requires i < |Sends(run)|
  {
    Amount(plan, Visits(Sends(run)[..i + 1]) - 1)
  }

  lemma MessageSent(plan: Plan, run: seq<Input>, i: nat)
    requires i < |Sends(run)|
    ensures |After(plan, run).published| == |Sends(run)|
    ensures After(plan, run).published[i] == Request(AmountSent(plan, run, i))
  {
    PublishesExpected(plan, run);
    ExpectedAt(plan, Sends(run), i);
  }

  /** Within a visit every message is the same, and over the run the amounts never decrease. */
  lemma AmountsOfRun(plan: Plan, run: seq<Input>, i: nat, j: nat)
    requires plan.step >= 0 && plan.max >= 0 && i <= j < |Sends(run)|
    ensures var published := After(plan, run).published;
            && |published| == |Sends(run)|
            && (Sends(run)[i] == Sends(run)[j] ==> published[i] == published[j])
            && 0 <= AmountSent(plan, run, i) <= AmountSent(plan, run, j) <= plan.max
  {
    MessageSent(plan, run, i);
    MessageSent(plan, run, j);
    SendsInOrder(run);
    VisitsInOrder(Sends(run), i, j);
    AmountsGrow(plan, Visits(Sends(run)[..i + 1]) - 1, Visits(Sends(run)[..j + 1]) - 1);
  }

  // ------------------------------------------------ amounts on the wire

  lemma ReadsRemainder(msg: SentryCmd, amount: nat)
    requires msg.projectileAllowance == amount % 0x10000
    ensures AmountOnWire(msg) == amount % 2048
  {
    AmountIsRemainder(msg);
    CutTwice(amount, msg.projectileAllowance);
  }

  lemma CutTwice(a: nat, b: nat)
    requires b == a % 0x10000
    ensures b % 2048 == a % 2048
  {
  }

  lemma ReadsSmall(msg: SentryCmd, amount: nat)
    requires msg.projectileAllowance == amount < 2048
    ensures AmountOnWire(msg) == amount
  {
    AmountOnWireIff(msg);
  }

  /** A receiver reads the amount modulo 2048. */
  lemma RequestOnWire(amount: int)
    requires amount >= 0
    ensures AmountOnWire(Request(amount)) == amount % 2048
  {
    ReadsRemainder(Request(amount), amount);
  }

  lemma SmallOnWire(amount: int)
    requires 0 <= amount < 2048
    ensures AmountOnWire(Request(amount)) == amount
  {
    ReadsSmall(Request(amount), amount);
  }

  /** Up to a maximum of 2047 a receiver reads the very amounts, which therefore never decrease on the wire. */
  lemma AmountsOnWire(plan: Plan, run: seq<Input>, i: nat, j: nat)
    requires plan.step >= 0 && 0 <= plan.max <= 2047 && i <= j < |Sends(run)|
    ensures var published := After(plan, run).published;
            && |published| == |Sends(run)|
            && AmountOnWire(published[i]) == AmountSent(plan, run, i)
            && AmountOnWire(published[i]) <= AmountOnWire(published[j])
  {
    AmountsOfRun(plan, run, i, j);
    MessageSent(plan, run, i);
    MessageSent(plan, run, j);
    SmallOnWire(AmountSent(plan, run, i));
    SmallOnWire(AmountSent(plan, run, j));
  }

  const INSIDE := Input(Given(Zones(true, false)), Given(Robot(0, 200)), true, true, 50, 150)
  const OUTSIDE := Input(Given(Zones(false, false)), Given(Robot(0, 200)), true, true, 50, 150)

  /** One tick inside for each of k + 1 visits. */
  function Shuttle(k: nat): seq<Input> {
    if k == 0 then [INSIDE] else Shuttle(k - 1) + [OUTSIDE] + [INSIDE]
  }

  lemma InputMore(run: seq<Input>, i: Input)
    ensures Visit(run + [i]) == Visit(run) + if IsOutside(i) then 1 else 0
    ensures Sends(run + [i]) == Sends(run) + if IsSend(i) then [Visit(run + [i])] else []
  {
    assert (run + [i])[..|run|] == run;
  }

  lemma ShuttleMore(k: nat)
    requires k > 0
    ensures Visit(Shuttle(k)) == Visit(Shuttle(k - 1)) + 1
    ensures Sends(Shuttle(k)) == Sends(Shuttle(k - 1)) + [Visit(Shuttle(k))]
  {
    var before := Shuttle(k - 1);
    InputMore(before, OUTSIDE);
    InputMore(before + [OUTSIDE], INSIDE);
    assert Sends(before) + [] == Sends(before);
  }

  lemma ShuttleFirst()
    ensures Visit(Shuttle(0)) == 0 && Sends(Shuttle(0)) == [0]
  {
    InputMore([], INSIDE);
    assert Sends([]) == [] && [] + [INSIDE] == [INSIDE] && [] + [0] == [0];
  }

  lemma {:induction false} ShuttleSends(k: nat)
    ensures Visit(Shuttle(k)) == k && |Sends(Shuttle(k))| == k + 1
    ensures Sends(Shuttle(k))[k] == k && Visits(Sends(Shuttle(k))) == k + 1
  {
    if k == 0 {
      ShuttleFirst();
    } else {
      ShuttleMore(k);
      ShuttleSends(k - 1);
      VisitsMore(Sends(Shuttle(k - 1)), k);
    }
  }

  lemma {:induction false} ShuttlePrefix(n: nat, k: nat)
    requires k <= n
    ensures Sends(Shuttle(k)) <= Sends(Shuttle(n))
  {
    if k < n {
      ShuttleMore(n);
      ShuttlePrefix(n - 1, k);
    }
  }

  lemma ShuttleAmount(plan: Plan, n: nat, k: nat)
    requires k <= n
    ensures |Sends(Shuttle(n))| == n + 1 && AmountSent(plan, Shuttle(n), k) == Amount(plan, k)
  {
    ShuttleSends(n);
    ShuttleSends(k);
    assert Sends(Shuttle(n))[..k + 1] == Sends(Shuttle(k)) by {
      ShuttlePrefix(n, k);
    }
  }

  /** The k-th message of a shuttle carries the k-th amount, so every amount of a plan is sent in some run. */
  lemma ShuttleSent(plan: Plan, n: nat, k: nat)
    requires k <= n
    ensures |Sends(Shuttle(n))| == n + 1 && AmountSent(plan, Shuttle(n), k) == Amount(plan, k)
    ensures |After(plan, Shuttle(n)).published| == n + 1
    ensures After(plan, Shuttle(n)).published[k] == Request(Amount(plan, k))
  {
    ShuttleAmount(plan, n, k);
    MessageSent(plan, Shuttle(n), k);
  }

  ghost predicate ExactOnWire(plan: Plan, run: seq<Input>) {
    |After(plan, run).published| == |Sends(run)| &&
    forall i: nat | i < |Sends(run)| :: AmountOnWire(After(plan, run).published[i]) == AmountSent(plan, run, i)
  }

  /** A plan's amounts all fit the field. */
  predicate FitsField(plan: Plan) {
    plan.max < 2048 || (plan.step <= 0 && plan.base < 2048)
  }

  lemma AmountFits(plan: Plan, k: nat)
    requires plan.max >= 0 && FitsField(plan)
    ensures 0 <= Amount(plan, k) < 2048
  {
    if plan.step <= 0 {
      assert k * plan.step <= 0;
    }
  }

  /** A plan that does not fit comes to an amount too large. */
  lemma LargeAmount(plan: Plan) returns (k: nat)
    requires plan.max >= 0 && !FitsField(plan)
    ensures 2048 <= Amount(plan, k)
  {
    if plan.base >= 2048 {
      k := 0;
      assert Times(0, plan.step) == 0;
    } else {
      k := 2048 - plan.base;
      LargeProduct(k, plan.step);
    }
  }

  lemma LargeProduct(a: int, b: int)
    requires a >= 0 && b >= 1
    ensures Times(a, b) >= a
  {
    assert a * (b - 1) >= 0;
  }

  lemma FittingIsExact(plan: Plan, run: seq<Input>)
    requires plan.max >= 0 && FitsField(plan)
    ensures ExactOnWire(plan, run)
  {
    PublishesExpected(plan, run);
    forall i: nat | i < |Sends(run)|
      ensures AmountOnWire(After(plan, run).published[i]) == AmountSent(plan, run, i)
    {
      MessageSent(plan, run, i);
      assert Sends(run)[..i + 1] != [];
      AmountFits(plan, Visits(Sends(run)[..i + 1]) - 1);
      SmallOnWire(AmountSent(plan, run, i));
    }
  }

  lemma LargeIsInexact(plan: Plan, k: nat)
    requires 2048 <= Amount(plan, k)
    ensures !ExactOnWire(plan, Shuttle(k))
  {
    ShuttleSent(plan, k, k);
    RequestOnWire(Amount(plan, k));
  }

  /** In every run a receiver reads the very amounts exactly if the plan's amounts fit the field. */
  lemma ExactOnWireIff(plan: Plan)
    requires plan.max >= 0
    ensures (forall run :: ExactOnWire(plan, run)) <==> FitsField(plan)
  {
    if FitsField(plan) {
      forall run ensures ExactOnWire(plan, run) {
        FittingIsExact(plan, run);
      }
    } else {
      var k := LargeAmount(plan);
      LargeIsInexact(plan, k);
    }
  }

  // ------------------------------------------------ when the wire never falls

  /** What a receiver reads for the k-th amount. */
  function Wire(plan: Plan, k: nat): int {
    Amount(plan, k) % 2048
  }

  /** The first term of the progression base, base + step, ... that is not below 0, and its place. */
  function FirstTerm(plan: Plan): int
    requires plan.step > 0
  {
    if plan.base >= 0 then plan.base else plan.base % plan.step
  }

  function Place(plan: Plan): nat
    requires plan.step > 0
  {
    if plan.base >= 0 then 0 else -(plan.base / plan.step)
  }

  /** The last place, counted from the first term, with a term below the maximum. */
  function LastPlace(plan: Plan): nat
    requires plan.step > 0 && FirstTerm(plan) < plan.max
  {
    (plan.max - 1 - FirstTerm(plan)) / plan.step
  }

  /** The plan's amounts, taken modulo 2048, do not fall. If they grow: the terms below the maximum stay within one block
      of 2048, up to whole blocks in the step, and the last of them is not above the maximum there. If they shrink: all of
      them are whole blocks. */
  predicate SafeOnWire(plan: Plan) {
    || plan.step == 0
    || (plan.step < 0 && ShrinksByBlocks(plan))
    || (plan.step > 0 &&
        (FirstTerm(plan) >= plan.max ||
         FirstTerm(plan) % 2048 + Times(LastPlace(plan), plan.step % 2048) <= plan.max % 2048))
  }

  /** For a negative step, the first term below the maximum, and its place. */
  function FirstBelow(plan: Plan): int
    requires plan.step < 0
  {
    if plan.base < plan.max then plan.base else plan.max + plan.step + (plan.base - plan.max) % -plan.step
  }

  function PlaceBelow(plan: Plan): nat
    requires plan.step < 0
  {
    if plan.base < plan.max then 0 else (plan.base - plan.max) / -plan.step + 1
  }

  /** The first amount is a whole number of blocks, and so are the term below the maximum and the step, where they come to
      bear. */
  predicate ShrinksByBlocks(plan: Plan)
    requires plan.step < 0
  {
    var term := FirstBelow(plan);
    && Clamp(plan.base, 0, plan.max) % 2048 == 0
    && (term <= 0 || (term % 2048 == 0 && (term + plan.step <= 0 || plan.step % 2048 == 0)))
  }

  lemma TimesMore(a: int, step: int)
    ensures Times(a + 1, step) == Times(a, step) + step && Times(0, step) == 0
  {
  }

  lemma TimesSum(a: int, b: int, step: int)
    ensures Times(a + b, step) == Times(a, step) + Times(b, step)
  {
  }

  lemma FirstTermAt(plan: Plan)
    requires plan.step > 0
    ensures plan.base + Times(Place(plan), plan.step) == FirstTerm(plan) >= 0
    ensures plan.base < 0 ==> FirstTerm(plan) < plan.step
  {
    TimesMore(0, plan.step);
    if plan.base < 0 {
      var q := plan.base / plan.step;
      assert plan.base == plan.step * q + plan.base % plan.step;
      assert Times(-q, plan.step) == -(plan.step * q);
    }
  }

  lemma AmountBefore(plan: Plan, k: nat)
    requires plan.step > 0 && plan.max >= 0 && k < Place(plan)
    ensures Amount(plan, k) == 0
  {
    FirstTermAt(plan);
    TimesMore(Place(plan) - 1, plan.step);
    TimesOrder(k, Place(plan) - 1, plan.step);
  }

  lemma AmountFrom(plan: Plan, i: nat)
    requires plan.step > 0 && plan.max >= 0
    ensures var term := FirstTerm(plan) + Times(i, plan.step);
            Amount(plan, Place(plan) + i) == if term > plan.max then plan.max else term
  {
    FirstTermAt(plan);
    TimesSum(Place(plan), i, plan.step);
    TimesOrder(0, i, plan.step);
    TimesMore(0, plan.step);
  }

  lemma LastPlaceBounds(plan: Plan)
    requires plan.step > 0 && FirstTerm(plan) < plan.max
    ensures var n := LastPlace(plan);
            FirstTerm(plan) + Times(n, plan.step) < plan.max <= FirstTerm(plan) + Times(n + 1, plan.step)
  {
    var rest, n := plan.max - 1 - FirstTerm(plan), LastPlace(plan);
    assert rest == plan.step * n + rest % plan.step;
    TimesMore(n, plan.step);
  }

  /** The terms below the maximum, and the maximum after them. */
  lemma AmountsByPlace(plan: Plan, i: nat)
    requires plan.step > 0 && plan.max >= 0 && FirstTerm(plan) < plan.max
    ensures i <= LastPlace(plan) ==> Amount(plan, Place(plan) + i) == FirstTerm(plan) + Times(i, plan.step)
    ensures i > LastPlace(plan) ==> Amount(plan, Place(plan) + i) == plan.max
  {
    AmountFrom(plan, i);
    LastPlaceBounds(plan);
    if i <= LastPlace(plan) {
      TimesOrder(i, LastPlace(plan), plan.step);
    } else {
      TimesOrder(LastPlace(plan) + 1, i, plan.step);
    }
  }

  lemma BlockStep(a: int, step: int)
    ensures var sum := a % 2048 + step % 2048; (a + step) % 2048 == if sum < 2048 then sum else sum - 2048
  {
  }

  /** As long as they fit in a block, remainders climb by the remainder of the step. */
  lemma {:induction false} RemaindersClimb(f: int, step: int, i: nat)
    requires step >= 0 && f % 2048 + Times(i, step % 2048) < 2048
    ensures (f + Times(i, step)) % 2048 == f % 2048 + Times(i, step % 2048)
  {
    if i == 0 {
      TimesMore(0, step);
      TimesMore(0, step % 2048);
    } else {
      TimesMore(i - 1, step);
      TimesMore(i - 1, step % 2048);
      RemaindersClimb(f, step, i - 1);
      BlockStep(f + Times(i - 1, step), step);
    }
  }

  lemma SafeStep(plan: Plan, k: nat)
    requires plan.step >= 0 && plan.max >= 0 && SafeOnWire(plan)
    ensures Wire(plan, k) <= Wire(plan, k + 1)
  {
    if plan.step == 0 {
      assert Times(k, 0) == 0 && Times(k + 1, 0) == 0;
    } else if k < Place(plan) {
      AmountBefore(plan, k);
      AmountsGrow(plan, k, k + 1);
    } else if FirstTerm(plan) >= plan.max {
      LateAmounts(plan, k);
      LateAmounts(plan, k + 1);
    } else {
      SafeStepFrom(plan, k - Place(plan));
    }
  }

  lemma LateAmounts(plan: Plan, k: nat)
    requires plan.step > 0 && plan.max >= 0 && FirstTerm(plan) >= plan.max && k >= Place(plan)
    ensures Amount(plan, k) == plan.max
  {
    AmountFrom(plan, k - Place(plan));
    TimesOrder(0, k - Place(plan), plan.step);
    TimesMore(0, plan.step);
  }

  lemma SafeTerm(plan: Plan, i: nat)
    requires plan.step > 0 && plan.max >= 0 && FirstTerm(plan) < plan.max && SafeOnWire(plan)
    requires i <= LastPlace(plan)
    ensures Wire(plan, Place(plan) + i) == FirstTerm(plan) % 2048 + Times(i, plan.step % 2048) <= plan.max % 2048
  {
    TimesOrder(i, LastPlace(plan), plan.step % 2048);
    RemaindersClimb(FirstTerm(plan), plan.step, i);
    AmountsByPlace(plan, i);
  }

  lemma SafeStepFrom(plan: Plan, i: nat)
    requires plan.step > 0 && plan.max >= 0 && FirstTerm(plan) < plan.max && SafeOnWire(plan)
    ensures Wire(plan, Place(plan) + i) <= Wire(plan, Place(plan) + i + 1)
  {
    assert Place(plan) + i + 1 == Place(plan) + (i + 1);
    if i < LastPlace(plan) {
      SafeTerm(plan, i);
      SafeTerm(plan, i + 1);
      TimesMore(i, plan.step % 2048);
    } else {
      AmountsByPlace(plan, i + 1);
      if i == LastPlace(plan) {
        SafeTerm(plan, i);
      } else {
        AmountsByPlace(plan, i);
      }
    }
  }

  /** Without safety some amount's remainder is above the next one's. */
  lemma {:induction false} UnsafeFalls(plan: Plan, i: nat) returns (k: nat)
    requires plan.step > 0 && plan.max >= 0 && FirstTerm(plan) < plan.max && !SafeOnWire(plan)
    requires i <= LastPlace(plan) && FirstTerm(plan) % 2048 + Times(i, plan.step % 2048) < 2048
    ensures Wire(plan, k) > Wire(plan, k + 1)
    decreases LastPlace(plan) - i
  {
    var n, f, r := LastPlace(plan), FirstTerm(plan), plan.step % 2048;
    AmountsByPlace(plan, i);
    AmountsByPlace(plan, i + 1);
    assert Place(plan) + i + 1 == Place(plan) + (i + 1);
    RemaindersClimb(f, plan.step, i);
    TimesMore(i, r);
    if i == n {
      k := Place(plan) + i;
    } else if f % 2048 + Times(i + 1, r) < 2048 {
      k := UnsafeFalls(plan, i + 1);
    } else {
      TimesMore(i, plan.step);
      BlockStep(f + Times(i, plan.step), plan.step);
      k := Place(plan) + i;
    }
  }

  /** What a receiver reads never falls between two messages of the run. */
  ghost predicate NeverFalls(plan: Plan, run: seq<Input>) {
    var p := After(plan, run).published;
    forall i, j | 0 <= i <= j < |p| :: AmountOnWire(p[i]) <= AmountOnWire(p[j])
  }

  lemma {:induction false} WireInOrder(plan: Plan, a: nat, b: nat)
    requires plan.step >= 0 && plan.max >= 0 && SafeOnWire(plan) && a <= b
    ensures Wire(plan, a) <= Wire(plan, b)
    decreases b
  {
    if a < b {
      WireInOrder(plan, a, b - 1);
      SafeStep(plan, b - 1);
    }
  }

  // ------------------------------------------------ amounts that shrink

  lemma FirstBelowAt(plan: Plan)
    requires plan.step < 0
    ensures plan.base + Times(PlaceBelow(plan), plan.step) == FirstBelow(plan) < plan.max
    ensures PlaceBelow(plan) > 0 ==> FirstBelow(plan) - plan.step >= plan.max
  {
    TimesMore(0, plan.step);
    if plan.base >= plan.max {
      var d, over := -plan.step, plan.base - plan.max;
      var q := over / d;
      assert over == d * q + over % d && 0 <= over % d < d;
      assert Times(q + 1, plan.step) == -(d * q) - d;
    }
  }

  lemma TimesFalls(a: int, b: int, step: int)
    requires a <= b && step <= 0
    ensures Times(a, step) >= Times(b, step)
  {
    assert (b - a) * -step >= 0;
  }

  lemma ShrinkingBefore(plan: Plan, k: nat)
    requires plan.step < 0 && plan.max >= 0 && k < PlaceBelow(plan)
    ensures Amount(plan, k) == plan.max
  {
    FirstBelowAt(plan);
    TimesMore(PlaceBelow(plan) - 1, plan.step);
    TimesFalls(k, PlaceBelow(plan) - 1, plan.step);
  }

  lemma ShrinkingFrom(plan: Plan, i: nat)
    requires plan.step < 0 && plan.max >= 0
    ensures var term := FirstBelow(plan) + Times(i, plan.step);
            Amount(plan, PlaceBelow(plan) + i) == if term < 0 then 0 else term
  {
    FirstBelowAt(plan);
    TimesSum(PlaceBelow(plan), i, plan.step);
    TimesFalls(0, i, plan.step);
    TimesMore(0, plan.step);
  }

  lemma {:induction false} WholeBlocks(i: nat, step: int)
    requires step % 2048 == 0
    ensures Times(i, step) % 2048 == 0
  {
    TimesMore(0, step);
    if i > 0 {
      TimesMore(i - 1, step);
      WholeBlocks(i - 1, step);
    }
  }

  lemma SumOfBlocks(a: int, b: int)
    requires a % 2048 == 0 && b % 2048 == 0
    ensures (a + b) % 2048 == 0
  {
  }

  lemma ShrinkingTerm(plan: Plan, i: nat)
    requires plan.step < 0 && plan.max >= 0 && ShrinksByBlocks(plan)
    ensures var term := FirstBelow(plan) + Times(i, plan.step); term > 0 ==> term % 2048 == 0
  {
    TimesMore(0, plan.step);
    if i > 0 {
      TimesFalls(1, i, plan.step);
    }
    if plan.step % 2048 == 0 && FirstBelow(plan) % 2048 == 0 {
      WholeBlocks(i, plan.step);
      SumOfBlocks(FirstBelow(plan), Times(i, plan.step));
    }
  }

  lemma ShrinkingWireIsZero(plan: Plan, k: nat)
    requires plan.step < 0 && plan.max >= 0 && ShrinksByBlocks(plan)
    ensures Wire(plan, k) == 0
  {
    if k < PlaceBelow(plan) {
      ShrinkingBefore(plan, k);
    } else {
      ShrinkingFrom(plan, k - PlaceBelow(plan));
      ShrinkingTerm(plan, k - PlaceBelow(plan));
    }
  }

  /** Some amount that is not a whole number of blocks, and a later one that is 0. */
  lemma ShrinkingFalls(plan: Plan) returns (k: nat, l: nat)
    requires plan.step < 0 && plan.max >= 0 && !ShrinksByBlocks(plan)
    ensures k < l && Wire(plan, k) > Wire(plan, l)
  {
    var term, p := FirstBelow(plan), PlaceBelow(plan);
    TimesMore(0, plan.step);
    TimesMore(1, plan.step);
    ShrinkingFrom(plan, 0);
    ShrinkingFrom(plan, 1);
    if Clamp(plan.base, 0, plan.max) % 2048 != 0 {
      k := 0;
    } else if term % 2048 != 0 {
      k := p;
    } else {
      k := p + 1;
      BlockStep(term, plan.step);
    }
    var i := if term > 0 then term + 2 else 2;
    l := p + i;
    ShrinkingFrom(plan, i);
    EndsAtZero(i, plan.step);
  }

  lemma EndsAtZero(i: nat, step: int)
    requires step < 0
    ensures Times(i, step) + i <= 0
  {
    assert i * (-step - 1) >= 0;
  }

  // ------------------------------------------------ all runs

  lemma SafeInOrder(plan: Plan, a: nat, b: nat)
    requires plan.max >= 0 && SafeOnWire(plan) && a <= b
    ensures Wire(plan, a) <= Wire(plan, b)
  {
    if plan.step >= 0 {
      WireInOrder(plan, a, b);
    } else {
      ShrinkingWireIsZero(plan, a);
      ShrinkingWireIsZero(plan, b);
    }
  }

  /** Which amount the i-th message of a run carries. */
  lemma SentOnWire(plan: Plan, run: seq<Input>, i: nat, k: int)
    requires plan.max >= 0 && i < |Sends(run)| && k == Visits(Sends(run)[..i + 1]) - 1 >= 0
    ensures |After(plan, run).published| == |Sends(run)|
    ensures AmountOnWire(After(plan, run).published[i]) == Wire(plan, k)
  {
    MessageSent(plan, run, i);
    RequestOnWire(AmountSent(plan, run, i));
  }

  lemma IndicesInOrder(run: seq<Input>, i: nat, j: nat)
    requires i <= j < |Sends(run)|
    ensures 0 <= Visits(Sends(run)[..i + 1]) - 1 <= Visits(Sends(run)[..j + 1]) - 1
  {
    SendsInOrder(run);
    VisitsInOrder(Sends(run), i, j);
  }

  lemma SafePair(plan: Plan, run: seq<Input>, i: nat, j: nat)
    requires plan.max >= 0 && SafeOnWire(plan) && i <= j < |Sends(run)|
    ensures |After(plan, run).published| == |Sends(run)|
    ensures AmountOnWire(After(plan, run).published[i]) <= AmountOnWire(After(plan, run).published[j])
  {
    IndicesInOrder(run, i, j);
    var k, l := Visits(Sends(run)[..i + 1]) - 1, Visits(Sends(run)[..j + 1]) - 1;
    SentOnWire(plan, run, i, k);
    SentOnWire(plan, run, j, l);
    SafeInOrder(plan, k, l);
  }

  lemma SafeNeverFalls(plan: Plan, run: seq<Input>)
    requires plan.max >= 0 && SafeOnWire(plan)
    ensures NeverFalls(plan, run)
  {
    PublishesExpected(plan, run);
    var p := After(plan, run).published;
    forall i, j | 0 <= i <= j < |p| ensures AmountOnWire(p[i]) <= AmountOnWire(p[j]) {
      SafePair(plan, run, i, j);
    }
  }

  lemma UnsafeAmounts(plan: Plan) returns (k: nat, l: nat)
    requires plan.max >= 0 && !SafeOnWire(plan)
    ensures k < l && (plan.step > 0 ==> l == k + 1) && Wire(plan, k) > Wire(plan, l)
  {
    if plan.step > 0 {
      TimesMore(0, plan.step % 2048);
      k := UnsafeFalls(plan, 0);
      l := k + 1;
    } else {
      k, l := ShrinkingFalls(plan);
    }
  }

  /** A run with an unsafe plan in which a receiver reads less from a later message; with a positive step, less from the
      very next one. */
  lemma UnsafeRunFalls(plan: Plan) returns (run: seq<Input>, k: nat, l: nat)
    requires plan.max >= 0 && !SafeOnWire(plan)
    ensures k < l < |After(plan, run).published| && (plan.step > 0 ==> l == k + 1)
    ensures AmountOnWire(After(plan, run).published[k]) > AmountOnWire(After(plan, run).published[l])
  {
    k, l := UnsafeAmounts(plan);
    run := Shuttle(l);
    ShuttleSent(plan, l, k);
    ShuttleSent(plan, l, l);
    RequestOnWire(Amount(plan, k));
    RequestOnWire(Amount(plan, l));
  }

  /** In every run what a receiver reads never falls, exactly if the plan is safe. */
  lemma WireNeverFallsIff(plan: Plan)
    requires plan.max >= 0
    ensures (forall run :: NeverFalls(plan, run)) <==> SafeOnWire(plan)
  {
    if SafeOnWire(plan) {
      forall run ensures NeverFalls(plan, run) {
        SafeNeverFalls(plan, run);
      }
    } else {
      var run, k, l := UnsafeRunFalls(plan);
      assert !NeverFalls(plan, run);
    }
  }

  /** For steps below 2048: the wire never falls exactly if the first amount and the maximum lie in one block of 2048, or
      all amounts are the same. */
  lemma SmallStepSafeIff(plan: Plan)
    requires 0 <= plan.step < 2048 && plan.max >= 0
    ensures SafeOnWire(plan) <==> plan.step == 0 || Clamp(plan.base, 0, plan.max) / 2048 == plan.max / 2048
  {
    if plan.step > 0 {
      FirstTermAt(plan);
      if FirstTerm(plan) < plan.max {
        LastPlaceBounds(plan);
        TimesMore(LastPlace(plan), plan.step);
      }
    }
  }
}
