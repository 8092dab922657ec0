/** CBoard::imu_at of sp_vision_25/io/cboard.cpp: bracketing a query time between two IMU samples popped from the
    bounded queue that the CAN callback fills. */
module ImuAlign {
  import opened Scans
  import opened ThreadSafeQueue

  /** A quaternion reading `q` (its value plays no part here) with its time. */
  datatype Sample<Q> = Sample(q: Q, time: int)

  predicate InOrder<Q>(a: Sample<Q>, b: Sample<Q>) {
    a.time <= b.time
  }

  // ------------------------------------- the search over the stream of popped samples

  /** Positions of data_ahead_ and data_behind_ in the stream of popped samples. */
  datatype Bracket = Bracket(ahead: nat, behind: nat)

  predicate Within<Q>(stream: seq<Sample<Q>>, b: Bracket) {
    b.ahead < b.behind < |stream|
  }

  /** The first position from `i` on with a sample later than `t`, or the end of the stream. */
  function FirstLater<Q>(stream: seq<Sample<Q>>, i: nat, t: int): (j: nat)
    requires i <= |stream|
    ensures i <= j <= |stream|
    ensures forall k | i <= k < j :: stream[k].time <= t
    ensures j < |stream| ==> stream[j].time > t
    decreases |stream| - i
  {
    if i < |stream| && stream[i].time <= t then FirstLater(stream, i + 1, t) else i
  }

  /** What imu_at does to the two samples, given every sample it can pop; it stays blocked when none is later. */
  function Align<Q>(stream: seq<Sample<Q>>, b: Bracket, t: int): (r: Bracket)
    requires Within(stream, b)
    requires FirstLater(stream, b.behind + 1, t) < |stream|
  {
    var j := FirstLater(stream, b.behind + 1, t);
    Bracket(if j > b.behind + 1 then j - 1 else if stream[b.behind].time < t then b.behind else b.ahead, j)
  }

  predicate NoneLater<Q>(stream: seq<Sample<Q>>, i: nat, t: int) {
    forall k | i <= k < |stream| :: stream[k].time <= t
  }

  lemma FirstLaterAt<Q>(stream: seq<Sample<Q>>, i: nat, j: nat, t: int)
    requires i <= j < |stream| && NoneLater(stream[..j], i, t) && stream[j].time > t
    ensures FirstLater(stream, i, t) == j
  {
    assert forall k | i <= k < j :: stream[..j][k] == stream[k];
  }

  /** The interpolation factor. */
  function Factor(ahead: int, behind: int, t: int): real
    requires ahead != behind
  {
    (t - ahead) as real / (behind - ahead) as real
  }

  /** The share of the time from one sample to the other that has passed at `t`. */
  predicate IsShare(factor: real, ahead: int, behind: int, t: int) {
    0.0 <= factor < 1.0 && ahead as real + factor * (behind - ahead) as real == t as real
  }

  lemma FactorRange(ahead: int, behind: int, t: int)
    requires ahead <= t < behind
    ensures IsShare(Factor(ahead, behind, t), ahead, behind, t)
  {
    var num, den := (t - ahead) as real, (behind - ahead) as real;
    assert 0.0 <= num < den;
    assert Factor(ahead, behind, t) * den == num;
  }

  /** The two samples surround `t`. */
  ghost predicate Surrounds<Q>(stream: seq<Sample<Q>>, r: Bracket, t: int) {
    Within(stream, r) && stream[r.ahead].time <= t < stream[r.behind].time
  }

  lemma AlignSurrounds<Q>(stream: seq<Sample<Q>>, b: Bracket, t: int)
    requires Within(stream, b) && stream[b.ahead].time <= t
    requires FirstLater(stream, b.behind + 1, t) < |stream|
    ensures Surrounds(stream, Align(stream, b, t), t) && Align(stream, b, t).behind > b.behind
  {
  }

  /** Each query is bracketed, from a bracket whose lower end is not later than the query. */
  lemma AlignBrackets<Q>(stream: seq<Sample<Q>>, b: Bracket, t: int)
    requires Within(stream, b) && stream[b.ahead].time <= t
    requires FirstLater(stream, b.behind + 1, t) < |stream|
    ensures var r := Align(stream, b, t);
            Surrounds(stream, r, t) && r.behind > b.behind &&
            IsShare(Factor(stream[r.ahead].time, stream[r.behind].time, t), stream[r.ahead].time, stream[r.behind].time, t)
  {
    var r := Align(stream, b, t);
    AlignSurrounds(stream, b, t);
    FactorRange(stream[r.ahead].time, stream[r.behind].time, t);
  }

  /** The upper end becomes the first sample after the previous upper end that is later than the query; the lower end the
      sample before it, unless that is the previous upper end and not earlier than the query: then it stays. */
  lemma AlignIs<Q>(stream: seq<Sample<Q>>, b: Bracket, t: int)
    requires Within(stream, b) && FirstLater(stream, b.behind + 1, t) < |stream|
    ensures var r := Align(stream, b, t);
            && b.behind < r.behind < |stream| && stream[r.behind].time > t
            && (forall k | b.behind < k < r.behind :: stream[k].time <= t)
            && r.ahead == if r.behind == b.behind + 1 && stream[b.behind].time >= t then b.ahead else r.behind - 1
  {
  }

  /** The two samples are neighbours in the stream exactly when the previous upper sample was earlier than the query
      or the next sample is not later than it; otherwise the gap grows by one sample. */
  lemma NeighboursIff<Q>(stream: seq<Sample<Q>>, b: Bracket, t: int)
    requires Within(stream, b) && b.behind + 1 < |stream|
    requires FirstLater(stream, b.behind + 1, t) < |stream|
    ensures var r := Align(stream, b, t);
            (r.ahead + 1 == r.behind <==> stream[b.behind].time < t || stream[b.behind + 1].time <= t) &&
            (r.ahead + 1 != r.behind ==> r == Bracket(b.ahead, b.behind + 1))
  {
  }

  /** The bracket for `t` from the one before, if the stream has it. */
  function NextBracket<Q>(stream: seq<Sample<Q>>, b: Bracket, t: int): Option<Bracket> {
    if Within(stream, b) && FirstLater(stream, b.behind + 1, t) < |stream| then Some(Align(stream, b, t)) else None
  }

  function Aligner<Q>(stream: seq<Sample<Q>>): (Bracket, int) -> Option<Bracket> {
    (b: Bracket, t: int) => NextBracket(stream, b, t)
  }

  /** The brackets of a sequence of queries, as far as the stream allows. */
  function Brackets<Q>(stream: seq<Sample<Q>>, b: Bracket, queries: seq<int>): seq<Bracket> {
    Scan(Aligner(stream), b, queries)
  }

  predicate NonDecreasing(s: seq<int>) {
    forall i, j | 0 <= i < j < |s| :: s[i] <= s[j]
  }

  /** When all queries are answered the last answer surrounds the last query. */
  lemma {:induction false} LastSurrounds<Q>(stream: seq<Sample<Q>>, b: Bracket, queries: seq<int>)
    requires Within(stream, b) && NonDecreasing(queries) && queries != []
    requires stream[b.ahead].time <= queries[0] && |Brackets(stream, b, queries)| == |queries|
    ensures var last := Last(b, Brackets(stream, b, queries));
            Surrounds(stream, last, queries[|queries| - 1]) && last.behind >= b.behind + |queries|
  {
    var n := |queries| - 1;
    assert queries == queries[..n] + [queries[n]];
    ScanOnce(Aligner(stream), b, queries[..n], queries[n]);
    if n > 0 {
      LastSurrounds(stream, b, queries[..n]);
    }
    AlignSurrounds(stream, Last(b, Brackets(stream, b, queries[..n])), queries[n]);
  }

  /** Every query of a non-decreasing sequence that starts no earlier than the first sample is bracketed with an
      interpolation factor in [0, 1), and the n-th answer has consumed at least n further samples. */
  lemma EveryQueryBracketed<Q>(stream: seq<Sample<Q>>, b: Bracket, queries: seq<int>, n: nat)
    requires Within(stream, b) && NonDecreasing(queries)
    requires queries != [] ==> stream[b.ahead].time <= queries[0]
    requires n < |Brackets(stream, b, queries)|
    ensures var r := Brackets(stream, b, queries)[n];
            Within(stream, r) && stream[r.ahead].time <= queries[n] < stream[r.behind].time &&
            IsShare(Factor(stream[r.ahead].time, stream[r.behind].time, queries[n]),
                    stream[r.ahead].time, stream[r.behind].time, queries[n]) &&
            r.behind >= b.behind + n + 1
  {
    ScanAt(Aligner(stream), b, queries, n);
    LastSurrounds(stream, b, queries[..n + 1]);
    var r := Brackets(stream, b, queries)[n];
    FactorRange(stream[r.ahead].time, stream[r.behind].time, queries[n]);
  }

  /** The search from the samples popped `before` ends at the bracket of the alignment. */
  lemma SearchAligns<Q>(before: seq<Sample<Q>>, after: seq<Sample<Q>>, b: Bracket, t: int, aheadAt: nat)
    requires before <= after && |before| < |after| && b.ahead < b.behind == |before| - 1
    requires NoneLater(after[..|after| - 1], |before|, t) && after[|after| - 1].time > t
    requires aheadAt == if |after| - 1 > |before| then |after| - 2 else if before[b.behind].time < t then b.behind else b.ahead
    ensures FirstLater(after, |before|, t) == |after| - 1 && Align(after, b, t) == Bracket(aheadAt, |after| - 1)
    ensures before[b.ahead].time <= t ==> after[aheadAt].time <= t
  {
    FirstLaterAt(after, |before|, |after| - 1, t);
    assert after[b.behind] == before[b.behind] && after[b.ahead] == before[b.ahead];
    if before[b.ahead].time <= t {
      AlignBrackets(after, b, t);
    }
  }

  /** More samples behind do not change what has been answered. */
  lemma AlignLonger<Q>(stream: seq<Sample<Q>>, longer: seq<Sample<Q>>, b: Bracket, t: int)
    requires stream <= longer && Within(stream, b) && FirstLater(stream, b.behind + 1, t) < |stream|
    ensures FirstLater(longer, b.behind + 1, t) == FirstLater(stream, b.behind + 1, t)
    ensures Align(longer, b, t) == Align(stream, b, t)
  {
    var j := FirstLater(stream, b.behind + 1, t);
    assert forall k | 0 <= k < |stream| :: longer[k] == stream[k];
    FirstLaterAt(longer, b.behind + 1, j, t);
  }

  lemma BracketsLonger<Q>(stream: seq<Sample<Q>>, longer: seq<Sample<Q>>, b: Bracket, queries: seq<int>)
    requires stream <= longer && |Brackets(stream, b, queries)| == |queries|
    ensures Brackets(longer, b, queries) == Brackets(stream, b, queries)
  {
    forall c: Bracket, t: int | NextBracket(stream, c, t).Some?
      ensures NextBracket(longer, c, t) == NextBracket(stream, c, t)
    {
      AlignLonger(stream, longer, c, t);
    }
    ScanSame(Aligner(stream), Aligner(longer), b, queries);
  }

  /** The answers to the first queries: the samples at the brackets of the stream. */
  ghost predicate Answered<Q>(
    stream: seq<Sample<Q>>, b: Bracket, queries: seq<int>, answers: seq<(Sample<Q>, Sample<Q>)>)
  {
    && Within(stream, b) && |answers| <= |queries|
    && AreAt(stream, Brackets(stream, b, queries[..|answers|]), answers)
  }

  ghost predicate AreAt<Q>(stream: seq<Sample<Q>>, r: seq<Bracket>, answers: seq<(Sample<Q>, Sample<Q>)>) {
    |r| == |answers| && forall i | 0 <= i < |r| ::
      Within(stream, r[i]) && answers[i] == (stream[r[i].ahead], stream[r[i].behind])
  }

  lemma {:induction false} AnsweredLonger<Q>(stream: seq<Sample<Q>>, longer: seq<Sample<Q>>, b: Bracket,
                                             queries: seq<int>, answers: seq<(Sample<Q>, Sample<Q>)>)
    requires stream <= longer && Answered(stream, b, queries, answers)
    ensures Answered(longer, b, queries, answers)
    ensures Brackets(longer, b, queries[..|answers|]) == Brackets(stream, b, queries[..|answers|])
  {
    BracketsLonger(stream, longer, b, queries[..|answers|]);
  }

  lemma AreAtMore<Q>(stream: seq<Sample<Q>>, r: seq<Bracket>, answers: seq<(Sample<Q>, Sample<Q>)>, next: Bracket)
    requires AreAt(stream, r, answers) && Within(stream, next)
    ensures AreAt(stream, r + [next], answers + [(stream[next.ahead], stream[next.behind])])
  {
  }

  lemma OneMore<Q>(stream: seq<Sample<Q>>, b: Bracket, asked: seq<int>, t: int, r: seq<Bracket>, next: Bracket)
    requires r == Brackets(stream, b, asked) && |r| == |asked| && NextBracket(stream, Last(b, r), t) == Some(next)
    ensures Brackets(stream, b, asked + [t]) == r + [next]
  {
    ScanOnce(Aligner(stream), b, asked, t);
  }

  lemma AnsweredMore<Q>(stream: seq<Sample<Q>>, b: Bracket, queries: seq<int>, answers: seq<(Sample<Q>, Sample<Q>)>,
                        last: Bracket, next: Bracket)
    requires Answered(stream, b, queries, answers) && |answers| < |queries| && Within(stream, next)
    requires last == Last(b, Brackets(stream, b, queries[..|answers|]))
    requires NextBracket(stream, last, queries[|answers|]) == Some(next)
    ensures var more := answers + [(stream[next.ahead], stream[next.behind])];
            Answered(stream, b, queries, more) && next == Last(b, Brackets(stream, b, queries[..|more|]))
  {
    var n := |answers|;
    var r := Brackets(stream, b, queries[..n]);
    OneMore(stream, b, queries[..n], queries[n], r, next);
    AreAtMore(stream, r, answers, next);
    assert queries[..n + 1] == queries[..n] + [queries[n]];
  }

  /** Query `n` is the first without an answer: no sample after the last answer's is later. */
  ghost predicate Unanswered<Q>(stream: seq<Sample<Q>>, b: Bracket, queries: seq<int>, n: nat) {
    && n < |queries| && Within(stream, Last(b, Brackets(stream, b, queries[..n])))
    && NoneLater(stream, Last(b, Brackets(stream, b, queries[..n])).behind + 1, queries[n])
  }

  /** An answer that brackets its query, with a factor in [0, 1). */
  predicate IsBracket<Q>(answer: (Sample<Q>, Sample<Q>), t: int) {
    && answer.0.time <= t < answer.1.time
    && IsShare(Factor(answer.0.time, answer.1.time, t), answer.0.time, answer.1.time, t)
  }

  lemma AnswersBracket<Q>(stream: seq<Sample<Q>>, b: Bracket, queries: seq<int>, answers: seq<(Sample<Q>, Sample<Q>)>)
    requires Answered(stream, b, queries, answers) && NonDecreasing(queries)
    requires queries != [] ==> stream[b.ahead].time <= queries[0]
    ensures forall i | 0 <= i < |answers| :: IsBracket(answers[i], queries[i])
  {
    var asked := queries[..|answers|];
    forall i | 0 <= i < |answers| ensures IsBracket(answers[i], queries[i]) {
      EveryQueryBracketed(stream, b, asked, i);
    }
  }

  /** What was in the queue or popped stays, in order; of the supply nothing is lost, unless `full` values have passed
      since the queue was made: then the queue has been full. */
  ghost predicate Kept<T>(before: seq<T>, supply: seq<T>, after: seq<T>, rest: seq<T>, full: nat) {
    && before <= after
    && (after + rest == before + supply || (|after| >= full && |after| + |rest| < |before| + |supply|))
  }

  lemma KeptPush<T>(before: seq<T>, supply: seq<T>, passed: seq<T>, rest: seq<T>, dropped: bool, full: nat)
    requires Kept(before, supply, passed, rest, full) && rest != [] && (dropped ==> |passed| >= full)
    ensures Kept(before, supply, passed + if dropped then [] else [rest[0]], rest[1..], full)
  {
    assert passed + [rest[0]] + rest[1..] == passed + rest;
    assert passed + [] == passed;
    assert |passed + rest| == |passed| + |rest| && |before + supply| == |before| + |supply|;
  }

  lemma KeptTwice<T>(
    a: seq<T>, supply: seq<T>, b: seq<T>, middle: seq<T>, c: seq<T>, rest: seq<T>, full: nat, later: nat)
    requires Kept(a, supply, b, middle, full) && Kept(b, middle, c, rest, later) && full <= later
    ensures Kept(a, supply, c, rest, full)
  {
    assert |b + middle| == |b| + |middle| && |a + supply| == |a| + |supply| && |c + rest| == |c| + |rest|;
  }

  /** With room for all of the supply nothing of it is lost. */
  lemma NothingLost<T>(before: seq<T>, supply: seq<T>, after: seq<T>, rest: seq<T>, full: nat)
    requires Kept(before, supply, after, rest, full) && |before| + |supply| <= full
    ensures after + rest == before + supply
  {
  }

  lemma AllPassed<T>(popped: seq<T>, queue: seq<T>, rest: seq<T>, all: seq<T>)
    requires popped + queue + rest == all
    ensures popped <= all && (queue == [] && rest == [] ==> popped == all)
  {
  }

  lemma BlockedIff<Q>(popped: seq<Sample<Q>>, queue: seq<Sample<Q>>, rest: seq<Sample<Q>>, all: seq<Sample<Q>>,
                      start: nat, t: int, blocked: bool)
    requires popped + queue + rest == all
    requires blocked ==> queue == [] && rest == [] && NoneLater(popped, start, t)
    requires !blocked ==> |popped| > start && popped[|popped| - 1].time > t
    ensures blocked <==> NoneLater(all, start, t)
  {
    if blocked {
      assert popped == all;
    } else {
      assert all[|popped| - 1] == popped[|popped| - 1];
    }
  }

  /** The answers to all queries for which the stream has one. */
  ghost predicate AnsweredWholly<Q>(
    stream: seq<Sample<Q>>, b: Bracket, queries: seq<int>, answers: seq<(Sample<Q>, Sample<Q>)>)
  {
    Within(stream, b) && AreAt(stream, Brackets(stream, b, queries), answers)
  }

  /** The answers given from the samples popped so far are all that the whole stream has. */
  lemma {:induction false} AllAnswered<Q>(popped: seq<Sample<Q>>, all: seq<Sample<Q>>, b: Bracket, queries: seq<int>,
                                          answers: seq<(Sample<Q>, Sample<Q>)>)
    requires popped <= all && Answered(popped, b, queries, answers)
    requires |answers| < |queries| ==> popped == all && Unanswered(popped, b, queries, |answers|)
    ensures AnsweredWholly(all, b, queries, answers)
  {
    AnsweredLonger(popped, all, b, queries, answers);
    if |answers| < |queries| {
      ScanStops(Aligner(all), b, queries, |answers|);
    } else {
      assert queries[..|answers|] == queries;
    }
  }

  // --------------------------------------------------------------- the class

  class CBoard<Q(==)> {
    const queue: Queue<Sample<Q>>
    var ahead: Sample<Q>
    var behind: Sample<Q>
    ghost var aheadAt: nat

    /** The queue drops when full, and this board's reader is its only consumer. */
    ghost predicate Valid0()
      reads queue
    {
      queue.Valid() && !queue.popWhenFull && queue.asleep + queue.awake == 1
    }

    ghost predicate Valid()
      reads this, queue
    {
      && Valid0() && queue.awake == 1
      && queue.popped != [] && behind == queue.popped[|queue.popped| - 1]
      && aheadAt + 1 < |queue.popped| && ahead == queue.popped[aheadAt]
    }

    /** Nothing is left to come, nothing is in the queue, and the reader sleeps. */
    ghost predicate Starved(rest: seq<Sample<Q>>)
      reads this, queue
    {
      rest == [] && queue.queue == [] && queue.asleep == 1
    }

    ghost function Position(): Bracket
      reads this, queue
      requires Valid()
    {
      Bracket(aheadAt, |queue.popped| - 1)
    }

    constructor (queue: Queue<Sample<Q>>, first: Sample<Q>, second: Sample<Q>)
      requires queue.Valid() && !queue.popWhenFull && queue.asleep == 0 && queue.awake == 1
      requires queue.popped == [first, second]
      ensures Valid() && this.queue == queue && Position() == Bracket(0, 1)
    {
      this.queue := queue;
      ahead, behind, aheadAt := first, second, 0;
    }

    /** The source's constructor: it waits for two samples, while the callback is already running. When the supply runs
        out first it stays blocked and there is no board. */
    static method Open(queue: Queue<Sample<Q>>, supply: seq<Sample<Q>>)
      returns (board: CBoard?<Q>, rest: seq<Sample<Q>>)
      requires queue.Valid() && !queue.popWhenFull && queue.asleep == 0 && queue.awake == 1 && queue.popped == []
      modifies queue
      ensures queue.Valid() && queue.pushed + rest == old(queue.pushed) + supply
      ensures board == null ==> rest == [] && queue.asleep == 1 && queue.queue == [] && |queue.popped| < 2
      ensures board != null ==> board.Valid() && board.queue == queue && board.Position() == Bracket(0, 1)
      ensures board != null ==> fresh(board)
      ensures Kept(old(queue.passed), supply, queue.passed, rest, old(Full(queue)))
    {
      board := null;
      ghost var full := Full(queue);
      var blocked, first, second;
      blocked, first, rest := PopSample(queue, supply);
      if !blocked {
        ghost var middle, passed, later := rest, queue.passed, Full(queue);
        blocked, second, rest := PopSample(queue, rest);
        KeptTwice(old(queue.passed), supply, passed, middle, queue.passed, rest, full, later);
        if !blocked {
          assert queue.popped == [] + first + second == [first[0], second[0]];
          board := new CBoard(queue, first[0], second[0]);
        }
      }
    }

    /** There is room in the queue for all of the supply. */
    static ghost predicate Room(queue: Queue<Sample<Q>>, supply: seq<Sample<Q>>)
      reads queue
    {
      |supply| + |queue.queue| <= queue.maxSize
    }

    /** How many values have passed at least when the queue is full. */
    static ghost function Full(queue: Queue<Sample<Q>>): nat
      reads queue
    {
      |queue.popped| + queue.maxSize
    }

    /** The CAN callback takes in one sample; a full queue drops it. */
    static method Callback(queue: Queue<Sample<Q>>, supply: seq<Sample<Q>>) returns (rest: seq<Sample<Q>>)
      requires queue.Valid() && !queue.popWhenFull && supply != []
      modifies queue
      ensures queue.Valid() && queue.popped == old(queue.popped)
      ensures queue.asleep + queue.awake == old(queue.asleep) + old(queue.awake) && queue.asleep <= old(queue.asleep)
      ensures rest == supply[1..] && queue.pushed == old(queue.pushed) + [supply[0]]
      ensures |queue.queue| <= |old(queue.queue)| + 1
      ensures Kept(old(queue.passed), supply, queue.passed, rest, old(Full(queue)))
    {
      ghost var passed, full := queue.passed, Full(queue);
      var dropped := queue.Push(supply[0]);
      KeptPush(passed, supply, passed, supply, dropped, full);
      rest := supply[1..];
    }

    /** The CAN callback runs for at least `least` samples of `supply`. */
    static method Deliver(queue: Queue<Sample<Q>>, supply: seq<Sample<Q>>, least: nat) returns (rest: seq<Sample<Q>>)
      requires queue.Valid() && !queue.popWhenFull && least <= |supply|
      modifies queue
      ensures queue.Valid() && queue.popped == old(queue.popped)
      ensures queue.asleep + queue.awake == old(queue.asleep) + old(queue.awake) && queue.asleep <= old(queue.asleep)
      ensures queue.pushed + rest == old(queue.pushed) + supply
      ensures |rest| + least <= |supply| && |rest| + |queue.queue| <= |supply| + |old(queue.queue)|
      ensures Kept(old(queue.passed), supply, queue.passed, rest, old(Full(queue)))
    {
      var n :| least <= n <= |supply|;
      ghost var full := Full(queue);
      rest := supply;
      for i := 0 to n
        invariant queue.Valid() && queue.popped == old(queue.popped)
        invariant queue.asleep + queue.awake == old(queue.asleep) + old(queue.awake) && queue.asleep <= old(queue.asleep)
        invariant |rest| == |supply| - i && queue.pushed + rest == old(queue.pushed) + supply
        invariant |rest| + |queue.queue| <= |supply| + |old(queue.queue)|
        invariant Kept(old(queue.passed), supply, queue.passed, rest, full)
      {
        ghost var middle, passed, pushed := rest, queue.passed, queue.pushed;
        rest := Callback(queue, rest);
        KeptTwice(old(queue.passed), supply, passed, middle, queue.passed, rest, full, full);
        assert pushed + [middle[0]] + middle[1..] == pushed + middle;
      }
    }

    /** A blocking pop of the only consumer: the callback runs before it, and while it sleeps. It is woken by a sample or
        for no reason, and looks again. */
    static method PopSample(queue: Queue<Sample<Q>>, supply: seq<Sample<Q>>)
      returns (blocked: bool, value: seq<Sample<Q>>, rest: seq<Sample<Q>>)
      requires queue.Valid() && !queue.popWhenFull && queue.asleep == 0 && queue.awake == 1
      modifies queue
      ensures queue.Valid() && queue.asleep + queue.awake == 1
      ensures queue.pushed + rest == old(queue.pushed) + supply
      ensures queue.popped == old(queue.popped) + value && |value| == if blocked then 0 else 1
      ensures blocked ==> rest == [] && queue.asleep == 1 && queue.queue == []
      ensures |rest| + |queue.queue| <= |supply| + |old(queue.queue)|
      ensures !blocked ==> queue.awake == 1 && |rest| + |queue.queue| < |supply| + |old(queue.queue)|
      ensures Kept(old(queue.passed), supply, queue.passed, rest, old(Full(queue)))
    {
      ghost var full := Full(queue);
      rest := Deliver(queue, supply, 0);
      blocked, value := queue.Pop();
      while blocked && rest != []
        invariant queue.Valid() && queue.asleep == (if blocked then 1 else 0) && queue.asleep + queue.awake == 1
        invariant queue.popped == old(queue.popped) + value && |value| == if blocked then 0 else 1
        invariant queue.pushed + rest == old(queue.pushed) + supply
        invariant |rest| + |queue.queue| + |value| <= |supply| + |old(queue.queue)|
        invariant Kept(old(queue.passed), supply, queue.passed, rest, full)
        decreases |rest|
      {
        ghost var middle, passed, later := rest, queue.passed, Full(queue);
        rest := Deliver(queue, rest, 1);
        KeptTwice(old(queue.passed), supply, passed, middle, queue.passed, rest, full, later);
        if queue.asleep > 0 {
          var spurious: bool := *;
          if spurious {
            queue.Wake();
          }
        }
        if queue.awake > 0 {
          blocked, value := queue.Pop();
        }
      }
    }

    /** imu_at. `supply` is what the callback will still deliver, at any moment before, between or after the pops. The call
        stays blocked only if the supply runs out and every sample in the queue has been popped and was not later; with
        room for the whole supply exactly if no sample in the queue or the supply is. */
    method ImuAt(timestamp: int, supply: seq<Sample<Q>>) returns (blocked: bool, rest: seq<Sample<Q>>)
      requires Valid()
      modifies this, queue
      ensures Valid0() && queue.pushed + rest == old(queue.pushed) + supply && old(queue.popped) <= queue.popped
      ensures !blocked ==> Valid() && FirstLater(queue.popped, |old(queue.popped)|, timestamp) == |queue.popped| - 1
      ensures !blocked ==> Position() == Align(queue.popped, old(Position()), timestamp)
      ensures !blocked && old(ahead).time <= timestamp ==> ahead.time <= timestamp < behind.time
      ensures blocked ==> Starved(rest) && NoneLater(queue.popped, |old(queue.popped)|, timestamp)
      ensures Kept(old(queue.passed), supply, queue.passed, rest, old(Full(queue)))
      ensures |rest| + |queue.queue| <= |supply| + |old(queue.queue)|
      ensures old(Room(queue, supply)) ==>
                (blocked <==> NoneLater(old(queue.passed) + supply, |old(queue.popped)|, timestamp))
    {
      ghost var popped, b, all, room := queue.popped, Position(), queue.passed + supply, Room(queue, supply);
      rest := supply;
      if behind.time < timestamp {
        ahead, aheadAt := behind, b.behind;
      }
      blocked, rest := Search(timestamp, rest);
      if !blocked {
        SearchAligns(popped, queue.popped, b, timestamp, aheadAt);
      }
      if room {
        NothingLost(old(queue.passed), supply, queue.passed, rest, old(Full(queue)));
        BlockedIff(queue.popped, queue.queue, rest, all, |popped|, timestamp, blocked);
      }
    }

    /** The loop of imu_at. */
    method Search(timestamp: int, supply: seq<Sample<Q>>) returns (blocked: bool, rest: seq<Sample<Q>>)
      requires Valid0() && queue.awake == 1 && aheadAt < |queue.popped| && ahead == queue.popped[aheadAt]
      modifies this, queue
      ensures Valid0() && queue.pushed + rest == old(queue.pushed) + supply && old(queue.popped) <= queue.popped
      ensures blocked ==> Starved(rest) && NoneLater(queue.popped, |old(queue.popped)|, timestamp)
      ensures !blocked ==> Valid() && |old(queue.popped)| < |queue.popped| && behind.time > timestamp
      ensures !blocked ==> NoneLater(queue.popped[..|queue.popped| - 1], |old(queue.popped)|, timestamp)
      ensures !blocked ==>
                aheadAt == if |queue.popped| - 1 > |old(queue.popped)| then |queue.popped| - 2 else old(aheadAt)
      ensures Kept(old(queue.passed), supply, queue.passed, rest, old(Full(queue)))
      ensures |rest| + |queue.queue| <= |supply| + |old(queue.queue)|
    {
      ghost var start, full := |queue.popped|, Full(queue);
      rest := supply;
      while true
        invariant Valid0() && queue.awake == 1
        invariant queue.pushed + rest == old(queue.pushed) + supply && old(queue.popped) <= queue.popped
        invariant NoneLater(queue.popped, start, timestamp)
        invariant aheadAt < |queue.popped| && ahead == queue.popped[aheadAt]
        invariant aheadAt == if |queue.popped| > start then |queue.popped| - 1 else old(aheadAt)
        invariant Kept(old(queue.passed), supply, queue.passed, rest, full)
        invariant |rest| + |queue.queue| <= |supply| + |old(queue.queue)|
        decreases |rest| + |queue.queue|
      {
        ghost var middle, passed, later := rest, queue.passed, Full(queue);
        var sample;
        blocked, sample, rest := PopSample(queue, rest);
        KeptTwice(old(queue.passed), supply, passed, middle, queue.passed, rest, full, later);
        if blocked {
          return true, rest;
        }
        behind := sample[0];
        if behind.time > timestamp {
          return false, rest;
        }
        ahead, aheadAt := behind, |queue.popped| - 1;
      }
    }

    /** The calls of a caller that asks for one time after the other. */
    method Ask(queries: seq<int>, supply: seq<Sample<Q>>)
      returns (answers: seq<(Sample<Q>, Sample<Q>)>, rest: seq<Sample<Q>>)
      requires Valid()
      modifies this, queue
      ensures Valid0() && queue.pushed + rest == old(queue.pushed) + supply && old(queue.popped) <= queue.popped
      ensures Kept(old(queue.passed), supply, queue.passed, rest, old(Full(queue)))
      ensures Answered(queue.popped, old(Position()), queries, answers)
      ensures |answers| < |queries| ==> Starved(rest) && Unanswered(queue.popped, old(Position()), queries, |answers|)
    {
      answers, rest := [], supply;
      ghost var start, full := Position(), Full(queue);
      var blocked := false;
      while !blocked && |answers| < |queries|
        invariant Valid0() && old(queue.popped) <= queue.popped
        invariant queue.pushed + rest == old(queue.pushed) + supply
        invariant Answered(queue.popped, start, queries, answers)
        invariant if blocked then |answers| < |queries| && Starved(rest) && Unanswered(queue.popped, start, queries, |answers|)
                  else Valid() && Position() == Last(start, Brackets(queue.popped, start, queries[..|answers|]))
        invariant Kept(old(queue.passed), supply, queue.passed, rest, full)
        decreases |queries| - |answers|, !blocked
      {
        ghost var before, last := queue.popped, Position();
        ghost var middle, passed, later := rest, queue.passed, Full(queue);
        blocked, rest := ImuAt(queries[|answers|], rest);
        KeptTwice(old(queue.passed), supply, passed, middle, queue.passed, rest, full, later);
        AnsweredLonger(before, queue.popped, start, queries, answers);
        if !blocked {
          AnsweredMore(queue.popped, start, queries, answers, last, Position());
          answers := answers + [(ahead, behind)];
        }
      }
    }

    /** A caller that asks for one time after the other. Every answer brackets its query with a factor in [0, 1), and the
        answers are those of the alignment on the stream of popped samples; when not all queries are answered the supply
        has run out, the queue is empty and no sample popped since the last answer is later than the query that waits.
        If there is room for the whole supply, so that no push is dropped, the answers are exactly those that the whole
        stream has. Samples that were pushed in time order are popped in it, whatever a full queue dropped. */
    method AnswerAll(queries: seq<int>, supply: seq<Sample<Q>>)
      returns (answers: seq<(Sample<Q>, Sample<Q>)>, rest: seq<Sample<Q>>)
      requires Valid() && NonDecreasing(queries) && (queries != [] ==> ahead.time <= queries[0])
      modifies this, queue
      ensures queue.pushed + rest == old(queue.pushed) + supply && old(queue.popped) <= queue.popped
      ensures Kept(old(queue.passed), supply, queue.passed, rest, old(Full(queue)))
      ensures |answers| <= |queries|
      ensures forall i | 0 <= i < |answers| :: IsBracket(answers[i], queries[i])
      ensures Answered(queue.popped, old(Position()), queries, answers)
      ensures |answers| < |queries| ==> Starved(rest) && Unanswered(queue.popped, old(Position()), queries, |answers|)
      ensures old(Room(queue, supply)) ==>
                AnsweredWholly(old(queue.passed) + supply, old(Position()), queries, answers)
      ensures Chain(InOrder<Q>, old(queue.pushed) + supply) ==> Chain(InOrder<Q>, queue.popped)
    {
      ghost var start, full, room, before := Position(), Full(queue), Room(queue, supply), queue.passed;
      answers, rest := Ask(queries, supply);
      AnswersBracket(queue.popped, start, queries, answers);
      if room {
        NothingLost(before, supply, queue.passed, rest, full);
        AllPassed(queue.popped, queue.queue, rest, before + supply);
        AllAnswered(queue.popped, before + supply, start, queries, answers);
      }
      if Chain(InOrder<Q>, old(queue.pushed) + supply) {
        ChainPrefix(InOrder<Q>, queue.pushed, rest);
        PopsKeepOrder(queue, InOrder<Q>);
      }
    }
  }

  lemma ChainPrefix<T>(r: (T, T) -> bool, s: seq<T>, t: seq<T>)
    requires Chain(r, s + t)
    ensures Chain(r, s)
  {
    forall i, j | 0 <= i < j < |s| ensures r(s[i], s[j]) {
      assert r((s + t)[i], (s + t)[j]);
    }
  }
}
