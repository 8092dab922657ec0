/** tools::OrderedQueue of sp_vision_25/tools/thread_pool.hpp: a reorder buffer that releases frames by id. */
module OrderedQueue {

  datatype Frame<T> = Frame(id: int, content: T)

  /** The queue's fields, and how many consumers sleep in the wait or are on their way to test its predicate. */
  datatype State<T> = State(main: seq<Frame<T>>, buffer: map<int, Frame<T>>, current: int, asleep: nat, awake: nat)

  /** The release of consecutive buffered ids. */
  function Drain<T>(main: seq<Frame<T>>, buffer: map<int, Frame<T>>, current: int)
    : (r: (seq<Frame<T>>, map<int, Frame<T>>, int))
    decreases |buffer|
  {
    if current in buffer then Drain(main + [buffer[current]], buffer - {current}, current + 1)
    else (main, buffer, current)
  }

  function NotifyOne<T>(s: State<T>): State<T> {
    if s.asleep > 0 then s.(asleep := s.asleep - 1, awake := s.awake + 1) else s
  }

  function Enqueue<T>(s: State<T>, item: Frame<T>): State<T> {
    if item.id < s.current then s
    else if item.id == s.current then
      var (main, buffer, current) := Drain(s.main + [item], s.buffer, s.current + 1);
      NotifyOne(s.(main := main, buffer := buffer, current := current))
    else s.(buffer := s.buffer[item.id := item])
  }

  /** One pass of a consumer through the locked part of dequeue: it falls asleep or takes the front frame. */
  function Dequeue<T>(s: State<T>): State<T>
    requires s.awake > 0
  {
    if s.main == [] then s.(asleep := s.asleep + 1, awake := s.awake - 1) else s.(main := s.main[1..])
  }

  function Empty<T>(consumers: nat): State<T> {
    State([], map[], 1, 0, consumers)
  }

  /** The class: the fields the source has, updated in place. */
  class Queue<T> {
    var main: seq<Frame<T>>
    var buffer: map<int, Frame<T>>
    var current: int
    ghost var asleep: nat
    ghost var awake: nat

    ghost function View(): State<T>
      reads this
    {
      State(main, buffer, current, asleep, awake)
    }

    constructor (consumers: nat)
      ensures View() == Empty(consumers)
    {
      main, buffer, current := [], map[], 1;
      asleep, awake := 0, consumers;
    }

    method EnqueueItem(item: Frame<T>)
      modifies this
      ensures View() == Enqueue(old(View()), item)
    {
      if item.id < current {
        return;
      }
      if item.id == current {
        ghost var released := Drain(main + [item], buffer, current + 1);
        main := main + [item];
        current := current + 1;
        while current in buffer
          invariant Drain(main, buffer, current) == released
          invariant asleep == old(asleep) && awake == old(awake)
          decreases |buffer|
        {
          main := main + [buffer[current]];
          buffer := buffer - {current};
          current := current + 1;
        }
        if asleep > 0 {
          asleep, awake := asleep - 1, awake + 1;
        }
      } else {
        buffer := buffer[item.id := item];
      }
    }

    method DequeueItem() returns (blocked: bool, item: seq<Frame<T>>)
      requires awake > 0
      modifies this
      ensures View() == Dequeue(old(View()))
      ensures if blocked then old(main) == [] && item == [] else |item| == 1 && old(main) == item + main
    {
      if main == [] {
        asleep, awake := asleep + 1, awake - 1;
        return true, [];
      }
      item := [main[0]];
      main := main[1..];
      blocked := false;
    }

    method TryDequeueItem() returns (item: seq<Frame<T>>)
      modifies this`main
      ensures old(main) == item + main && (if old(main) == [] then item == [] else |item| == 1)
    {
      if main == [] {
        return [];
      }
      item := [main[0]];
      main := main[1..];
    }
  }

  // --------------------------------------------- the order frames come out in

  predicate HasId<T>(arrived: seq<Frame<T>>, id: int) {
    exists j :: 0 <= j < |arrived| && arrived[j].id == id
  }

  predicate HasAll<T>(arrived: seq<Frame<T>>, n: int) {
    forall i | 1 <= i <= n :: HasId(arrived, i)
  }

  /** The last arrival with the given id. */
  function Latest<T>(arrived: seq<Frame<T>>, id: int): (f: Frame<T>)
    requires HasId(arrived, id)
    ensures f.id == id
  {
    var n := |arrived| - 1;
    if arrived[n].id == id then arrived[n]
    else
      assert HasId(arrived[..n], id) by {
        var j :| 0 <= j < |arrived| && arrived[j].id == id;
        assert arrived[..n][j].id == id;
      }
      Latest(arrived[..n], id)
  }

  /** The frame the queue must release for an id: the latest one with that id at the moment when all ids up to it had
      arrived for the first time. */
  function Released<T(!new)>(arrived: seq<Frame<T>>, id: int): (f: Frame<T>)
    requires id >= 1 && HasAll(arrived, id)
    ensures f.id == id
    decreases |arrived|
  {
    assert HasId(arrived, 1);
    var before := arrived[..|arrived| - 1];
    if HasAll(before, id) then Released(before, id) else Latest(arrived, id)
  }

  /** What the queue's state must be after `arrived` arrivals of which `out` have been released. */
  ghost predicate Inv<T(!new)>(s: State<T>, arrived: seq<Frame<T>>, out: seq<Frame<T>>) {
    && s.current == |out| + 1
    && HasAll(arrived, |out|) && !HasId(arrived, s.current)
    && (forall k | 0 <= k < |out| :: out[k] == Released(arrived, k + 1))
    && (forall id :: id in s.buffer <==> id > s.current && HasId(arrived, id))
    && (forall id | id in s.buffer :: s.buffer[id] == Latest(arrived, id))
  }

  lemma HasIdMore<T>(arrived: seq<Frame<T>>, item: Frame<T>, id: int)
    ensures HasId(arrived + [item], id) <==> HasId(arrived, id) || id == item.id
    ensures id == item.id ==> Latest(arrived + [item], id) == item
    ensures HasId(arrived, id) && id != item.id ==> Latest(arrived + [item], id) == Latest(arrived, id)
  {
    var more := arrived + [item];
    assert more[|arrived|] == item;
    assert more[..|arrived|] == arrived;
    if HasId(arrived, id) {
      var j :| 0 <= j < |arrived| && arrived[j].id == id;
      assert more[j].id == id;
    }
    if HasId(more, id) && id != item.id {
      var j :| 0 <= j < |more| && more[j].id == id;
      assert arrived[j].id == id;
    }
  }

  lemma ReleasedMore<T(!new)>(arrived: seq<Frame<T>>, item: Frame<T>, id: int)
    requires id >= 1 && HasAll(arrived, id)
    ensures HasAll(arrived + [item], id) && Released(arrived + [item], id) == Released(arrived, id)
  {
    forall i | 1 <= i <= id ensures HasId(arrived + [item], i) {
      HasIdMore(arrived, item, i);
    }
    assert (arrived + [item])[..|arrived|] == arrived;
  }

  lemma ReleasedNow<T(!new)>(arrived: seq<Frame<T>>, item: Frame<T>, id: int)
    requires id >= 1 && HasAll(arrived + [item], id) && !HasAll(arrived, id)
    ensures Released(arrived + [item], id) == Latest(arrived + [item], id)
  {
    assert (arrived + [item])[..|arrived|] == arrived;
  }

  /** What draining releases: the buffered frames with the consecutive ids from `current` on, and no others. */
  lemma {:induction false} DrainReleases<T>(main: seq<Frame<T>>, buffer: map<int, Frame<T>>, current: int)
    ensures var (main', buffer', current') := Drain(main, buffer, current);
            && current <= current' && current' !in buffer
            && (forall i | current <= i < current' :: i in buffer)
            && |main'| == |main| + current' - current && main' [..|main|] == main
            && (forall i | current <= i < current' :: main'[|main| + i - current] == buffer[i])
            && (forall i :: i in buffer' <==> i in buffer && !(current <= i < current'))
            && (forall i | i in buffer' :: buffer'[i] == buffer[i])
    decreases |buffer|
  {
    if current in buffer {
      var rest := buffer - {current};
      var (main', buffer', current') := Drain(main + [buffer[current]], rest, current + 1);
      DrainReleases(main + [buffer[current]], rest, current + 1);
      assert main'[|main|] == (main'[..|main| + 1])[|main|] == buffer[current];
      forall i | current <= i < current' ensures i in buffer && main'[|main| + i - current] == buffer[i] {
        if i > current {
          assert i in rest && main'[|main| + 1 + i - (current + 1)] == rest[i];
        }
      }
      assert main'[..|main|] == main'[..|main| + 1][..|main|];
    }
  }

  lemma EnqueueInv<T(!new)>(s: State<T>, arrived: seq<Frame<T>>, out: seq<Frame<T>>, item: Frame<T>)
    returns (released: seq<Frame<T>>)
    requires Inv(s, arrived, out)
    ensures Enqueue(s, item).main == s.main + released
    ensures Inv(Enqueue(s, item), arrived + [item], out + released)
  {
    var more := arrived + [item];
    forall id {
      HasIdMore(arrived, item, id);
    }
    forall k | 0 <= k < |out| ensures HasAll(more, k + 1) && out[k] == Released(more, k + 1) {
      ReleasedMore(arrived, item, k + 1);
    }
    released := [];
    assert out + released == out && s.main + released == s.main;
    if item.id == s.current {
      DrainReleases(s.main + [item], s.buffer, s.current + 1);
      released := Enqueue(s, item).main[|s.main|..];
      ReleasedByDrain(s, arrived, out, item, released);
    }
  }

  lemma ReleasedByDrain<T(!new)>(
    s: State<T>, arrived: seq<Frame<T>>, out: seq<Frame<T>>, item: Frame<T>, released: seq<Frame<T>>)
    requires Inv(s, arrived, out) && item.id == s.current
    requires |Enqueue(s, item).main| >= |s.main| && released == Enqueue(s, item).main[|s.main|..]
    ensures Enqueue(s, item).main == s.main + released
    ensures Inv(Enqueue(s, item), arrived + [item], out + released)
  {
    var more, t := arrived + [item], Enqueue(s, item);
    DrainExtends(s, item);
    forall k | 0 <= k < |out + released| ensures HasAll(more, k + 1) && (out + released)[k] == Released(more, k + 1) {
      if k < |out| {
        ReleasedMore(arrived, item, k + 1);
      } else {
        NewlyReleased(s, arrived, out, item, k + 1);
      }
    }
    NewlyReleased(s, arrived, out, item, t.current - 1);
    BufferAfterDrain(s, arrived, out, item);
  }

  lemma DrainExtends<T>(s: State<T>, item: Frame<T>)
    requires item.id == s.current
    ensures var t := Enqueue(s, item);
            t.current > s.current && |t.main| == |s.main| + t.current - s.current && t.main[..|s.main|] == s.main
  {
    var t := Enqueue(s, item);
    DrainReleases(s.main + [item], s.buffer, s.current + 1);
    assert t.main[..|s.main|] == t.main[..|s.main| + 1][..|s.main|] == s.main;
  }

  lemma BufferAfterDrain<T(!new)>(s: State<T>, arrived: seq<Frame<T>>, out: seq<Frame<T>>, item: Frame<T>)
    requires Inv(s, arrived, out) && item.id == s.current
    ensures var t, more := Enqueue(s, item), arrived + [item];
            && !HasId(more, t.current)
            && (forall id :: id in t.buffer <==> id > t.current && HasId(more, id))
            && (forall id | id in t.buffer :: t.buffer[id] == Latest(more, id))
  {
    DrainReleases(s.main + [item], s.buffer, s.current + 1);
    forall id {
      HasIdMore(arrived, item, id);
    }
  }

  lemma NewlyReleased<T(!new)>(s: State<T>, arrived: seq<Frame<T>>, out: seq<Frame<T>>, item: Frame<T>, id: int)
    requires Inv(s, arrived, out) && item.id == s.current <= id < Enqueue(s, item).current
    ensures |Enqueue(s, item).main| > |s.main| + id - s.current
    ensures HasAll(arrived + [item], id)
    ensures Enqueue(s, item).main[|s.main| + id - s.current] == Released(arrived + [item], id)
  {
    var t := Enqueue(s, item);
    DrainReleases(s.main + [item], s.buffer, s.current + 1);
    forall i | 1 <= i <= id ensures HasId(arrived + [item], i) {
      HasIdMore(arrived, item, i);
    }
    ReleasedNow(arrived, item, id);
    HasIdMore(arrived, item, id);
    if id == s.current {
      assert t.main[|s.main|] == (t.main[..|s.main| + 1])[|s.main|] == item;
    } else {
      assert t.main[|s.main + [item]| + id - (s.current + 1)] == s.buffer[id];
    }
  }

  // -------------------------------------------------------------- whole runs

  datatype Action<T> = Arrive(item: Frame<T>) | Consume | Poll | SpuriousWake

  /** A queue together with everything that has arrived and everything handed to consumers, in order. */
  datatype History<T> = History(state: State<T>, arrived: seq<Frame<T>>, delivered: seq<Frame<T>>)

  predicate Enabled<T>(s: State<T>, a: Action<T>) {
    match a
    case Arrive(_) => true
    case Consume => s.awake > 0
    case Poll => true
    case SpuriousWake => s.asleep > 0
  }

  function Step<T>(s: State<T>, a: Action<T>): State<T>
    requires Enabled(s, a)
  {
    match a
    case Arrive(item) => Enqueue(s, item)
    case Consume => Dequeue(s)
    case Poll => if s.main == [] then s else s.(main := s.main[1..])
    case SpuriousWake => s.(asleep := s.asleep - 1, awake := s.awake + 1)
  }

  function Record<T(==)>(h: History<T>, a: Action<T>): History<T>
    requires Enabled(h.state, a)
  {
    var handed := if (a.Consume? || a.Poll?) && h.state.main != [] then [h.state.main[0]] else [];
    History(Step(h.state, a), if a.Arrive? then h.arrived + [a.item] else h.arrived, h.delivered + handed)
  }

  predicate Possible<T(==)>(h: History<T>, run: seq<Action<T>>)
    decreases |run|
  {
    run == [] || (Enabled(h.state, run[0]) && Possible(Record(h, run[0]), run[1..]))
  }

  function After<T(==)>(h: History<T>, run: seq<Action<T>>): History<T>
    requires Possible(h, run)
    decreases |run|
  {
    if run == [] then h else After(Record(h, run[0]), run[1..])
  }

  function Start<T>(consumers: nat): History<T> {
    History(Empty(consumers), [], [])
  }

  ghost predicate Ordered<T(!new)>(h: History<T>) {
    Inv(h.state, h.arrived, h.delivered + h.state.main)
  }

  lemma RecordOrdered<T(!new)>(h: History<T>, a: Action<T>)
    requires Enabled(h.state, a) && Ordered(h)
    ensures Ordered(Record(h, a))
  {
    var s, t := h.state, Record(h, a);
    if a.Arrive? {
      var released := EnqueueInv(s, h.arrived, h.delivered + s.main, a.item);
      assert h.delivered + s.main + released == t.delivered + t.state.main;
    } else {
      assert t.delivered + t.state.main == h.delivered + s.main;
    }
  }

  lemma {:induction false} RunOrdered<T(!new)>(h: History<T>, run: seq<Action<T>>)
    requires Possible(h, run) && Ordered(h)
    ensures Ordered(After(h, run))
    decreases |run|
  {
    if run != [] {
      RecordOrdered(h, run[0]);
      RunOrdered(Record(h, run[0]), run[1..]);
    }
  }

  /** For every order of arrival, with duplicates, gaps and stale ids, and however consumption is interleaved: what has
      been delivered followed by what waits in the queue is exactly the frames 1, 2, ... up to the first missing id,
      each the latest of its id when it became releasable; and the buffer holds exactly the later ids. */
  lemma DeliveredInOrder<T(!new)>(consumers: nat, run: seq<Action<T>>)
    requires Possible(Start(consumers), run)
    ensures var h := After(Start(consumers), run);
            var out := h.delivered + h.state.main;
            && |out| == h.state.current - 1 && !HasId(h.arrived, h.state.current)
            && (forall k | 0 <= k < |out| ::
                  out[k].id == k + 1 && HasAll(h.arrived, k + 1) && out[k] == Released(h.arrived, k + 1))
            && (forall id :: id in h.state.buffer <==> id > h.state.current && HasId(h.arrived, id))
  {
    RunOrdered(Start(consumers), run);
  }

  /** Once 1..n have all arrived, in any order, all of them have been delivered or wait to be. */
  lemma AllArrivedAllReleased<T(!new)>(consumers: nat, run: seq<Action<T>>, n: nat)
    requires Possible(Start(consumers), run) && HasAll(After(Start(consumers), run).arrived, n)
    ensures var h := After(Start(consumers), run); n <= |h.delivered + h.state.main|
  {
    RunOrdered(Start(consumers), run);
  }

  // ---------------------------------------------------------------- wake-ups

  /** Nobody sleeps while more frames wait than consumers are awake to fetch them. */
  predicate Covered<T(==)>(s: State<T>) {
    s.asleep > 0 ==> |s.main| <= s.awake
  }

  /** An arrival for which one notify_one is too little: it fills the gap in front of so many consecutive buffered ids
      that, with one consumer woken, more frames wait than consumers are awake, while another still sleeps. */
  predicate Outnumbers<T>(s: State<T>, a: Action<T>) {
    && a.Arrive? && a.item.id == s.current && s.asleep > 1
    && forall id | s.current < id <= s.current + s.awake + 1 - |s.main| :: id in s.buffer
  }

  /** From a state in which nobody misses a frame, an arrival of that kind is the only step that leads to one in which
      somebody does. */
  lemma OneNotificationIsEnoughIff<T>(s: State<T>, a: Action<T>)
    requires Covered(s) && Enabled(s, a)
    ensures Covered(Step(s, a)) <==> !Outnumbers(s, a)
  {
    if a.Arrive? && a.item.id == s.current {
      DrainReleases(s.main + [a.item], s.buffer, s.current + 1);
      var t := Step(s, a);
      assert |t.main| == |s.main| + t.current - s.current && t.current !in s.buffer;
    }
  }

  /** Nobody misses a frame at any time in the run. */
  predicate CoveredThroughout<T(==)>(h: History<T>, run: seq<Action<T>>)
    requires Possible(h, run)
    decreases |run|
  {
    Covered(h.state) && (run == [] || CoveredThroughout(Record(h, run[0]), run[1..]))
  }

  predicate NeverOutnumbered<T(==)>(h: History<T>, run: seq<Action<T>>)
    requires Possible(h, run)
    decreases |run|
  {
    run == [] || (!Outnumbers(h.state, run[0]) && NeverOutnumbered(Record(h, run[0]), run[1..]))
  }

  lemma {:induction false} RunCoveredIff<T>(h: History<T>, run: seq<Action<T>>)
    requires Covered(h.state) && Possible(h, run)
    ensures CoveredThroughout(h, run) <==> NeverOutnumbered(h, run)
    decreases |run|
  {
    if run != [] {
      OneNotificationIsEnoughIff(h.state, run[0]);
      if !Outnumbers(h.state, run[0]) {
        RunCoveredIff(Record(h, run[0]), run[1..]);
      }
    }
  }

  /** In a run of any number of consumers nobody ever sleeps un-notified beside a frame nobody else is awake for exactly
      if no arrival of the run is of that kind. */
  lemma OneNotificationSufficesIff<T>(consumers: nat, run: seq<Action<T>>)
    requires Possible(Start(consumers), run)
    ensures CoveredThroughout(Start(consumers), run) <==> NeverOutnumbered(Start(consumers), run)
  {
    RunCoveredIff(Start(consumers), run);
  }

  /** With one consumer nothing is ever missed: it sleeps un-notified only beside an empty queue. */
  lemma {:induction false} OneConsumerSleepsOnlyOnEmpty<T>(h: History<T>, run: seq<Action<T>>)
    requires h.state.asleep + h.state.awake == 1 && Covered(h.state) && Possible(h, run)
    ensures var t := After(h, run).state; t.asleep + t.awake == 1 && (t.asleep > 0 ==> t.main == [])
    decreases |run|
  {
    if run != [] {
      OneConsumerSleepsOnlyOnEmpty(Record(h, run[0]), run[1..]);
    }
  }

  /** With two it can happen: frame 2 is buffered and both consumers sleep when frame 1 arrives; two frames are
      released with one notify_one, one consumer takes frame 1, the other sleeps on beside frame 2. */
  lemma TwoConsumersCanMissOne(f1: Frame<int>, f2: Frame<int>)
    requires f1.id == 1 && f2.id == 2
    ensures var s := Enqueue(Dequeue(Dequeue(Enqueue(Empty(2), f2))), f1);
            s.awake == 1 && Dequeue(s).asleep == 1 && Dequeue(s).main == [f2]
  {
    var s := Dequeue(Dequeue(Enqueue(Empty(2), f2)));
    assert s == State([], map[2 := f2], 1, 2, 0);
    var left := s.buffer - {2};
    assert left == map[];
    assert Drain([f1] + [f2], left, 3) == ([f1] + [f2], left, 3);
    assert Drain([f1], s.buffer, 2) == Drain([f1] + [f2], left, 3);
    assert s.main + [f1] == [f1];
    assert ([f1] + [f2])[1..] == [f2];
  }
}
