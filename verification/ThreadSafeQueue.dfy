/** tools::ThreadSafeQueue of sp_vision_25/tools/thread_safe_queue.hpp, with both overflow policies. Every method is
    one critical section. */
module ThreadSafeQueue {

  /** `s` is what is left of `t` after deleting some elements. */
  predicate Subsequence<T(==)>(s: seq<T>, t: seq<T>) {
    if s == [] then true
    else if t == [] then false
    else
      var m, n := |s| - 1, |t| - 1;
      (s[m] == t[n] && Subsequence(s[..m], t[..n])) || Subsequence(s, t[..n])
  }

  lemma SubsequenceMore<T>(s: seq<T>, t: seq<T>, x: T)
    requires Subsequence(s, t)
    ensures Subsequence(s, t + [x]) && Subsequence(s + [x], t + [x])
  {
    assert (t + [x])[..|t|] == t && (s + [x])[..|s|] == s;
  }

  lemma {:induction false} SubsequencePrefix<T>(s: seq<T>, t: seq<T>)
    requires s != [] && Subsequence(s, t)
    ensures Subsequence(s[..|s| - 1], t)
    decreases |t|
  {
    var m, n := |s| - 1, |t| - 1;
    assert t[..n] + [t[n]] == t;
    if s[m] == t[n] && Subsequence(s[..m], t[..n]) {
      SubsequenceMore(s[..m], t[..n], t[n]);
    } else {
      SubsequencePrefix(s, t[..n]);
      SubsequenceMore(s[..m], t[..n], t[n]);
    }
  }

  lemma {:induction false} SubsequencePrefixes<T>(s: seq<T>, t: seq<T>, k: nat)
    requires k <= |s| && Subsequence(s, t)
    ensures Subsequence(s[..k], t)
    decreases |s|
  {
    if k == |s| {
      assert s[..k] == s;
    } else {
      SubsequencePrefix(s, t);
      SubsequencePrefixes(s[..|s| - 1], t, k);
      assert s[..|s| - 1][..k] == s[..k];
    }
  }

  /** Deleting an element anywhere. */
  lemma {:induction false} SubsequenceDrop<T>(s: seq<T>, t: seq<T>, k: nat)
    requires k < |s| && Subsequence(s, t)
    ensures Subsequence(s[..k] + s[k + 1..], t)
    decreases |t|
  {
    var m, n := |s| - 1, |t| - 1;
    var d := s[..k] + s[k + 1..];
    assert t[..n] + [t[n]] == t;
    if !(s[m] == t[n] && Subsequence(s[..m], t[..n])) {
      SubsequenceDrop(s, t[..n], k);
      SubsequenceMore(d, t[..n], t[n]);
    } else if k == m {
      assert d == s[..m];
      SubsequenceMore(s[..m], t[..n], t[n]);
    } else {
      SubsequenceDrop(s[..m], t[..n], k);
      assert d == s[..m][..k] + s[..m][k + 1..] + [s[m]];
      SubsequenceMore(s[..m][..k] + s[..m][k + 1..], t[..n], t[n]);
    }
  }

  /** All elements are in order with all later ones; subsequences inherit it. */
  ghost predicate Chain<T>(r: (T, T) -> bool, s: seq<T>) {
    forall i, j | 0 <= i < j < |s| :: r(s[i], s[j])
  }

  lemma {:induction false} SubsequenceMember<T>(s: seq<T>, t: seq<T>, x: T)
    requires Subsequence(s, t) && x in s
    ensures x in t
    decreases |t|
  {
    var m, n := |s| - 1, |t| - 1;
    if s[m] == t[n] && Subsequence(s[..m], t[..n]) {
      if x != s[m] {
        assert x in s[..m];
        SubsequenceMember(s[..m], t[..n], x);
      }
    } else {
      SubsequenceMember(s, t[..n], x);
    }
  }

  lemma {:induction false} SubsequenceChain<T>(r: (T, T) -> bool, s: seq<T>, t: seq<T>)
    requires Subsequence(s, t) && Chain(r, t)
    ensures Chain(r, s)
    decreases |t|
  {
    if s != [] {
      var m, n := |s| - 1, |t| - 1;
      if s[m] == t[n] && Subsequence(s[..m], t[..n]) {
        SubsequenceChain(r, s[..m], t[..n]);
        forall i, j | 0 <= i < j < |s| ensures r(s[i], s[j]) {
          if j == m {
            assert s[..m][i] in s[..m];
            SubsequenceMember(s[..m], t[..n], s[i]);
          } else {
            assert r(s[..m][i], s[..m][j]);
          }
        }
      } else {
        SubsequenceChain(r, s, t[..n]);
      }
    }
  }

  // --------------------------------------------------- what the queue holds

  /** The queue's contents after a push, by policy. */
  function Pushed<T>(queue: seq<T>, value: T, maxSize: nat, popWhenFull: bool): seq<T>
    requires |queue| <= maxSize && (popWhenFull ==> maxSize > 0)
  {
    if |queue| < maxSize then queue + [value]
    else if popWhenFull then queue[1..] + [value]
    else queue
  }

  /** The class, and the consumers of its condition variable: `asleep` of them are in its wait, `awake` ones hold or will
      take the mutex to test the wait's predicate. Every method is one critical section. */
  class Queue<T(==)> {
    const maxSize: nat
    const popWhenFull: bool
    var queue: seq<T>
    var asleep: nat
    var awake: nat
    ghost var pushed: seq<T>
    ghost var popped: seq<T>
    ghost var passed: seq<T>

    /** The queue never exceeds its capacity, and what went out followed by what is inside are values in the order
        they were pushed; nothing is duplicated, and what overflow lost is simply missing. No consumer, however many
        there are, sleeps beside a value. */
    ghost predicate Valid()
      reads this
    {
      && |queue| <= maxSize
      && (popWhenFull ==> maxSize > 0)
      && passed == popped + queue && Subsequence(passed, pushed)
      && (asleep > 0 ==> queue == [])
    }

    constructor (maxSize: nat, popWhenFull: bool, consumers: nat)
      requires popWhenFull ==> maxSize > 0
      ensures Valid() && queue == pushed == popped == passed == [] && asleep == 0 && awake == consumers
      ensures this.maxSize == maxSize && this.popWhenFull == popWhenFull
    {
      this.maxSize, this.popWhenFull := maxSize, popWhenFull;
      queue, pushed, popped, passed := [], [], [], [];
      asleep, awake := 0, consumers;
    }

    method NotifyAll()
      modifies `asleep, `awake
      ensures asleep == 0 && awake == old(awake) + old(asleep)
    {
      asleep, awake := 0, awake + asleep;
    }

    /** A spurious wake-up. */
    method Wake()
      requires Valid() && asleep > 0
      modifies `asleep, `awake
      ensures Valid() && asleep == old(asleep) - 1 && awake == old(awake) + 1
    {
      asleep, awake := asleep - 1, awake + 1;
    }

    /** `dropped` says that the full handler was called and the value discarded. */
    method Push(value: T) returns (dropped: bool)
      requires Valid()
      modifies this
      ensures Valid() && pushed == old(pushed) + [value] && popped == old(popped)
      ensures dropped <==> !popWhenFull && |old(queue)| == maxSize
      ensures queue == Pushed(old(queue), value, maxSize, popWhenFull)
      ensures !popWhenFull ==> passed == old(passed) + if dropped then [] else [value]
      ensures dropped ==> asleep == old(asleep) && awake == old(awake)
      ensures !dropped ==> asleep == 0 && awake == old(awake) + old(asleep)
    {
      ghost var before := pushed;
      pushed := pushed + [value];
      if |queue| >= maxSize {
        if popWhenFull {
          EvictFront(popped, queue, before);
          queue, passed := queue[1..], popped + queue[1..];
        } else {
          SubsequenceMore(passed, before, value);
          return true;
        }
      }
      SubsequenceMore(passed, before, value);
      queue, passed := queue + [value], passed + [value];
      NotifyAll();
      return false;
    }

    /** Non-blocking pop. */
    method TryPop() returns (got: bool, value: seq<T>)
      requires Valid()
      modifies `queue, `popped
      ensures Valid() && pushed == old(pushed) && got == (old(queue) != [])
      ensures old(queue) == value + queue && |value| == (if got then 1 else 0) && popped == old(popped) + value
      ensures passed == old(passed)
    {
      if queue == [] {
        return false, [];
      }
      value := [queue[0]];
      assert popped + queue == popped + value + queue[1..];
      queue := queue[1..];
      popped := popped + value;
      got := true;
    }

    /** One pass of a consumer through the wait of pop: it falls asleep, or it takes the front. */
    method Pop() returns (blocked: bool, value: seq<T>)
      requires Valid() && awake > 0
      modifies `queue, `popped, `asleep, `awake
      ensures Valid() && blocked == (old(queue) == [])
      ensures old(queue) == value + queue && |value| == (if blocked then 0 else 1) && popped == old(popped) + value
      ensures passed == old(passed)
      ensures asleep == old(asleep) + (if blocked then 1 else 0) && awake == old(awake) - if blocked then 1 else 0
    {
      if queue == [] {
        asleep, awake := asleep + 1, awake - 1;
        return true, [];
      }
      blocked, value := TryPop();
      blocked := false;
    }

    /** One pass of a consumer through the wait of front: it falls asleep, or it reads the front. */
    method Front() returns (blocked: bool, value: seq<T>)
      requires Valid() && awake > 0
      modifies `asleep, `awake
      ensures Valid() && blocked == (queue == []) && value == if blocked then [] else [queue[0]]
      ensures asleep == old(asleep) + (if blocked then 1 else 0) && awake == old(awake) - if blocked then 1 else 0
    {
      if queue == [] {
        asleep, awake := asleep + 1, awake - 1;
        return true, [];
      }
      return false, [queue[0]];
    }

    method Clear()
      requires Valid()
      modifies `queue, `passed, `asleep, `awake
      ensures Valid() && queue == [] && passed == popped && asleep == 0 && awake == old(awake) + old(asleep)
    {
      SubsequencePrefixes(passed, pushed, |popped|);
      assert passed[..|popped|] == popped == popped + [];
      ghost var before := queue;
      while queue != []
        invariant |queue| <= |before|
        modifies `queue
        decreases |queue|
      {
        queue := queue[1..];
      }
      passed := popped;
      NotifyAll();
    }
  }

  lemma EvictFront<T>(popped: seq<T>, queue: seq<T>, pushed: seq<T>)
    requires queue != [] && Subsequence(popped + queue, pushed)
    ensures Subsequence(popped + queue[1..], pushed)
  {
    SubsequenceDrop(popped + queue, pushed, |popped|);
    assert (popped + queue)[..|popped|] + (popped + queue)[|popped| + 1..] == popped + queue[1..];
  }

  /** Values pushed in an order come out in that order, whatever overflow dropped or evicted. */
  lemma PopsKeepOrder<T>(q: Queue<T>, r: (T, T) -> bool)
    requires q.Valid() && Chain(r, q.pushed)
    ensures Chain(r, q.popped)
  {
    SubsequenceChain(r, q.popped + q.queue, q.pushed);
    forall i, j | 0 <= i < j < |q.popped| ensures r(q.popped[i], q.popped[j]) {
      assert r((q.popped + q.queue)[i], (q.popped + q.queue)[j]);
    }
  }

  function PushedAll<T>(queue: seq<T>, values: seq<T>, maxSize: nat, popWhenFull: bool): (r: seq<T>)
    requires |queue| <= maxSize && (popWhenFull ==> maxSize > 0)
    ensures |r| <= maxSize
    decreases |values|
  {
    if values == [] then queue
    else PushedAll(Pushed(queue, values[0], maxSize, popWhenFull), values[1..], maxSize, popWhenFull)
  }

  /** The newest or the oldest `n` values. */
  function Keep<T>(s: seq<T>, n: nat, newest: bool): seq<T> {
    if |s| <= n then s else if newest then s[|s| - n..] else s[..n]
  }

  /** Between two pops an evicting queue keeps the newest values that fit, a dropping one the oldest. */
  lemma {:induction false} OverflowKeeps<T>(queue: seq<T>, values: seq<T>, maxSize: nat, popWhenFull: bool)
    requires |queue| <= maxSize && (popWhenFull ==> maxSize > 0)
    ensures PushedAll(queue, values, maxSize, popWhenFull) == Keep(queue + values, maxSize, popWhenFull)
    decreases |values|
  {
    if values == [] {
      assert queue + values == queue;
    } else {
      OverflowKeeps(Pushed(queue, values[0], maxSize, popWhenFull), values[1..], maxSize, popWhenFull);
      PushedThenKeep(queue, values[0], values[1..], maxSize, popWhenFull);
      assert [values[0]] + values[1..] == values;
    }
  }

  lemma PushedThenKeep<T>(queue: seq<T>, value: T, more: seq<T>, maxSize: nat, popWhenFull: bool)
    requires |queue| <= maxSize && (popWhenFull ==> maxSize > 0)
    ensures Keep(Pushed(queue, value, maxSize, popWhenFull) + more, maxSize, popWhenFull) ==
            Keep(queue + ([value] + more), maxSize, popWhenFull)
  {
    assert queue + [value] + more == queue + ([value] + more);
    assert Pushed(queue, value, maxSize, popWhenFull) == Keep(queue + [value], maxSize, popWhenFull);
    KeepOfKeep(queue + [value], more, maxSize, popWhenFull);
  }

  lemma KeepOfKeep<T>(s: seq<T>, t: seq<T>, n: nat, newest: bool)
    ensures Keep(Keep(s, n, newest) + t, n, newest) == Keep(s + t, n, newest)
  {
  }
}
