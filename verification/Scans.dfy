/** Runs of a partial step over a list of inputs: all results up to the first input for which there is none. */
module Scans {

  datatype Option<A> = None | Some(value: A)

  function Last<A>(a: A, r: seq<A>): A {
    if r == [] then a else r[|r| - 1]
  }

  function Scan<A, B>(step: (A, B) -> Option<A>, a: A, s: seq<B>): (r: seq<A>)
    ensures |r| <= |s|
  {
    if s == [] then []
    else
      var n := |s| - 1;
      var r := Scan(step, a, s[..n]);
      var next := step(Last(a, r), s[n]);
      if |r| == n && next.Some? then r + [next.value] else r
  }

  lemma {:induction false} ScanOnce<A, B>(step: (A, B) -> Option<A>, a: A, before: seq<B>, x: B)
    ensures var r, next := Scan(step, a, before), step(Last(a, Scan(step, a, before)), x);
            Scan(step, a, before + [x]) == if |r| == |before| && next.Some? then r + [next.value] else r
  {
    assert (before + [x])[..|before|] == before;
  }

  /** Where one input has no result no later one has. */
  lemma {:induction false} ScanStops<A, B>(step: (A, B) -> Option<A>, a: A, s: seq<B>, n: nat)
    requires n < |s| && |Scan(step, a, s[..n])| == n && step(Last(a, Scan(step, a, s[..n])), s[n]).None?
    ensures Scan(step, a, s) == Scan(step, a, s[..n])
  {
    var m := |s| - 1;
    assert s == s[..m] + [s[m]];
    ScanOnce(step, a, s[..m], s[m]);
    if n < m {
      assert s[..m][..n] == s[..n];
      ScanStops(step, a, s[..m], n);
    }
  }

  /** The n-th result is the last one of the first n + 1 inputs, and all of them have results. */
  lemma {:induction false} ScanAt<A, B>(step: (A, B) -> Option<A>, a: A, s: seq<B>, n: nat)
    requires n < |Scan(step, a, s)|
    ensures var r := Scan(step, a, s[..n + 1]); |r| == n + 1 && r[n] == Scan(step, a, s)[n]
  {
    var m := |s| - 1;
    if n == m {
      assert s[..n + 1] == s;
    } else {
      assert s == s[..m] + [s[m]];
      ScanOnce(step, a, s[..m], s[m]);
      ScanAt(step, a, s[..m], n);
      assert s[..m][..n + 1] == s[..n + 1];
    }
  }

  /** A step that has results wherever another has them, and the same ones, gives the same on inputs with results. */
  lemma {:induction false} ScanSame<A(!new), B(!new)>(
    step: (A, B) -> Option<A>, wider: (A, B) -> Option<A>, a: A, s: seq<B>)
    requires forall x, y :: step(x, y).Some? ==> wider(x, y) == step(x, y)
    requires |Scan(step, a, s)| == |s|
    ensures Scan(wider, a, s) == Scan(step, a, s)
  {
    if s != [] {
      var m := |s| - 1;
      assert s == s[..m] + [s[m]];
      ScanOnce(step, a, s[..m], s[m]);
      ScanSame(step, wider, a, s[..m]);
      ScanOnce(wider, a, s[..m], s[m]);
    }
  }
}
