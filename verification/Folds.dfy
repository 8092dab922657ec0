/** Left folds, the shape of every running checksum, and the superposition law of linear ones. */
module Folds {

  function Fold<A, B>(f: (A, B) -> A, a: A, s: seq<B>): A {
    if s == [] then a else Fold(f, f(a, s[0]), s[1..])
  }

  lemma FoldAppend<A, B>(f: (A, B) -> A, a: A, s: seq<B>, t: seq<B>)
    ensures Fold(f, a, s + t) == Fold(f, Fold(f, a, s), t)
    decreases |s|
  {
    if s == [] {
      assert s + t == t;
    } else {
      assert (s + t)[1..] == s[1..] + t;
      FoldAppend(f, f(a, s[0]), s[1..], t);
    }
  }

  /** Element by element combination of two sequences of the same length. */
  function Mix<B>(mix: (B, B) -> B, s: seq<B>, t: seq<B>): (r: seq<B>)
    requires |s| == |t|
  {
    seq(|s|, i requires 0 <= i < |s| => mix(s[i], t[i]))
  }

  lemma MixAppend<B>(mix: (B, B) -> B, s1: seq<B>, s2: seq<B>, t1: seq<B>, t2: seq<B>)
    requires |s1| == |t1| && |s2| == |t2|
    ensures Mix(mix, s1 + s2, t1 + t2) == Mix(mix, s1, t1) + Mix(mix, s2, t2)
  {
  }

  ghost predicate Linear<A(!new), B(!new)>(f: (A, B) -> A, add: (A, A) -> A, mix: (B, B) -> B) {
    forall x, y, p, q :: f(add(x, y), mix(p, q)) == add(f(x, p), f(y, q))
  }

  /** Superposition: folding a mixture is mixing the folds. */
  lemma Superposition<A(!new), B(!new)>(
    f: (A, B) -> A, add: (A, A) -> A, mix: (B, B) -> B, a: A, b: A, s: seq<B>, t: seq<B>)
    requires |s| == |t| && Linear(f, add, mix)
    ensures Fold(f, add(a, b), Mix(mix, s, t)) == add(Fold(f, a, s), Fold(f, b, t))
    decreases |s|
  {
    if s != [] {
      assert Mix(mix, s, t)[1..] == Mix(mix, s[1..], t[1..]);
      Superposition(f, add, mix, f(a, s[0]), f(b, t[0]), s[1..], t[1..]);
    }
  }

  /** The first `n` outputs of a register that emits `low` and moves on by `next`. */
  function Emit<A, B>(low: A -> B, next: A -> A, a: A, n: nat): (s: seq<B>)
    ensures |s| == n
  {
    if n == 0 then [] else [low(a)] + Emit(low, next, next(a), n - 1)
  }

  function Iterate<A>(next: A -> A, a: A, n: nat): A {
    if n == 0 then a else Iterate(next, next(a), n - 1)
  }

  lemma IterateAdd<A>(next: A -> A, a: A, m: nat, n: nat)
    ensures Iterate(next, a, m + n) == Iterate(next, Iterate(next, a, m), n)
    decreases m
  {
    if m > 0 {
      IterateAdd(next, next(a), m - 1, n);
    }
  }

  lemma IterateLinear<A(!new)>(next: A -> A, add: (A, A) -> A, a: A, b: A, n: nat)
    requires Additive(next, add, add)
    ensures Iterate(next, add(a, b), n) == add(Iterate(next, a, n), Iterate(next, b, n))
    decreases n
  {
    if n > 0 {
      IterateLinear(next, add, next(a), next(b), n - 1);
    }
  }

  lemma IterateAround<A>(next: A -> A, a: A, n: nat)
    ensures Iterate(next, next(a), n) == next(Iterate(next, a, n))
  {
    IterateAdd(next, a, n, 1);
    assert Iterate(next, Iterate(next, a, n), 1) == Iterate(next, next(Iterate(next, a, n)), 0);
    assert Iterate(next, a, n + 1) == Iterate(next, next(a), n);
  }

  lemma IterateThrice<A>(next: A -> A, a: A, i: nat, j: nat, k: nat)
    ensures Iterate(next, a, i + j + k) == Iterate(next, Iterate(next, Iterate(next, a, i), j), k)
  {
    IterateAdd(next, a, i, j);
    IterateAdd(next, a, i + j, k);
  }

  /** The Horner scheme of a linear step: add in the value of each input, then step. */
  function Horner<A, B>(next: A -> A, add: (A, A) -> A, value: B -> A, c: A, s: seq<B>): A {
    if s == [] then c else Horner(next, add, value, next(add(c, value(s[0]))), s[1..])
  }

  /** Stepping after a Horner scheme is the scheme with stepped values. */
  lemma HornerThenIterate<A(!new), B(!new)>(
    next: A -> A, add: (A, A) -> A, value: B -> A, stepped: B -> A, c: A, s: seq<B>, n: nat)
    requires Additive(next, add, add)
    requires forall b :: stepped(b) == Iterate(next, value(b), n)
    ensures Iterate(next, Horner(next, add, value, c, s), n) == Horner(next, add, stepped, Iterate(next, c, n), s)
    decreases |s|
  {
    if s != [] {
      var d := add(c, value(s[0]));
      IterateAround(next, d, n);
      IterateLinear(next, add, c, value(s[0]), n);
      HornerThenIterate(next, add, value, stepped, next(d), s[1..], n);
    }
  }

  lemma HornerAppend<A, B>(next: A -> A, add: (A, A) -> A, value: B -> A, c: A, s: seq<B>, t: seq<B>)
    ensures Horner(next, add, value, c, s + t) ==
            Horner(next, add, value, Horner(next, add, value, c, s), t)
    decreases |s|
  {
    if s == [] {
      assert s + t == t;
    } else {
      assert (s + t)[1..] == s[1..] + t;
      HornerAppend(next, add, value, next(add(c, value(s[0]))), s[1..], t);
    }
  }

  lemma HornerFour<A, B>(next: A -> A, add: (A, A) -> A, value: B -> A, c: A, p: B, q: B, r: B, t: B)
    ensures Horner(next, add, value, c, [p, q, r, t]) ==
            next(add(next(add(next(add(next(add(c, value(p))), value(q))), value(r))), value(t)))
  {
    HornerAppend(next, add, value, c, [p, q], [r, t]);
    HornerTwo(next, add, value, c, p, q);
    HornerTwo(next, add, value, next(add(next(add(c, value(p))), value(q))), r, t);
    assert [p, q] + [r, t] == [p, q, r, t];
  }

  lemma HornerTwo<A, B>(next: A -> A, add: (A, A) -> A, value: B -> A, c: A, p: B, q: B)
    ensures Horner(next, add, value, c, [p, q]) == next(add(next(add(c, value(p))), value(q)))
  {
    assert [p, q][1..] == [q];
    assert Horner(next, add, value, c, [p, q]) == Horner(next, add, value, next(add(c, value(p))), [q]);
  }

  lemma IterateEight<A>(next: A -> A, a: A)
    ensures Iterate(next, a, 8) == next(next(next(next(next(next(next(next(a))))))))
  {
    assert Iterate(next, a, 8) == Iterate(next, next(next(a)), 6);
    assert Iterate(next, next(next(a)), 6) == Iterate(next, next(next(next(next(a)))), 4);
  }

  lemma EmitFour<A, B>(low: A -> B, next: A -> A, a: A)
    ensures Emit(low, next, a, 4) == [low(a), low(next(a)), low(next(next(a))), low(next(next(next(a))))]
    ensures Iterate(next, a, 4) == next(next(next(next(a))))
  {
    assert Emit(low, next, a, 4) == [low(a), low(next(a))] + Emit(low, next, next(next(a)), 2);
    assert Iterate(next, a, 4) == Iterate(next, next(next(a)), 2);
  }

  lemma EmitEight<A, B>(low: A -> B, next: A -> A, a: A)
    ensures Emit(low, next, a, 8) ==
            [low(a), low(next(a)), low(next(next(a))), low(next(next(next(a)))),
             low(next(next(next(next(a))))), low(next(next(next(next(next(a)))))),
             low(next(next(next(next(next(next(a))))))), low(next(next(next(next(next(next(next(a))))))))]
  {
    assert Emit(low, next, a, 8) == [low(a), low(next(a))] + Emit(low, next, next(next(a)), 6);
    assert Emit(low, next, next(next(a)), 6) ==
           [low(next(next(a))), low(next(next(next(a))))] + Emit(low, next, next(next(next(next(a)))), 4);
  }

  lemma EmitAppend<A, B>(low: A -> B, next: A -> A, a: A, m: nat, n: nat)
    ensures Emit(low, next, a, m + n) == Emit(low, next, a, m) + Emit(low, next, Iterate(next, a, m), n)
    decreases m
  {
    if m > 0 {
      EmitAppend(low, next, next(a), m - 1, n);
    }
  }

  ghost predicate Additive<A(!new), B(!new)>(f: A -> B, add: (A, A) -> A, mix: (B, B) -> B) {
    forall x, y :: f(add(x, y)) == mix(f(x), f(y))
  }

  lemma EmitLinear<A(!new), B(!new)>(
    low: A -> B, next: A -> A, add: (A, A) -> A, mix: (B, B) -> B, a: A, b: A, n: nat)
    requires Additive(next, add, add) && Additive(low, add, mix)
    ensures Emit(low, next, add(a, b), n) == Mix(mix, Emit(low, next, a, n), Emit(low, next, b, n))
    decreases n
  {
    if n > 0 {
      EmitLinear(low, next, add, mix, next(a), next(b), n - 1);
    }
  }

  ghost predicate Pushes<A(!new), B(!new)>(bits: A -> seq<B>, push: (A, B) -> A, n: nat) {
    && (forall w :: |bits(w)| == n)
    && (forall w, b :: n > 0 ==> bits(push(w, b)) == bits(w)[1..] + [b])
  }

  /** A shift register holds the last values pushed. */
  lemma ShiftRegister<A(!new), B(!new)>(bits: A -> seq<B>, push: (A, B) -> A, n: nat, w: A, s: seq<B>)
    requires Pushes(bits, push, n) && |s| <= n
    ensures bits(Fold(push, w, s)) == bits(w)[|s|..] + s
    decreases |s|
  {
    if s != [] {
      ShiftRegister(bits, push, n, push(w, s[0]), s[1..]);
      PushOne(bits(w), s);
    }
  }

  lemma PushOne<B>(r: seq<B>, s: seq<B>)
    requires 0 < |s| <= |r|
    ensures (r[1..] + [s[0]])[|s| - 1..] + s[1..] == r[|s|..] + s
  {
    assert (r[1..] + [s[0]])[|s| - 1..] == r[|s|..] + [s[0]];
    assert [s[0]] + s[1..] == s;
  }

  // ------------------------------------------------- registers fed bit by bit

  function XorBit(p: bool, q: bool): bool { p != q }

  function Zeros(n: nat): seq<bool> {
    seq(n, _ => false)
  }

  lemma MixSelf(s: seq<bool>)
    ensures Mix(XorBit, s, s) == Zeros(|s|)
  {
    var m := Mix(XorBit, s, s);
    forall i | 0 <= i < |s| ensures m[i] == false {
      assert m[i] == XorBit(s[i], s[i]);
    }
  }

  ghost predicate Medial<A(!new)>(add: (A, A) -> A) {
    forall a, b, c, d :: add(add(a, b), add(c, d)) == add(add(a, c), add(b, d))
  }

  lemma IsMedial<A(!new)>(add: (A, A) -> A)
    requires forall a, b, c :: add(add(a, b), c) == add(a, add(b, c))
    requires forall a, b :: add(a, b) == add(b, a)
    ensures Medial(add)
  {
    forall a, b, c, d ensures add(add(a, b), add(c, d)) == add(add(a, c), add(b, d)) {
      assert add(add(a, b), add(c, d)) == add(a, add(b, add(c, d)));
      assert add(b, add(c, d)) == add(add(b, c), d) == add(add(c, b), d) == add(c, add(b, d));
      assert add(a, add(c, add(b, d))) == add(add(a, c), add(b, d));
    }
  }

  /** A register that adds its input in and steps is linear if its step is. */
  lemma StepIsLinear<A(!new)>(feed: (A, bool) -> A, next: A -> A, add: (A, A) -> A, bit: bool -> A)
    requires forall c, b :: feed(c, b) == next(add(c, bit(b)))
    requires Additive(next, add, add) && Additive(bit, XorBit, add) && Medial(add)
    ensures Linear(feed, add, XorBit)
  {
    forall x, y, p, q ensures feed(add(x, y), XorBit(p, q)) == add(feed(x, p), feed(y, q)) {
      assert add(add(x, y), add(bit(p), bit(q))) == add(add(x, bit(p)), add(y, bit(q)));
    }
  }

  /** Feeding zeros is stepping. */
  lemma {:induction false} FoldZeros<A(!new)>(feed: (A, bool) -> A, next: A -> A, a: A, n: nat)
    requires forall x :: feed(x, false) == next(x)
    ensures Fold(feed, a, Zeros(n)) == Iterate(next, a, n)
    decreases n
  {
    if n > 0 {
      assert Zeros(n)[1..] == Zeros(n - 1);
      FoldZeros(feed, next, next(a), n - 1);
    }
  }

  /** A step that sends only `z` to `z` never comes to it from elsewhere. */
  lemma {:induction false} IterateKeeps<A(!new)>(next: A -> A, z: A, a: A, n: nat)
    requires forall x :: next(x) == z <==> x == z
    ensures Iterate(next, a, n) == z <==> a == z
    decreases n
  {
    if n > 0 {
      IterateKeeps(next, z, next(a), n - 1);
    }
  }

  /** A register fed its own low bits just moves down. */
  lemma {:induction false} FoldOwn<A(!new)>(feed: (A, bool) -> A, low: A -> bool, half: A -> A, a: A, n: nat)
    requires forall w :: feed(w, low(w)) == half(w)
    ensures Fold(feed, a, Emit(low, half, a, n)) == Iterate(half, a, n)
    decreases n
  {
    if n > 0 {
      assert Emit(low, half, a, n)[1..] == Emit(low, half, half(a), n - 1);
      FoldOwn(feed, low, half, half(a), n - 1);
    }
  }

  function Flatten<B, C>(parts: B -> seq<C>, s: seq<B>): seq<C> {
    if s == [] then [] else parts(s[0]) + Flatten(parts, s[1..])
  }

  lemma FlattenTwo<B, C>(parts: B -> seq<C>, a: B, b: B)
    ensures Flatten(parts, [a, b]) == parts(a) + parts(b)
  {
    assert [a, b][1..] == [b] && [b][1..] == [];
    assert Flatten(parts, [b]) == parts(b) + [];
  }

  /** Folding by steps that fold the parts is folding all the parts. */
  lemma {:induction false} FoldFlatten<A(!new), B(!new), C>(
    step: (A, B) -> A, feed: (A, C) -> A, parts: B -> seq<C>, a: A, s: seq<B>)
    requires forall c, b :: step(c, b) == Fold(feed, c, parts(b))
    ensures Fold(step, a, s) == Fold(feed, a, Flatten(parts, s))
    decreases |s|
  {
    if s != [] {
      FoldFlatten(step, feed, parts, step(a, s[0]), s[1..]);
      FoldAppend(feed, a, parts(s[0]), Flatten(parts, s[1..]));
    }
  }
}
