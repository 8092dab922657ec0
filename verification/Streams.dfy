/** Streams that can be parsed piece by piece. */
module Streams {
  /** The symbols `w` always parse to `c`, whatever follows them. */
  ghost predicate Means<A(!new), B(!new)>(parse: seq<A> -> seq<B>, w: seq<A>, c: seq<B>) {
    forall rest :: parse(w + rest) == c + parse(rest)
  }

  lemma MeansConcat<A(!new), B(!new)>(parse: seq<A> -> seq<B>, w1: seq<A>, c1: seq<B>, w2: seq<A>, c2: seq<B>)
    requires Means(parse, w1, c1) && Means(parse, w2, c2)
    ensures Means(parse, w1 + w2, c1 + c2)
  {
    forall rest ensures parse(w1 + w2 + rest) == c1 + c2 + parse(rest) {
      assert w1 + w2 + rest == w1 + (w2 + rest);
      assert c1 + c2 + parse(rest) == c1 + (c2 + parse(rest));
    }
  }

  lemma MeansNothing<A(!new), B(!new)>(parse: seq<A> -> seq<B>)
    ensures Means(parse, [], [])
  {
    forall rest ensures parse([] + rest) == [] + parse(rest) {
      assert [] + rest == rest;
    }
  }

  lemma MeansAtEnd<A(!new), B(!new)>(parse: seq<A> -> seq<B>, w: seq<A>, c: seq<B>)
    requires Means(parse, w, c) && parse([]) == []
    ensures parse(w) == c
  {
    assert w + [] == w && c + [] == c;
    assert parse(w + []) == c + parse([]);
  }
}
