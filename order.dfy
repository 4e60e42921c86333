/**
 * Three-way comparisons in Go's style (negative, zero, positive) and the
 * lexicographic extension of one to sequences, which go-semver uses twice:
 * for strings (Go's `<` on strings) and for the dot-separated identifiers of
 * a pre-release label.
 */
module Order {

  /** `cmp` returns -1, 0 or 1 and is a strict total order with 0 meaning equality. */
  ghost predicate IsTotalOrder<T(!new)>(cmp: (T, T) -> int)
  {
    && (forall x, y :: -1 <= cmp(x, y) <= 1)
    && (forall x, y :: cmp(x, y) == -cmp(y, x))
    && (forall x, y :: cmp(x, y) == 0 ==> x == y)
    && (forall x, y, z :: cmp(x, y) < 0 && cmp(y, z) < 0 ==> cmp(x, z) < 0)
  }

  /**
   * Lexicographic comparison: the first position where the elements differ
   * decides, and a proper prefix comes first.
   */
  function Lex<T>(xs: seq<T>, ys: seq<T>, cmp: (T, T) -> int): int
    decreases |xs|
  {
    if |xs| == 0 then (if |ys| == 0 then 0 else -1)
    else if |ys| == 0 then 1
    else if cmp(xs[0], ys[0]) != 0 then cmp(xs[0], ys[0])
    else Lex(xs[1..], ys[1..], cmp)
  }

  lemma {:induction false} LexRange<T(!new)>(xs: seq<T>, ys: seq<T>, cmp: (T, T) -> int)
    requires IsTotalOrder(cmp)
    ensures -1 <= Lex(xs, ys, cmp) <= 1
    decreases |xs|
  {
    if |xs| > 0 && |ys| > 0 && cmp(xs[0], ys[0]) == 0 {
      LexRange(xs[1..], ys[1..], cmp);
    }
  }

  lemma {:induction false} LexAntisymmetric<T(!new)>(xs: seq<T>, ys: seq<T>, cmp: (T, T) -> int)
    requires IsTotalOrder(cmp)
    ensures Lex(xs, ys, cmp) == -Lex(ys, xs, cmp)
    decreases |xs|
  {
    if |xs| > 0 && |ys| > 0 && cmp(xs[0], ys[0]) == 0 {
      LexAntisymmetric(xs[1..], ys[1..], cmp);
    }
  }

  lemma {:induction false} LexZeroIsEqual<T(!new)>(xs: seq<T>, ys: seq<T>, cmp: (T, T) -> int)
    requires IsTotalOrder(cmp)
    ensures Lex(xs, ys, cmp) == 0 <==> xs == ys
    decreases |xs|
  {
    if |xs| > 0 && |ys| > 0 {
      if cmp(xs[0], ys[0]) == 0 {
        LexZeroIsEqual(xs[1..], ys[1..], cmp);
        assert xs == [xs[0]] + xs[1..];
        assert ys == [ys[0]] + ys[1..];
      } else {
        assert xs[0] != ys[0];
      }
    }
  }

  lemma {:induction false} LexTransitive<T(!new)>(xs: seq<T>, ys: seq<T>, zs: seq<T>, cmp: (T, T) -> int)
    requires IsTotalOrder(cmp)
    requires Lex(xs, ys, cmp) < 0 && Lex(ys, zs, cmp) < 0
    ensures Lex(xs, zs, cmp) < 0
    decreases |xs|
  {
    if |xs| > 0 {
      assert |ys| > 0 && |zs| > 0;
      var c1, c2 := cmp(xs[0], ys[0]), cmp(ys[0], zs[0]);
      if c1 == 0 && c2 == 0 {
        assert xs[0] == ys[0] == zs[0];
        LexTransitive(xs[1..], ys[1..], zs[1..], cmp);
      } else if c1 == 0 {
        assert xs[0] == ys[0];
      } else if c2 == 0 {
        assert ys[0] == zs[0];
      }
    }
  }
}
