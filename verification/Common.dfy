/** Small things that several models share. */
module Common {

  datatype Option<T> = None | Some(value: T)

  function Min(a: int, b: int): int {
    if a <= b then a else b
  }

  function Max(a: int, b: int): int {
    if a >= b then a else b
  }

  /** The pieces joined in order. */
  function Concat<T>(pieces: seq<seq<T>>): seq<T> {
    if pieces == [] then [] else pieces[0] + Concat(pieces[1..])
  }

  lemma {:induction false} ConcatAppend<T>(a: seq<seq<T>>, b: seq<seq<T>>)
    ensures Concat(a + b) == Concat(a) + Concat(b)
  {
    if a == [] {
      assert a + b == b;
    } else {
      assert (a + b)[1..] == a[1..] + b;
      ConcatAppend(a[1..], b);
    }
  }

  lemma ConcatLast<T>(pieces: seq<seq<T>>, last: seq<T>)
    ensures Concat(pieces + [last]) == Concat(pieces) + last
  {
    ConcatAppend(pieces, [last]);
    assert Concat([last]) == last + Concat([]);
  }

  // ----- Quotients -----

  lemma {:induction false} NextMultiple(d: int, a: int, b: int)
    requires d >= 0 && a < b
    ensures d * a + d <= d * b
    decreases b - a
  {
    if a + 1 < b {
      NextMultiple(d, a, b - 1);
      assert d * b == d * (b - 1) + d;
    } else {
      assert d * b == d * a + d;
    }
  }

  lemma DivisionUnique(v: int, d: int, q: int, r: int)
    requires d > 0 && v == d * q + r && 0 <= r < d
    ensures v / d == q && v % d == r
  {
    assert v == d * (v / d) + v % d;
    if q < v / d {
      NextMultiple(d, q, v / d);
    }
    if v / d < q {
      NextMultiple(d, v / d, q);
    }
  }
}
