/** Results and optional values shared by the other modules. */
module Wrappers {

  datatype Option<+T> = None | Some(value: T)

  datatype Result<+T, +E> = Ok(value: T) | Err(error: E)

  /** Joins successful lists in order; the first failure wins. */
  function Concat<T, E>(rs: seq<Result<seq<T>, E>>): Result<seq<T>, E> {
    if rs == [] then Ok([]) else Join(Concat(rs[..|rs| - 1]), rs[|rs| - 1])
  }

  function Join<T, E>(a: Result<seq<T>, E>, b: Result<seq<T>, E>): Result<seq<T>, E> {
    if a.Err? then a else if b.Err? then b else Ok(a.value + b.value)
  }

  lemma ConcatSnoc<T, E>(rs: seq<Result<seq<T>, E>>, r: Result<seq<T>, E>)
    ensures Concat(rs + [r]) == Join(Concat(rs), r)
  {
    assert (rs + [r])[..|rs|] == rs;
  }

  lemma {:induction false} ConcatAppend<T, E>(a: seq<Result<seq<T>, E>>, b: seq<Result<seq<T>, E>>)
    ensures Concat(a + b) == Join(Concat(a), Concat(b))
  {
    if b == [] {
      assert a + b == a;
      if Concat(a).Ok? {
        assert Concat(a).value + [] == Concat(a).value;
      }
    } else {
      var front, last := b[..|b| - 1], b[|b| - 1];
      assert a + b == (a + front) + [last];
      ConcatSnoc(a + front, last);
      ConcatAppend(a, front);
      JoinAssociative(Concat(a), Concat(front), last);
    }
  }

  lemma JoinAssociative<T, E>(a: Result<seq<T>, E>, b: Result<seq<T>, E>, c: Result<seq<T>, E>)
    ensures Join(Join(a, b), c) == Join(a, Join(b, c))
  {
    if a.Ok? && b.Ok? && c.Ok? {
      assert (a.value + b.value) + c.value == a.value + (b.value + c.value);
    }
  }
}
