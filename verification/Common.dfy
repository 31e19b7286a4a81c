/** Result types shared by the whole model. */
module Common {
  datatype Option<+T> = None | Some(value: T)

  datatype Result<+T, +E> = Ok(value: T) | Err(error: E)

  /** The first occurrence of every element, in order. */
  function Deduped<T(==, !new)>(all: seq<T>): (r: seq<T>)
    ensures forall x :: x in r <==> x in all
    ensures forall i, j | 0 <= i < j < |r| :: r[i] != r[j]
  {
    if all == [] then []
    else
      assert all == all[..|all| - 1] + [all[|all| - 1]];
      var rest, x := Deduped(all[..|all| - 1]), all[|all| - 1];
      if x in rest then rest else rest + [x]
  }

  lemma DedupedMore<T(!new)>(all: seq<T>, x: T)
    ensures Deduped(all + [x]) == if x in all then Deduped(all) else Deduped(all) + [x]
  {
    assert (all + [x])[..|all|] == all;
  }
}
