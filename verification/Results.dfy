/** Option and Result: the values that stand for the C++ program's missing keys,
    thrown exceptions and failed assertions. */
module Results {

  datatype Option<+T> = None | Some(value: T)

  datatype Result<+T, +E> = Ok(value: T) | Err(error: E)

  /** All values, or the first error. */
  function Collect<T, E>(rs: seq<Result<T, E>>): (r: Result<seq<T>, E>)
    ensures r.Ok? ==> |r.value| == |rs|
  {
    if rs == [] then Ok([]) else
      match (Collect(rs[..|rs| - 1]), rs[|rs| - 1])
      case (Err(e), _) => Err(e)
      case (_, Err(e)) => Err(e)
      case (Ok(init), Ok(last)) => Ok(init + [last])
  }

  lemma {:induction false} CollectErrorSticks<T, E>(rs: seq<Result<T, E>>, n: nat)
    requires n <= |rs| && Collect(rs[..n]).Err?
    ensures Collect(rs) == Collect(rs[..n])
  {
    if n == |rs| {
      assert rs[..n] == rs;
    } else {
      assert rs[..|rs| - 1][..n] == rs[..n];
      CollectErrorSticks(rs[..|rs| - 1], n);
    }
  }

  lemma {:induction false} CollectStep<T, E>(rs: seq<Result<T, E>>, i: nat, got: seq<T>)
    requires i < |rs| && Collect(rs[..i]) == Ok(got)
    ensures rs[i].Ok? ==> Collect(rs[..i + 1]) == Ok(got + [rs[i].value])
    ensures rs[i].Err? ==> Collect(rs) == Err(rs[i].error)
  {
    assert rs[..i + 1][..i] == rs[..i];
    if rs[i].Err? {
      CollectErrorSticks(rs, i + 1);
    }
  }

  lemma {:induction false} CollectAllOk<T, E>(rs: seq<Result<T, E>>, values: seq<T>)
    requires |rs| == |values| && forall i | 0 <= i < |rs| :: rs[i] == Ok(values[i])
    ensures Collect(rs) == Ok(values)
  {
    if rs != [] {
      CollectAllOk(rs[..|rs| - 1], values[..|rs| - 1]);
      assert values == values[..|rs| - 1] + [values[|rs| - 1]];
    }
  }
}
