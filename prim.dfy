/** Primitive wrappers shared by the whole model: optional values, the
    crate's single error kind, and the 32-bit unsigned integers the
    version components are stored in. */
module Prim {

  datatype Option<+T> = None | Some(value: T)

  /** `Result<T, DependencyError>`: the error carries its `details` text. */
  datatype Result<+T> = Ok(value: T) | Err(details: string)

  const U32_MAX: nat := 0xFFFF_FFFF

  /** Rust's `u32`. */
  type u32 = x: nat | x <= U32_MAX

  /** Collecting a sequence of results in order: all the values, or the
      first error (what a loop that returns on the first `Err` computes). */
  function Collect<T>(rs: seq<Result<T>>): (r: Result<seq<T>>)
    ensures r.Ok? ==> |r.value| == |rs|
  {
    if |rs| == 0 then Ok([])
    else
      match Collect(rs[..|rs| - 1])
      case Err(e) => Err(e)
      case Ok(vs) =>
        match rs[|rs| - 1]
        case Err(e) => Err(e)
        case Ok(v) => Ok(vs + [v])
  }

  /** All values exactly when there is no error, and then element by element. */
  lemma {:induction false} CollectOk<T>(rs: seq<Result<T>>)
    ensures Collect(rs).Ok? <==> forall i :: 0 <= i < |rs| ==> rs[i].Ok?
    ensures Collect(rs).Ok? ==> forall i :: 0 <= i < |rs| ==> rs[i] == Ok(Collect(rs).value[i])
  {
    if |rs| > 0 {
      var front := rs[..|rs| - 1];
      CollectOk(front);
      assert forall i :: 0 <= i < |front| ==> front[i] == rs[i];
    }
  }

  /** One more element: its value is appended, or its error is the result. */
  lemma CollectStep<T>(rs: seq<Result<T>>, i: nat)
    requires i < |rs| && Collect(rs[..i]).Ok?
    ensures rs[i].Ok? ==> Collect(rs[..i + 1]) == Ok(Collect(rs[..i]).value + [rs[i].value])
    ensures rs[i].Err? ==> Collect(rs[..i + 1]) == Err(rs[i].details)
  {
    assert rs[..i + 1][..i] == rs[..i];
  }

  /** A failure reports the error of the first failing element. */
  lemma {:induction false} CollectFirstError<T>(rs: seq<Result<T>>)
    requires Collect(rs).Err?
    ensures exists k :: (0 <= k < |rs| && (forall j :: 0 <= j < k ==> rs[j].Ok?) &&
                         rs[k] == Err(Collect(rs).details))
  {
    var front := rs[..|rs| - 1];
    if Collect(front).Err? {
      CollectFirstError(front);
      var k :| 0 <= k < |front| && (forall j :: 0 <= j < k ==> front[j].Ok?) &&
        front[k] == Err(Collect(front).details);
      assert forall j :: 0 <= j <= k ==> front[j] == rs[j];
    } else {
      CollectOk(front);
    }
  }

  /** An error among the first `k` elements decides the whole collection. */
  lemma {:induction false} CollectStopsAtError<T>(rs: seq<Result<T>>, k: nat)
    requires k <= |rs| && Collect(rs[..k]).Err?
    ensures Collect(rs) == Collect(rs[..k])
    decreases |rs| - k
  {
    if k < |rs| {
      assert rs[..k + 1][..k] == rs[..k];
      CollectStopsAtError(rs, k + 1);
    } else {
      assert rs[..k] == rs;
    }
  }
}
