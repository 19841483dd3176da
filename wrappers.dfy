/** Option and Result, the two failure-carrying types used throughout the model,
    and the collecting loop over a sequence that stops at the first failure. */
module Wrappers {

  datatype Option<+T> = None | Some(value: T)

  /** `Err` stands for a Python exception that aborts the running command. */
  datatype Result<+T, +E> = Ok(value: T) | Err(error: E)

  /** A loop that applies `f` to each element in order and collects the
      results, where the first failure ends the loop. */
  function Collect<T, U, E>(f: T -> Result<U, E>, xs: seq<T>): Result<seq<U>, E> {
    if xs == [] then Ok([])
    else
      match Collect(f, xs[..|xs| - 1])
      case Err(e) => Err(e)
      case Ok(done) =>
        match f(xs[|xs| - 1])
        case Err(e) => Err(e)
        case Ok(u) => Ok(done + [u])
  }

  /** One more element on which `f` succeeds extends the results. */
  lemma CollectSnoc<T, U, E>(f: T -> Result<U, E>, xs: seq<T>, k: nat, done: seq<U>, u: U)
    requires k < |xs| && Collect(f, xs[..k]) == Ok(done) && f(xs[k]) == Ok(u)
    ensures Collect(f, xs[..k + 1]) == Ok(done + [u])
  {
    assert xs[..k + 1][..k] == xs[..k];
  }

  /** An element on which `f` fails ends the loop with its error. */
  lemma CollectFails<T, U, E>(f: T -> Result<U, E>, xs: seq<T>, k: nat, done: seq<U>)
    requires k < |xs| && Collect(f, xs[..k]) == Ok(done) && f(xs[k]).Err?
    ensures Collect(f, xs) == Err(f(xs[k]).error)
  {
    assert xs[..k + 1][..k] == xs[..k];
    CollectPrefixErr(f, xs, k + 1);
  }

  /** Once the loop has failed, the later elements do not matter. */
  lemma {:induction false} CollectPrefixErr<T, U, E>(f: T -> Result<U, E>, xs: seq<T>, k: nat)
    requires k <= |xs|
    requires Collect(f, xs[..k]).Err?
    ensures Collect(f, xs) == Collect(f, xs[..k])
    decreases |xs| - k
  {
    if k < |xs| {
      assert xs[..k + 1][..k] == xs[..k];
      CollectPrefixErr(f, xs, k + 1);
    } else {
      assert xs[..k] == xs;
    }
  }

  /** The loop succeeds exactly when `f` succeeds on every element, with one
      result per element in order; otherwise its error is that of the first
      element that fails. */
  lemma {:induction false} CollectSpec<T, U, E>(f: T -> Result<U, E>, xs: seq<T>)
    ensures Collect(f, xs).Ok? <==> forall k :: 0 <= k < |xs| ==> f(xs[k]).Ok?
    ensures Collect(f, xs).Ok? ==> |Collect(f, xs).value| == |xs|
    ensures Collect(f, xs).Ok? ==> forall k :: 0 <= k < |xs| ==> f(xs[k]) == Ok(Collect(f, xs).value[k])
    ensures Collect(f, xs).Err? ==>
              exists k :: 0 <= k < |xs| && f(xs[k]) == Err(Collect(f, xs).error) &&
                          forall j :: 0 <= j < k ==> f(xs[j]).Ok?
  {
    if xs != [] {
      var n := |xs| - 1;
      var init := xs[..n];
      CollectSpec(f, init);
      assert forall k :: 0 <= k < n ==> xs[k] == init[k];
      var r := Collect(f, xs);
      if Collect(f, init).Err? {
        var k :| 0 <= k < n && f(init[k]) == Err(r.error) && forall j :: 0 <= j < k ==> f(init[j]).Ok?;
        assert f(xs[k]) == Err(r.error);
      } else if f(xs[n]).Err? {
        assert f(xs[n]) == Err(r.error);
      }
    }
  }

  /** Elements on which `f` gives `ys` in order make the loop give `ys`. */
  lemma {:induction false} CollectEach<T, U, E>(f: T -> Result<U, E>, xs: seq<T>, ys: seq<U>)
    requires |ys| == |xs|
    requires forall k :: 0 <= k < |xs| ==> f(xs[k]) == Ok(ys[k])
    ensures Collect(f, xs) == Ok(ys)
  {
    if xs != [] {
      var n := |xs| - 1;
      CollectEach(f, xs[..n], ys[..n]);
      assert ys[..n] + [ys[n]] == ys;
    }
  }
}
