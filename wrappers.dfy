/** Optional values and fallible results, for the places where the programs
    return `Option`, or `unwrap`/`expect` and give up on malformed input. */
module Wrappers {
  datatype Option<T> = None | Some(value: T)

  datatype Result<T> = Ok(value: T) | Err(reason: string)
  {
    predicate IsFailure() { Err? }
  }

  /** The sum of f over xs, or the first error f gives. */
  function SumOk<T>(xs: seq<T>, f: T -> Result<nat>): (r: Result<nat>)
    ensures r.Ok? <==> forall i :: 0 <= i < |xs| ==> f(xs[i]).Ok?
  {
    if |xs| == 0 then Ok(0)
    else match (f(xs[0]), SumOk(xs[1..], f))
      case (Ok(a), Ok(b)) => Ok(a + b)
      case (Err(e), _) => Err(e)
      case (_, Err(e)) => Err(e)
  }

  /** When f gives a value between lo and hi for every element, the sum
      exists and lies between lo and hi times the number of elements. */
  lemma {:induction false} SumOkBounds<T>(xs: seq<T>, f: T -> Result<nat>, lo: nat, hi: nat)
    requires forall i :: 0 <= i < |xs| ==> f(xs[i]).Ok? && lo <= f(xs[i]).value <= hi
    ensures SumOk(xs, f).Ok?
    ensures lo * |xs| <= SumOk(xs, f).value <= hi * |xs|
    decreases |xs|
  {
    if |xs| > 0 {
      var rest := xs[1..];
      assert forall i :: 0 <= i < |rest| ==> rest[i] == xs[i + 1];
      SumOkBounds(rest, f, lo, hi);
      var v, a := f(xs[0]).value, SumOk(rest, f).value;
      assert lo <= v <= hi;
      var n := |rest|;
      var loN, hiN := lo * n, hi * n;
      assert loN <= a <= hiN;
      MulSucc(lo, n);
      MulSucc(hi, n);
    }
  }

  lemma MulSucc(k: nat, n: nat)
    ensures k * (n + 1) == k * n + k
  {
  }

  /** SumOk over xs + [x] adds f(x) last. */
  lemma {:induction false} SumOkSnoc<T>(xs: seq<T>, x: T, f: T -> Result<nat>)
    requires SumOk(xs, f).Ok? && f(x).Ok?
    ensures SumOk(xs + [x], f) == Ok(SumOk(xs, f).value + f(x).value)
    decreases |xs|
  {
    if |xs| == 0 {
      assert (xs + [x])[1..] == [];
    } else {
      assert (xs + [x])[1..] == xs[1..] + [x];
      SumOkSnoc(xs[1..], x, f);
    }
  }

  /** f applied to every element, or the first error f gives. */
  function MapOk<A, B>(xs: seq<A>, f: A -> Result<B>): (r: Result<seq<B>>)
    ensures r.Ok? <==> forall i :: 0 <= i < |xs| ==> f(xs[i]).Ok?
    ensures r.Ok? ==> (|r.value| == |xs|
      && forall i :: 0 <= i < |xs| ==> r.value[i] == f(xs[i]).value)
  {
    if |xs| == 0 then Ok([])
    else match (f(xs[0]), MapOk(xs[1..], f))
      case (Ok(a), Ok(rest)) => Ok([a] + rest)
      case (Err(e), _) => Err(e)
      case (_, Err(e)) => Err(e)
  }
}
