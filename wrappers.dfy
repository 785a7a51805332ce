/** Failure-compatible result types, and mapping a fallible function over a
    sequence the way Python's `list(map(f, xs))` does: in order, stopping at
    the first element whose call raises. */
module Wrappers {

  datatype Option<+T> = None | Some(value: T)

  datatype Result<+R, +E> = Success(value: R) | Failure(error: E)

  /** `list(map(f, xs))` where `f` may raise: either every call succeeds and the
      results come back one per element, in order, or the error is the one
      raised by the first failing element. */
  function MapResult<A, B, E>(f: A -> Result<B, E>, xs: seq<A>): (r: Result<seq<B>, E>)
    ensures r.Success? <==> forall i :: 0 <= i < |xs| ==> f(xs[i]).Success?
    ensures r.Success? ==> |r.value| == |xs|
    ensures r.Success? ==> forall i :: 0 <= i < |xs| ==> r.value[i] == f(xs[i]).value
    ensures r.Failure? ==>
      exists i :: 0 <= i < |xs| && f(xs[i]).Failure? && f(xs[i]).error == r.error &&
        (forall j :: 0 <= j < i ==> f(xs[j]).Success?)
  {
    if xs == [] then Success([])
    else
      match f(xs[0])
      case Failure(e) => Failure(e)
      case Success(y) =>
        var rest := MapResult(f, xs[1..]);
        match rest
        case Failure(e) =>
          assert (exists i :: 0 <= i < |xs| && f(xs[i]).Failure? && f(xs[i]).error == e &&
                    (forall j :: 0 <= j < i ==> f(xs[j]).Success?)) by {
            var i :| 0 <= i < |xs[1..]| && f(xs[1..][i]).Failure? && f(xs[1..][i]).error == e &&
              (forall j :: 0 <= j < i ==> f(xs[1..][j]).Success?);
            forall j | 0 < j < i + 1 ensures f(xs[j]).Success? {
              assert xs[j] == xs[1..][j - 1];
            }
            assert xs[i + 1] == xs[1..][i];
          }
          Failure(e)
        case Success(ys) =>
          assert forall i :: 0 < i < |xs| ==> xs[i] == xs[1..][i - 1];
          Success([y] + ys)
  }

  /** Mapping over a concatenation is the concatenation of the two mappings
      when both succeed, and fails when either part fails. */
  lemma MapResultAppend<A, B, E>(f: A -> Result<B, E>, xs: seq<A>, ys: seq<A>)
    ensures MapResult(f, xs + ys).Success? <==> MapResult(f, xs).Success? && MapResult(f, ys).Success?
    ensures MapResult(f, xs + ys).Success? ==>
      MapResult(f, xs + ys).value == MapResult(f, xs).value + MapResult(f, ys).value
  {
    var zs := xs + ys;
    assert forall i :: 0 <= i < |xs| ==> zs[i] == xs[i];
    assert forall i :: 0 <= i < |ys| ==> zs[|xs| + i] == ys[i];
    if MapResult(f, zs).Success? {
      assert MapResult(f, xs).Success?;
      assert MapResult(f, ys).Success?;
      var a, b, c := MapResult(f, xs).value, MapResult(f, ys).value, MapResult(f, zs).value;
      assert |c| == |a + b|;
      forall i | 0 <= i < |c| ensures c[i] == (a + b)[i] {
        if i >= |xs| {
          assert zs[i] == ys[i - |xs|];
        }
      }
    } else if MapResult(f, xs).Success? && MapResult(f, ys).Success? {
      forall i | 0 <= i < |zs| ensures f(zs[i]).Success? {
        if i >= |xs| {
          assert zs[i] == ys[i - |xs|];
        }
      }
    }
  }
}
