/** The two pieces of promise machinery the prober depends on, on values:
    a deferred that takes the fate of its first settle call, and Q.all. */
module Promises {

  datatype Option<+T> = None | Some(value: T)

  /** One call to a deferred's resolve or reject. */
  datatype Settlement<+T, +E> = Resolve(value: T) | Reject(reason: E)

  /** The fate of a deferred on which `calls` were made, in program order.
      The first call settles it; later calls are ignored. No call leaves it pending. */
  function FirstSettle<T, E>(calls: seq<Settlement<T, E>>): Option<Settlement<T, E>>
  {
    if calls == [] then None else Some(calls[0])
  }

  /** Q.all over promises that have already settled: resolves with every value,
      in input order, when all resolve, and otherwise rejects with a reason one
      of them rejected with. */
  function All<T, E>(ps: seq<Settlement<T, E>>): (r: Settlement<seq<T>, E>)
    ensures r.Resolve? <==> forall i :: 0 <= i < |ps| ==> ps[i].Resolve?
    ensures r.Resolve? ==> |r.value| == |ps| && forall i :: 0 <= i < |ps| ==> r.value[i] == ps[i].value
    ensures r.Reject? ==> exists i :: 0 <= i < |ps| && ps[i] == Reject(r.reason)
  {
    if ps == [] then Resolve([])
    else
      match ps[0]
      case Reject(e) => Reject(e)
      case Resolve(v) =>
        match All(ps[1..])
        case Resolve(vs) => Resolve([v] + vs)
        case Reject(e) => Reject(e)
  }

  /** Q.all over two lists that both resolve resolves with their values joined. */
  lemma AllAppend<T, E>(a: seq<Settlement<T, E>>, b: seq<Settlement<T, E>>)
    requires All(a).Resolve? && All(b).Resolve?
    ensures All(a + b) == Resolve(All(a).value + All(b).value)
  {
    var ab := a + b;
    assert forall i :: 0 <= i < |ab| ==> ab[i].Resolve? by {
      forall i | 0 <= i < |ab| ensures ab[i].Resolve? {
        if i >= |a| {
          assert ab[i] == b[i - |a|];
        }
      }
    }
    var vs := All(a).value + All(b).value;
    forall i | 0 <= i < |ab| ensures All(ab).value[i] == vs[i] {
      if i >= |a| {
        assert ab[i] == b[i - |a|];
      }
    }
    assert All(ab).value == vs;
  }

  /** underscore's `_.flatten` over rows of promises: it flattens to any
      depth, but no promise is an array, so it removes exactly one level. */
  function Flatten<T>(xss: seq<seq<T>>): seq<T>
  {
    if xss == [] then [] else Flatten(xss[..|xss| - 1]) + xss[|xss| - 1]
  }

  /** Flattening distributes over concatenation of the rows. */
  lemma {:induction false} FlattenConcat<T>(xss: seq<seq<T>>, yss: seq<seq<T>>)
    ensures Flatten(xss + yss) == Flatten(xss) + Flatten(yss)
  {
    if yss == [] {
      assert xss + yss == xss;
    } else {
      var init := yss[..|yss| - 1];
      FlattenConcat(xss, init);
      assert (xss + yss)[..|xss + yss| - 1] == xss + init;
      assert Flatten(xss + yss) == Flatten(xss + init) + yss[|yss| - 1];
    }
  }
}
