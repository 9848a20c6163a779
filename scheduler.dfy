/** Callbacks scheduled with the browser (`requestAnimationFrame`,
    `setTimeout`): each has a handle id and carries the state its closure
    captured. Several may be pending at once; cancelling one by id removes
    it, and cancelling an id that already ran does nothing. */
module Scheduler {
  datatype Handle<T> = Handle(id: nat, payload: T)

  /** `cancelAnimationFrame(id)` / `clearTimeout(id)`. */
  function Cancel<T(==)>(pending: seq<Handle<T>>, id: nat): (r: seq<Handle<T>>)
    ensures forall j :: 0 <= j < |r| ==> r[j] in pending && r[j].id != id
    ensures forall j :: 0 <= j < |pending| && pending[j].id != id ==> pending[j] in r
    ensures |r| <= |pending|
    decreases |pending|
  {
    if pending == [] then []
    else (if pending[0].id == id then [] else [pending[0]]) + Cancel(pending[1..], id)
  }

  /** The pending callbacks once the k-th has run. */
  function Without<T>(pending: seq<Handle<T>>, k: nat): (r: seq<Handle<T>>)
    requires k < |pending|
    ensures |r| == |pending| - 1
    ensures forall j :: 0 <= j < |r| ==> r[j] == if j < k then pending[j] else pending[j + 1]
  {
    pending[..k] + pending[k + 1..]
  }
}
