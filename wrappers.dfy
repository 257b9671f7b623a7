/** Optional values: the script's `None` results and pandas' missing cells. */
module Wrappers {

  datatype Option<+T> = None | Some(value: T)

  /** The list `[v]` for `Some(v)` and `[]` for `None`. */
  function ToSeq<T>(o: Option<T>): (r: seq<T>)
    ensures |r| <= 1
    ensures o.Some? <==> |r| == 1
    ensures o.Some? ==> r[0] == o.value
  {
    match o
    case None => []
    case Some(v) => [v]
  }
}
