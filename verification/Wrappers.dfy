/** Missing values and JavaScript's `Map`. */
module Wrappers {
  /** A value that may be missing: `undefined`, an absent file, a lookup that found nothing. */
  datatype Option<+T> = None | Some(value: T)

  /** `set` of a JavaScript `Map` with its entries in order: a repeated key keeps its place and gets the new value. */
  function MapSet<V>(m: seq<(string, V)>, k: string, v: V): seq<(string, V)> {
    if m == [] then [(k, v)]
    else if m[0].0 == k then [(k, v)] + m[1..]
    else [m[0]] + MapSet(m[1..], k, v)
  }

  lemma {:induction false} MapSetNew<V>(m: seq<(string, V)>, k: string, v: V)
    requires forall i | 0 <= i < |m| :: m[i].0 != k
    ensures MapSet(m, k, v) == m + [(k, v)]
  {
    if m != [] {
      MapSetNew(m[1..], k, v);
    }
  }
}
