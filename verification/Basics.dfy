/** Notions shared by several of the models. */
module Basics {

  datatype Option<+T> = None | Some(value: T)

  /** The sequence without its element `p`. */
  function RemoveAt<T>(s: seq<T>, p: nat): (r: seq<T>)
    requires p < |s|
    ensures |r| == |s| - 1
  {
    s[..p] + s[p + 1..]
  }

  lemma RemoveAtIndex<T>(s: seq<T>, p: nat)
    requires p < |s|
    ensures var r := RemoveAt(s, p);
            forall q :: 0 <= q < |r| ==> r[q] == if q < p then s[q] else s[q + 1]
  {
    var r := RemoveAt(s, p);
    forall q | 0 <= q < |r| ensures r[q] == if q < p then s[q] else s[q + 1] {
    }
  }
}
