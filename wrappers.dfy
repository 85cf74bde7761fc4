/**
 * Optional values, the model's stand-in for a C pointer that may be NULL, and
 * the regrouping of concatenations used when effects are accumulated.
 */
module Wrappers {

  datatype Option<+T> = None | Some(value: T)

  /** The payloads of a sequence of optional values that are all present. */
  function Values<T>(xs: seq<Option<T>>): (r: seq<T>)
    requires forall k :: 0 <= k < |xs| ==> xs[k].Some?
    ensures |r| == |xs|
    ensures forall k :: 0 <= k < |xs| ==> xs[k] == Some(r[k])
  {
    seq(|xs|, k requires 0 <= k < |xs| => xs[k].value)
  }

  lemma AppendAssoc<T>(a: seq<T>, b: seq<T>, c: seq<T>)
    ensures a + (b + c) == (a + b) + c
  {
  }
}
