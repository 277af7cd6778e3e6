/** Sequence helpers shared by the translator and the table merger. */
module Seqs {

  datatype Option<T> = None | Some(value: T)

  /** The index of the first element of `s` that satisfies `p`: the shape of
      every early-exit linear scan in the system (a dictionary lookup, an
      affix search, a record search). */
  function FirstIndex<T>(s: seq<T>, p: T -> bool): (r: Option<nat>)
    ensures r.Some? ==> r.value < |s| && p(s[r.value])
    ensures forall j :: 0 <= j < |s| && (r.None? || j < r.value) ==> !p(s[j])
  {
    if s == [] then None
    else if p(s[0]) then Some(0)
    else match FirstIndex(s[1..], p)
      case None => None
      case Some(k) => Some(k + 1)
  }

  /** A scan stops at the first element that satisfies `p`. */
  lemma FirstIndexAt<T>(s: seq<T>, p: T -> bool, k: nat)
    requires k < |s| && p(s[k])
    requires forall j :: 0 <= j < k ==> !p(s[j])
    ensures FirstIndex(s, p) == Some(k)
  {
  }

  /** A scan over elements none of which satisfies `p` finds nothing. */
  lemma FirstIndexNone<T>(s: seq<T>, p: T -> bool)
    requires forall j :: 0 <= j < |s| ==> !p(s[j])
    ensures FirstIndex(s, p) == None
  {
  }
}
