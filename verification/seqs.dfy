/** Linear searches and filters over sequences, shared by the format and extension matchers. */
module Seqs {
  import opened Wrappers

  /** The index of the first element of `s` that satisfies `p`, if any. */
  function FirstIndex<T>(s: seq<T>, p: T -> bool): (r: Option<nat>)
    ensures r.Some? ==> r.value < |s| && p(s[r.value])
    ensures r.Some? ==> forall j :: 0 <= j < r.value ==> !p(s[j])
    ensures r.None? ==> forall j :: 0 <= j < |s| ==> !p(s[j])
  {
    if |s| == 0 then None
    else if p(s[0]) then Some(0)
    else match FirstIndex(s[1..], p)
      case None => None
      case Some(k) => Some(k + 1)
  }

  /** The positions of `s`, in increasing order, whose element `f` maps to a value. */
  ghost function Kept<A, B>(s: seq<A>, f: A -> Option<B>): (k: seq<nat>)
    ensures |k| <= |s|
    ensures forall j :: 0 <= j < |k| ==> k[j] < |s| && f(s[k[j]]).Some?
    ensures forall a, b :: 0 <= a < b < |k| ==> k[a] < k[b]
    ensures forall i :: 0 <= i < |s| && f(s[i]).Some? ==> i in k
  {
    if |s| == 0 then []
    else
      var prefix := Kept(s[..|s| - 1], f);
      prefix + (if f(s[|s| - 1]).Some? then [|s| - 1] else [])
  }

  /**
   * Applies `f` to every element of `s` in order and keeps the values it
   * produces: the result is exactly the image of the positions `Kept(s, f)`.
   */
  function FilterMap<A, B>(s: seq<A>, f: A -> Option<B>): (r: seq<B>)
    ensures |r| == |Kept(s, f)|
    ensures forall j :: 0 <= j < |r| ==> f(s[Kept(s, f)[j]]) == Some(r[j])
  {
    if |s| == 0 then []
    else
      var prefix := FilterMap(s[..|s| - 1], f);
      prefix + (match f(s[|s| - 1]) case Some(b) => [b] case None => [])
  }

  /** When `f` maps no element to a value, no position is kept. */
  lemma {:induction false} KeptNothing<A, B>(s: seq<A>, f: A -> Option<B>)
    requires forall i :: 0 <= i < |s| ==> f(s[i]).None?
    ensures Kept(s, f) == []
  {
    if |s| > 0 {
      KeptNothing(s[..|s| - 1], f);
    }
  }
}
