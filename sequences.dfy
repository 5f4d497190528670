/** The abstract sequence both containers implement, and the edits their operations perform on it. */
module Sequences {

  /** `s` with `v` placed immediately before index `k` (at the end when `k == |s|`). */
  function InsertAt<T>(s: seq<T>, k: nat, v: T): (r: seq<T>)
    requires k <= |s|
    ensures |r| == |s| + 1
    ensures r[k] == v
    ensures forall i :: 0 <= i < k ==> r[i] == s[i]
    ensures forall i :: k <= i < |s| ==> r[i + 1] == s[i]
  {
    s[..k] + [v] + s[k..]
  }

  /** `s` without the half-open index range `[lo, hi)`. */
  function RemoveRange<T>(s: seq<T>, lo: nat, hi: nat): (r: seq<T>)
    requires lo <= hi <= |s|
    ensures |r| == |s| - (hi - lo)
    ensures forall i :: 0 <= i < lo ==> r[i] == s[i]
    ensures forall i :: lo <= i < |r| ==> r[i] == s[i + (hi - lo)]
  {
    s[..lo] + s[hi..]
  }

  /** Appending and prepending are insertion at the past-the-end and the first position. */
  lemma InsertAtEnds<T>(s: seq<T>, v: T)
    ensures InsertAt(s, |s|, v) == s + [v]
    ensures InsertAt(s, 0, v) == [v] + s
  {
  }

  /** Erasing the element just inserted restores the sequence. */
  lemma RemoveAfterInsert<T>(s: seq<T>, k: nat, v: T)
    requires k <= |s|
    ensures RemoveRange(InsertAt(s, k, v), k, k + 1) == s
  {
  }

  /** Removing the whole range empties the sequence; an empty range changes nothing. */
  lemma RemoveRangeExtremes<T>(s: seq<T>, k: nat)
    requires k <= |s|
    ensures RemoveRange(s, 0, |s|) == []
    ensures RemoveRange(s, k, k) == s
  {
  }

  /** Removing `[lo, m)` and then the element that has moved to `lo` removes `[lo, m + 1)`. */
  lemma RemoveRangeStep<T>(s: seq<T>, r: seq<T>, t: seq<T>, lo: nat, m: nat)
    requires lo <= m < |s| && r == RemoveRange(s, lo, m) && t == RemoveRange(r, lo, lo + 1)
    ensures t == RemoveRange(s, lo, m + 1)
  {
  }
}
