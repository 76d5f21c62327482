/** Tables keyed by integer ids, read in ascending id order (SQLite's rowid order). */
module Rows {
  import opened JsonValues

  /** The keys of `m` in `[lo, hi)`, ascending. */
  function KeysBetween<V>(m: map<int, V>, lo: int, hi: int): (ks: seq<int>)
    decreases hi - lo
    ensures forall i :: 0 <= i < |ks| ==> ks[i] in m && lo <= ks[i] < hi
    ensures forall k :: k in m && lo <= k < hi ==> k in ks
    ensures forall i, j :: 0 <= i < j < |ks| ==> ks[i] < ks[j]
  {
    if lo >= hi then []
    else if lo in m then [lo] + KeysBetween(m, lo + 1, hi)
    else KeysBetween(m, lo + 1, hi)
  }

  /** The rows of `m` with keys in `[lo, hi)`, by ascending key. */
  function RowsBetween<V>(m: map<int, V>, lo: int, hi: int): (rs: seq<V>)
    ensures |rs| == |KeysBetween(m, lo, hi)|
    ensures forall i :: 0 <= i < |rs| ==> rs[i] == m[KeysBetween(m, lo, hi)[i]]
  {
    var ks := KeysBetween(m, lo, hi);
    seq(|ks|, i requires 0 <= i < |ks| => m[ks[i]])
  }

  /** The smallest key in `[lo, hi)` whose row satisfies `p`; `.first()` of a filtered query. */
  function FirstMatch<V>(m: map<int, V>, p: V -> bool, lo: int, hi: int): (r: Option<int>)
    decreases hi - lo
    ensures r.Some? ==> r.value in m && lo <= r.value < hi && p(m[r.value])
    ensures r.Some? ==> forall k :: lo <= k < r.value && k in m ==> !p(m[k])
    ensures r.None? ==> forall k :: lo <= k < hi && k in m ==> !p(m[k])
  {
    if lo >= hi then None
    else if lo in m && p(m[lo]) then Some(lo)
    else FirstMatch(m, p, lo + 1, hi)
  }
}
