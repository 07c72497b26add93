/** The JS string primitives the str layer is written with, on unit
    sequences: `indexOf` and `lastIndexOf`, as ECMAScript defines them for
    a numeric position argument. */
module JsString {
  import opened Base

  /** `t` occurs in `v` at offset `k`. */
  predicate OccursAt(v: seq<Unit>, t: seq<Unit>, k: int) {
    0 <= k && k + |t| <= |v| && v[k..k + |t|] == t
  }

  /** The first occurrence of `t` at or after `k`, or -1. */
  function SearchForward(v: seq<Unit>, t: seq<Unit>, k: nat): (r: int)
    ensures r == -1 || (k <= r && OccursAt(v, t, r))
    ensures forall p :: k <= p && (r == -1 || p < r) ==> !OccursAt(v, t, p)
    decreases |v| + 1 - k
  {
    if k + |t| > |v| then -1
    else if OccursAt(v, t, k) then k
    else SearchForward(v, t, k + 1)
  }

  /** The last occurrence of `t` at or before `k`, or -1. */
  function SearchBackward(v: seq<Unit>, t: seq<Unit>, k: int): (r: int)
    ensures r == -1 || (0 <= r <= k && OccursAt(v, t, r))
    ensures forall p :: p <= k && r < p ==> !OccursAt(v, t, p)
    decreases if k < 0 then 0 else k + 1
  {
    if k < 0 then -1
    else if OccursAt(v, t, k) then k
    else SearchBackward(v, t, k - 1)
  }

  /** `v.indexOf(t, from)`: the position is clamped to [0, |v|]. */
  function JsIndexOf(v: seq<Unit>, t: seq<Unit>, from: int): (r: int)
    ensures r == -1 || (Clamp(from, 0, |v|) <= r && OccursAt(v, t, r))
    ensures forall p :: Clamp(from, 0, |v|) <= p && (r == -1 || p < r) ==> !OccursAt(v, t, p)
  {
    SearchForward(v, t, Clamp(from, 0, |v|))
  }

  /** `v.lastIndexOf(t, from)`: an absent position means +Infinity; it is
      clamped to [0, |v|] and the search starts no later than `|v| - |t|`. */
  function JsLastIndexOf(v: seq<Unit>, t: seq<Unit>, from: Option<int>): (r: int)
    ensures var k := if from.None? then |v| else Clamp(from.value, 0, |v|);
      && (r == -1 || (0 <= r <= k && OccursAt(v, t, r)))
      && (forall p :: p <= k && r < p ==> !OccursAt(v, t, p))
  {
    var k := if from.None? then |v| else Clamp(from.value, 0, |v|);
    SearchBackward(v, t, Min(k, |v| - |t|))
  }
}
