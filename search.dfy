/** Searching a str or bytes value (str.js lines 327-346 and 640-672,
    767-877): containment, find/rfind with their bound normalisation and
    astral translation, index/rindex, startswith/endswith, partition and
    rpartition. */
module Search {
  import opened Base
  import opened Codepoints
  import opened JsString
  import opened StrObject

  /** `sq$contains` of str (lines 327-332): the left operand must be a str. */
  function StrContains(v: seq<Unit>, ob: Obj): (r: Result<bool>)
    ensures r.Ok? <==> ob.Text?
    ensures r.Err? ==> r.error == TypeError
    ensures r.Ok? ==> (r.value <==> exists k :: OccursAt(v, ob.units, k))
  {
    if !ob.Text? then Err(TypeError)
    else Ok(JsIndexOf(v, ob.units, 0) != -1)
  }

  /** `sq$contains` of bytes (lines 334-346): a bytes needle, or an integer
      that must be a byte value. */
  function BytesContains(v: seq<Unit>, ob: Obj): (r: Result<bool>)
    ensures r.Err? <==> !(ob.Byts? || ob.Int?) || (ob.Int? && !(0 <= ob.n <= 0xFF))
    ensures r.Err? ==> r.error == (if ob.Int? then ValueError else TypeError)
    ensures r.Ok? && ob.Byts? ==> (r.value <==> exists k :: OccursAt(v, ob.units, k))
    ensures r.Ok? && ob.Int? ==> (r.value <==> exists k :: 0 <= k < |v| && v[k] == ob.n)
  {
    match ob
    case Byts(u) => Ok(JsIndexOf(v, u, 0) != -1)
    case Int(n) =>
      if n < 0 || n > 0xFF then Err(ValueError)
      else
        var r := JsIndexOf(v, [n], 0);
        assert r != -1 ==> v[r] == v[r..r + 1][0];
        assert forall k :: 0 <= k < |v| && v[k] == n ==> OccursAt(v, [n], k) by {
          forall k | 0 <= k < |v| && v[k] == n
            ensures OccursAt(v, [n], k)
          {
            assert v[k..k + 1] == [n];
          }
        }
        Ok(r != -1)
    case _ => Err(TypeError)
  }

  // ---------------------------------------------------------------------
  // find / rfind

  /** A `start` or `end` argument that find accepts: absent, None or an
      integer. */
  predicate IsBound(a: Option<Obj>) {
    a.None? || a.value.NoneObj? || a.value.Int?
  }

  /** The argument check of lines 774-779 as written: the test on `end` looks
      at `start` being None, so a None `end` is refused unless `start` is
      None, and a non-integer `end` is let through when `start` is None. */
  predicate FindArgsCheckedAsWritten(start: Option<Obj>, end: Option<Obj>) {
    && IsBound(start)
    && (end.None? || start == Some(NoneObj) || end.value.Int?)
  }

  /** The argument check the messages describe: each bound is absent, None or
      an integer. */
  predicate FindArgsChecked(start: Option<Obj>, end: Option<Obj>) {
    IsBound(start) && IsBound(end)
  }

  /** `s.find(t, 0, None)` is refused by the check as written, and accepted by
      the corrected one, which refuses exactly the non-integer bounds. */
  lemma FindNoneEndRefused()
    ensures !FindArgsCheckedAsWritten(Some(Int(0)), Some(NoneObj))
    ensures FindArgsChecked(Some(Int(0)), Some(NoneObj))
    ensures forall s, e :: FindArgsChecked(s, e) <==> (IsBound(s) && IsBound(e))
  {
  }

  /** The value of a checked bound; absent and None both mean "default". */
  function BoundOf(a: Option<Obj>): Option<int>
    requires IsBound(a)
  {
    if a.None? || a.value.NoneObj? then None else Some(a.value.n)
  }

  /** The last `i < k` with `cp[i] == j`, or -1. */
  function LastPosition(cp: seq<nat>, j: int, k: nat): (r: int)
    requires k <= |cp|
    ensures r == -1 || (0 <= r < k && cp[r] == j)
    ensures forall i :: r < i < k ==> cp[i] != j
  {
    if k == 0 then -1
    else if cp[k - 1] == j then k - 1
    else LastPosition(cp, j, k - 1)
  }

  /** The loop of lines 823-827 as written: the logical index whose start is
      the unit offset `jsidx`, looked up among the entries of the table only,
      so the end of the buffer is never found. */
  method ReverseLookupAsWritten(cp: seq<nat>, jsidx: int) returns (idx: int)
    ensures idx == LastPosition(cp, jsidx, |cp|)
  {
    idx := -1;
    var i := 0;
    while i < |cp|
      invariant 0 <= i <= |cp|
      invariant idx == LastPosition(cp, jsidx, i)
    {
      if jsidx == cp[i] {
        idx := i;
      }
      i := i + 1;
    }
  }

  /** The intended reverse lookup: the table entries, and the end of the
      buffer (`n` units) as the position after the last character. */
  function PositionOf(cp: seq<nat>, jsidx: int, n: nat): (r: int)
    ensures r == -1 || (0 <= r <= |cp| && (if r < |cp| then cp[r] else n) == jsidx)
    ensures r == -1 ==> jsidx != n && forall i :: 0 <= i < |cp| ==> cp[i] != jsidx
  {
    var p := LastPosition(cp, jsidx, |cp|);
    if p == -1 && jsidx == n then |cp| else p
  }

  /** The corrected loop: the as-written scan, then the end of the buffer. */
  method ReverseLookup(cp: seq<nat>, jsidx: int, n: nat) returns (idx: int)
    ensures idx == PositionOf(cp, jsidx, n)
  {
    idx := ReverseLookupAsWritten(cp, jsidx);
    if idx == -1 && jsidx == n {
      idx := |cp|;
    }
  }

  /** The normalised `start` (lines 789-796): default 0, negative counts
      from the end, then clamped at 0. */
  function NormStart(len: nat, s: Option<int>): nat {
    if s.None? then 0
    else
      var x := if s.value >= 0 then s.value else len + s.value;
      if x < 0 then 0 else x
  }

  /** The normalised `end` (lines 798-803): default `len`, negative counts
      from the end, not clamped. */
  function NormEnd(len: nat, e: Option<int>): int {
    if e.None? then len else if e.value >= 0 then e.value else len + e.value
  }

  /** The search of lines 785-836 on checked bounds, with the corrected reverse
      lookup: -1 early when the start passes the length or the end precedes
      the start, then a JS search on the units between the translated bounds,
      translated back to a logical offset. */
  function FindIn(val: Value, t: seq<Unit>, s: Option<int>, e: Option<int>, reversed: bool): int {
    var ix := IndexFor(val);
    var len := Len(val.v, ix);
    var start := NormStart(len, s);
    if start > len then -1
    else
      var end := NormEnd(len, e);
      if end < start then -1
      else
        var jj := UnitMatch(val, t, start, end, reversed);
        match ix
        case NoAstral => jj
        case Astral(cp) => PositionOf(cp, jj, |val.v|)
  }

  /** The unit window of the search (lines 811-815 and 831): the translated
      start `a`, and `last`, the translated end less the target's length. An
      entry past the table is undefined and becomes the buffer's length. */
  function UnitWindow(val: Value, t: seq<Unit>, start: nat, end: int): (w: (int, int))
    requires start <= end
  {
    match IndexFor(val)
    case NoAstral => (start, end - |t|)
    case Astral(cp) =>
      var a := if start < |cp| then cp[start] else |val.v|;
      var b := if end < |cp| then cp[end] else |val.v|;
      (a, b - |t|)
  }

  /** The JS search and the window test (lines 818-819, 832-833). */
  function UnitMatch(val: Value, t: seq<Unit>, start: nat, end: int, reversed: bool): int
    requires start <= end
  {
    var (a, last) := UnitWindow(val, t, start, end);
    var j := if reversed then JsLastIndexOf(val.v, t, Some(last)) else JsIndexOf(val.v, t, a);
    if a <= j <= last then j else -1
  }

  /** `find` (`reversed` false) and `rfind` (`reversed` true), lines 767-838,
      with the corrected argument check and reverse lookup. */
  function FindOf(val: Value, tgt: Obj, start: Option<Obj>, end: Option<Obj>, reversed: bool): (r: Result<int>)
    ensures r.Err? <==> !IsKind(tgt, val.kind) || !FindArgsChecked(start, end)
    ensures r.Err? ==> r.error == TypeError
    ensures r.Ok? ==> -1 <= r.value <= LengthOf(val)
  {
    if !IsKind(tgt, val.kind) || !FindArgsChecked(start, end) then Err(TypeError)
    else
      FindInRange(val, UnitsOf(tgt), BoundOf(start), BoundOf(end), reversed);
      Ok(FindIn(val, UnitsOf(tgt), BoundOf(start), BoundOf(end), reversed))
  }

  /** `find`/`rfind` as the runtime executes it: the bounds, the JS search,
      and the reverse-lookup loop. */
  method Find(val: Value, tgt: Obj, start: Option<Obj>, end: Option<Obj>, reversed: bool) returns (r: Result<int>)
    ensures r == FindOf(val, tgt, start, end, reversed)
  {
    if !IsKind(tgt, val.kind) || !FindArgsChecked(start, end) {
      return Err(TypeError);
    }
    var t := UnitsOf(tgt);
    var ix := IndexFor(val);
    var len := Len(val.v, ix);
    var lo := NormStart(len, BoundOf(start));
    if lo > len {
      return Ok(-1);
    }
    var hi := NormEnd(len, BoundOf(end));
    if hi < lo {
      return Ok(-1);
    }
    var jsidx := UnitMatch(val, t, lo, hi, reversed);
    if ix.Astral? {
      var idx := ReverseLookup(ix.starts, jsidx, |val.v|);
      r := Ok(idx);
    } else {
      r := Ok(jsidx);
    }
  }

  /** The logical window the bounds describe: from the normalised start to
      the normalised end clamped to the length. */
  function WindowEnd(len: nat, e: Option<int>): nat {
    var end := NormEnd(len, e);
    if end < 0 then 0 else Min(end, len)
  }

  /** `t` occurs at the start of logical character `p`, and ends no later
      than the start of character `hi`. */
  ghost predicate MatchIn(val: Value, t: seq<Unit>, p: int, hi: nat)
    requires hi <= LengthOf(val)
  {
    && 0 <= p <= hi
    && Start(val.v, IndexFor(val), p) + |t| <= Start(val.v, IndexFor(val), hi)
    && OccursAt(val.v, t, Start(val.v, IndexFor(val), p))
  }

  /** Every occurrence of `t` begins at a character start (or the end). This
      holds for every value without an index. */
  ghost predicate Aligned(val: Value, t: seq<Unit>) {
    forall k :: OccursAt(val.v, t, k) ==>
      exists p :: 0 <= p <= LengthOf(val) && Start(val.v, IndexFor(val), p) == k
  }

  lemma AlignedWithoutIndex(val: Value, t: seq<Unit>)
    requires IndexFor(val).NoAstral?
    ensures Aligned(val, t)
  {
    forall k | OccursAt(val.v, t, k)
      ensures exists p :: 0 <= p <= LengthOf(val) && Start(val.v, IndexFor(val), p) == k
    {
      assert Start(val.v, IndexFor(val), k) == k;
    }
  }

  lemma {:induction false} StartStrict(v: seq<Unit>, ix: Index, p: nat, q: nat)
    requires ValidIndex(v, ix) && p < q <= Len(v, ix)
    ensures Start(v, ix, p) < Start(v, ix, q)
  {
    StartBounds(v, ix, p);
    StartMono(v, ix, p + 1, q);
  }

  /** The result is -1 or within [-1, len]. */
  lemma FindInRange(val: Value, t: seq<Unit>, s: Option<int>, e: Option<int>, reversed: bool)
    ensures -1 <= FindIn(val, t, s, e, reversed) <= LengthOf(val)
  {
  }

  /** The unit-level facts behind a forward or backward search: `jj` is the
      first (last) occurrence in the unit window [a, last], or -1 when the
      window has none. */
  ghost predicate UnitResult(v: seq<Unit>, t: seq<Unit>, a: int, last: int, jj: int, reversed: bool) {
    && (jj != -1 ==> a <= jj <= last && OccursAt(v, t, jj))
    && (jj != -1 && !reversed ==> forall k :: a <= k < jj ==> !OccursAt(v, t, k))
    && (jj != -1 && reversed ==> forall k :: jj < k <= last ==> !OccursAt(v, t, k))
    && (jj == -1 ==> forall k :: a <= k <= last ==> !OccursAt(v, t, k))
  }

  lemma UnitSearch(v: seq<Unit>, t: seq<Unit>, a: nat, last: int, reversed: bool)
    requires a <= |v|
    ensures var j := if reversed then JsLastIndexOf(v, t, Some(last)) else JsIndexOf(v, t, a);
      UnitResult(v, t, a, last, if a <= j <= last then j else -1, reversed)
  {
  }

  /** What find and rfind return, in logical terms. The window is
      [lo, hi] with hi the clamped end. A result other than -1 is a match in
      the window, and the first (find) or last (rfind) one; -1 means the
      window holds no match, provided every occurrence is aligned to a
      character (always so without an index). */
  lemma FindInMeaning(val: Value, t: seq<Unit>, s: Option<int>, e: Option<int>, reversed: bool)
    ensures var len := LengthOf(val);
      var lo := NormStart(len, s);
      var r := FindIn(val, t, s, e, reversed);
      && (lo > len || NormEnd(len, e) < lo ==> r == -1)
      && (lo <= len && lo <= NormEnd(len, e) ==>
            var hi := WindowEnd(len, e);
            && (r != -1 ==> lo <= r && MatchIn(val, t, r, hi))
            && (r != -1 && !reversed ==> forall p :: lo <= p < r ==> !MatchIn(val, t, p, hi))
            && (r != -1 && reversed ==> forall p :: r < p <= hi ==> !MatchIn(val, t, p, hi))
            && (r == -1 && Aligned(val, t) ==> forall p :: lo <= p <= hi ==> !MatchIn(val, t, p, hi)))
  {
    var len := LengthOf(val);
    if NormStart(len, s) <= len && NormStart(len, s) <= NormEnd(len, e) {
      FindInWindow(val, t, s, e, reversed);
    }
  }

  /** A window that is not empty: the search of its units, read back as
      character positions. */
  lemma FindInWindow(val: Value, t: seq<Unit>, s: Option<int>, e: Option<int>, reversed: bool)
    requires NormStart(LengthOf(val), s) <= LengthOf(val)
    requires NormStart(LengthOf(val), s) <= NormEnd(LengthOf(val), e)
    ensures var lo := NormStart(LengthOf(val), s);
      var hi := WindowEnd(LengthOf(val), e);
      var r := FindIn(val, t, s, e, reversed);
      && (r != -1 ==> lo <= r && MatchIn(val, t, r, hi))
      && (r != -1 && !reversed ==> forall p :: lo <= p < r ==> !MatchIn(val, t, p, hi))
      && (r != -1 && reversed ==> forall p :: r < p <= hi ==> !MatchIn(val, t, p, hi))
      && (r == -1 && Aligned(val, t) ==> forall p :: lo <= p <= hi ==> !MatchIn(val, t, p, hi))
  {
    var ix := IndexFor(val);
    IndexForValid(val);
    var len := Len(val.v, ix);
    var lo := NormStart(len, s);
    var end := NormEnd(len, e);
    var hi := WindowEnd(len, e);
    var (a, last) := UnitWindow(val, t, lo, end);
    var jj := UnitMatch(val, t, lo, end, reversed);
    var r := FindIn(val, t, s, e, reversed);
    UnitWindowFacts(val, t, lo, end);
    UnitSearch(val.v, t, a, last, reversed);
    BackTranslation(val, jj, r, lo, end, t, s, e, reversed);
    LiftSearch(val, t, lo, hi, a, last, jj, r, reversed);
  }

  /** The unit window starts at the start of `lo`; every match inside the
      logical window lies inside it, and anything found in it fits before the
      start of `hi`. */
  lemma UnitWindowFacts(val: Value, t: seq<Unit>, lo: nat, end: int)
    requires lo <= LengthOf(val) && lo <= end
    ensures var hi := if end < 0 then 0 else Min(end, LengthOf(val));
      var (a, last) := UnitWindow(val, t, lo, end);
      && lo <= hi
      && a == Start(val.v, IndexFor(val), lo)
      && (forall p :: 0 <= p <= hi && Start(val.v, IndexFor(val), p) + |t| <= Start(val.v, IndexFor(val), hi)
            ==> Start(val.v, IndexFor(val), p) <= last)
      && (forall k :: OccursAt(val.v, t, k) && k <= last ==> k + |t| <= Start(val.v, IndexFor(val), hi))
  {
    IndexForValid(val);
    StartEnds(val.v, IndexFor(val));
  }

  /** The value handed back is -1 or the logical offset whose start is the
      unit result; when it is -1 for a unit result, that unit is no start. */
  lemma BackTranslation(val: Value, jj: int, r: int, lo: nat, end: int,
                        t: seq<Unit>, s: Option<int>, e: Option<int>, reversed: bool)
    requires var len := LengthOf(val);
      lo == NormStart(len, s) && end == NormEnd(len, e) && lo <= len && lo <= end
    requires jj == UnitMatch(val, t, lo, end, reversed) && r == FindIn(val, t, s, e, reversed)
    ensures r == -1 || (0 <= r <= LengthOf(val) && Start(val.v, IndexFor(val), r) == jj)
    ensures r == -1 && jj != -1 ==> forall p :: 0 <= p <= LengthOf(val) ==> Start(val.v, IndexFor(val), p) != jj
  {
    var (a, last) := UnitWindow(val, t, lo, end);
    UnitSearch(val.v, t, a, last, reversed);
  }

  /** Carries a unit-level search result over to logical offsets. */
  lemma LiftSearch(val: Value, t: seq<Unit>, lo: nat, hi: nat, a: int, last: int, jj: int, r: int, reversed: bool)
    requires lo <= hi <= LengthOf(val)
    requires a == Start(val.v, IndexFor(val), lo)
    requires UnitResult(val.v, t, a, last, jj, reversed)
    requires r == -1 || (0 <= r <= LengthOf(val) && Start(val.v, IndexFor(val), r) == jj)
    requires r == -1 && jj != -1 ==> forall p :: 0 <= p <= LengthOf(val) ==> Start(val.v, IndexFor(val), p) != jj
    requires forall p :: 0 <= p <= hi && Start(val.v, IndexFor(val), p) + |t| <= Start(val.v, IndexFor(val), hi)
               ==> Start(val.v, IndexFor(val), p) <= last
    requires jj != -1 ==> jj + |t| <= Start(val.v, IndexFor(val), hi)
    ensures r != -1 ==> lo <= r && MatchIn(val, t, r, hi)
    ensures r != -1 && !reversed ==> forall p :: lo <= p < r ==> !MatchIn(val, t, p, hi)
    ensures r != -1 && reversed ==> forall p :: r < p <= hi ==> !MatchIn(val, t, p, hi)
    ensures r == -1 && Aligned(val, t) ==> forall p :: lo <= p <= hi ==> !MatchIn(val, t, p, hi)
  {
    var v := val.v;
    var ix := IndexFor(val);
    IndexForValid(val);
    if r != -1 {
      if r < lo {
        StartStrict(v, ix, r, lo);
      }
      if r > hi {
        StartStrict(v, ix, hi, r);
      }
      forall p | lo <= p < r && !reversed
        ensures !MatchIn(val, t, p, hi)
      {
        StartStrict(v, ix, p, r);
        StartMono(v, ix, lo, p);
      }
      forall p | r < p <= hi && reversed
        ensures !MatchIn(val, t, p, hi)
      {
        StartStrict(v, ix, r, p);
      }
    } else if Aligned(val, t) {
      forall p | lo <= p <= hi
        ensures !MatchIn(val, t, p, hi)
      {
        StartMono(v, ix, lo, p);
      }
    }
  }

  /** The reverse lookup finds every character start, the end of the buffer
      included. */
  lemma PositionOfStart(v: seq<Unit>, cp: seq<nat>, p: nat)
    requires ValidIndex(v, Astral(cp)) && p <= |cp|
    ensures PositionOf(cp, Start(v, Astral(cp), p), |v|) == p
  {
    var ix := Astral(cp);
    var r := PositionOf(cp, Start(v, ix, p), |v|);
    if p < |cp| && r > p {
      StartStrict(v, ix, p, r);
    }
  }

  /** An empty target is found at the normalised start, and by `rfind` with
      no bounds at the length, on every value. */
  lemma EmptyTargetFound(val: Value, s: Option<int>)
    requires NormStart(LengthOf(val), s) <= LengthOf(val)
    ensures FindIn(val, [], s, None, false) == NormStart(LengthOf(val), s)
    ensures FindIn(val, [], None, None, true) == LengthOf(val)
  {
    var ix := IndexFor(val);
    IndexForValid(val);
    var len := LengthOf(val);
    var lo := NormStart(len, s);
    StartMono(val.v, ix, lo, len);
    StartEnds(val.v, ix);
    assert OccursAt(val.v, [], Start(val.v, ix, lo));
    assert OccursAt(val.v, [], |val.v|);
    if ix.Astral? {
      PositionOfStart(val.v, ix.starts, lo);
      PositionOfStart(val.v, ix.starts, len);
    }
  }

  /** The loop as written misses the position after the last character: on
      a str holding one surrogate pair, `find("", 1)` and `rfind("")` find the
      unit offset 2, which the as-written loop does not map back, so they
      return -1; the corrected lookup maps it to 1. */
  lemma EmptyTargetAtEndLost()
    ensures var val := Value(Str, [0xD834, 0xDD1E]);
      && IndexFor(val) == Astral([0])
      && UnitMatch(val, [], 1, 1, false) == 2
      && UnitMatch(val, [], 0, 1, true) == 2
      && LastPosition([0], 2, 1) == -1
      && FindOf(val, Text([]), Some(Int(1)), None, false) == Ok(1)
      && FindOf(val, Text([]), None, None, true) == Ok(1)
  {
    var val := Value(Str, [0xD834, 0xDD1E]);
    assert HasSurrogate(val.v) by { assert IsSurrogate(val.v[0]); }
    assert StartsFrom(val.v, 0) == [0] + StartsFrom(val.v, 2);
    EmptyTargetFound(val, Some(1));
  }

  /** `index`/`rindex` (lines 840-862): `find`/`rfind`, with -1 turned into
      ValueError. */
  function IndexOrRaise(val: Value, tgt: Obj, start: Option<Obj>, end: Option<Obj>, reversed: bool): (r: Result<int>)
    ensures FindOf(val, tgt, start, end, reversed).Err? ==> r == FindOf(val, tgt, start, end, reversed)
    ensures FindOf(val, tgt, start, end, reversed).Ok? ==>
      (r == Err(ValueError) <==> FindOf(val, tgt, start, end, reversed).value == -1)
    ensures r.Ok? ==> r == FindOf(val, tgt, start, end, reversed) && 0 <= r.value
  {
    var f := FindOf(val, tgt, start, end, reversed);
    if f.Err? then f
    else if f.value == -1 then Err(ValueError)
    else f
  }

  // ---------------------------------------------------------------------
  // startswith / endswith

  /** `startswith` (lines 864-868): `v.indexOf(t) === 0`. */
  function StartsWith(val: Value, tgt: Obj): (r: Result<bool>)
    ensures r.Ok? <==> IsKind(tgt, val.kind)
    ensures r.Err? ==> r.error == TypeError
    ensures r.Ok? ==> (r.value <==> |UnitsOf(tgt)| <= |val.v| && val.v[..|UnitsOf(tgt)|] == UnitsOf(tgt))
  {
    if !IsKind(tgt, val.kind) then Err(TypeError)
    else
      var t := UnitsOf(tgt);
      assert OccursAt(val.v, t, 0) <==> |t| <= |val.v| && val.v[..|t|] == t;
      Ok(JsIndexOf(val.v, t, 0) == 0)
  }

  /** `endswith` (lines 871-875): `v.indexOf(t, |v| - |t|) !== -1`; when `t`
      is longer the position clamps to 0 and nothing fits. */
  function EndsWith(val: Value, tgt: Obj): (r: Result<bool>)
    ensures r.Ok? <==> IsKind(tgt, val.kind)
    ensures r.Err? ==> r.error == TypeError
    ensures r.Ok? ==> (r.value <==> |UnitsOf(tgt)| <= |val.v| && val.v[|val.v| - |UnitsOf(tgt)|..] == UnitsOf(tgt))
  {
    if !IsKind(tgt, val.kind) then Err(TypeError)
    else
      var t := UnitsOf(tgt);
      var v := val.v;
      assert |t| <= |v| ==> (OccursAt(v, t, |v| - |t|) <==> v[|v| - |t|..] == t);
      Ok(JsIndexOf(v, t, |v| - |t|) != -1)
  }

  // ---------------------------------------------------------------------
  // partition / rpartition

  /** `partition` (`reversed` false) and `rpartition` (true), lines 640-672:
      split around the first (last) occurrence of the separator; when there
      is none, the whole value goes first (last) and the other two are
      empty. An empty separator occurs at offset 0 (at the end). */
  function Partition(val: Value, sep: Obj, reversed: bool): (r: Result<(seq<Unit>, seq<Unit>, seq<Unit>)>)
    ensures r.Ok? <==> IsKind(sep, val.kind)
    ensures r.Err? ==> r.error == TypeError
    ensures r.Ok? ==> r.value.0 + r.value.1 + r.value.2 == val.v
    ensures r.Ok? && r.value.1 != [] ==> r.value.1 == UnitsOf(sep)
    ensures r.Ok? ==> (r.value.1 == [] && UnitsOf(sep) != [] <==> forall k :: !OccursAt(val.v, UnitsOf(sep), k))
    ensures r.Ok? && r.value.1 == UnitsOf(sep) && !reversed ==>
      OccursAt(val.v, UnitsOf(sep), |r.value.0|) && forall k :: 0 <= k < |r.value.0| ==> !OccursAt(val.v, UnitsOf(sep), k)
    ensures r.Ok? && r.value.1 == UnitsOf(sep) && reversed ==>
      OccursAt(val.v, UnitsOf(sep), |r.value.0|) && forall k :: |r.value.0| < k ==> !OccursAt(val.v, UnitsOf(sep), k)
  {
    if !IsKind(sep, val.kind) then Err(TypeError)
    else
      var s := UnitsOf(sep);
      var v := val.v;
      var pos := if reversed then JsLastIndexOf(v, s, None) else JsIndexOf(v, s, 0);
      if pos < 0 then
        (if reversed then Ok(([], [], v)) else Ok((v, [], [])))
      else
        Ok(CutAround(v, s, pos))
  }

  /** The text before the occurrence of `s` at `pos`, `s`, and the text
      after it. */
  function CutAround(v: seq<Unit>, s: seq<Unit>, pos: int): (r: (seq<Unit>, seq<Unit>, seq<Unit>))
    requires OccursAt(v, s, pos)
    ensures r.0 + r.1 + r.2 == v && |r.0| == pos && r.1 == s
  {
    assert v == v[..pos] + v[pos..pos + |s|] + v[pos + |s|..];
    (v[..pos], s, v[pos + |s|..])
  }
}
