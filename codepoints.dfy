/** The codepoint index of a str (str.js `$hasAstralCodePoints`): the storage
    offsets at which the logical characters of a UTF-16 buffer begin, built
    only when the buffer holds a surrogate unit, and the translation between
    logical offsets and storage offsets that length, indexing, slicing, search
    and iteration go through. */
module Codepoints {
  import opened Base

  /** A UTF-16 surrogate unit (either half of a pair). */
  predicate IsSurrogate(u: Unit) { 0xD800 <= u < 0xE000 }

  /** A leading (high) surrogate, which with the unit after it makes one
      character, as in section 2.1 of RFC 2781. */
  predicate IsHighSurrogate(u: Unit) { 0xD800 <= u < 0xDC00 }

  /** The number of storage units the scan assigns to the character that
      starts with `u`. */
  function Width(u: Unit): nat { if IsHighSurrogate(u) then 2 else 1 }

  /** The computed state of the index: `NoAstral` is the JS `null` (logical
      offset == storage offset), `Astral(starts)` the array of start offsets.
      The array has no end sentinel. */
  datatype Index = NoAstral | Astral(starts: seq<nat>)

  predicate HasSurrogate(v: seq<Unit>) {
    exists i :: 0 <= i < |v| && IsSurrogate(v[i])
  }

  /** The offsets pushed by the scan that starts at storage offset `j`: each
      offset is pushed and a high surrogate makes the scan skip one unit. */
  function StartsFrom(v: seq<Unit>, j: nat): seq<nat>
    decreases |v| - j
  {
    if j >= |v| then [] else [j] + StartsFrom(v, j + Width(v[j]))
  }

  /** What `$hasAstralCodePoints` stores in `codepoints` for the buffer `v`. */
  function Compute(v: seq<Unit>): Index {
    if HasSurrogate(v) then Astral(StartsFrom(v, 0)) else NoAstral
  }

  /** The index a value is read through: bytes never have one
      (`bytes.prototype.$hasAstralCodePoints` is constantly false). */
  function IndexFor(val: Value): Index {
    if val.kind == Bytes then NoAstral else Compute(val.v)
  }

  /** The defining properties of a start table for `v[from..]`, independent of
      the scan: it begins at `from`, stays inside the buffer, every entry is
      the previous one plus the width of the character there, and the last
      character reaches the end of the buffer. */
  ghost predicate IsStartTable(v: seq<Unit>, cp: seq<nat>, from: nat) {
    && (|cp| == 0 <==> from >= |v|)
    && (|cp| > 0 ==> cp[0] == from)
    && (forall k :: 0 <= k < |cp| ==> cp[k] < |v|)
    && (forall k :: 0 <= k < |cp| - 1 ==> Consecutive(v, cp, k))
    && (|cp| > 0 ==> cp[|cp| - 1] + Width(v[cp[|cp| - 1]]) >= |v|)
  }

  /** Entry `k + 1` is entry `k` plus the width of the character there. */
  predicate Consecutive(v: seq<Unit>, cp: seq<nat>, k: nat) {
    k + 1 < |cp| && cp[k] < |v| && cp[k + 1] == cp[k] + Width(v[cp[k]])
  }

  ghost predicate StrictlyIncreasing(cp: seq<nat>) {
    forall k, l :: 0 <= k < l < |cp| ==> cp[k] < cp[l]
  }

  /** The scan produces a start table, and its entries increase strictly. */
  lemma StartsFromIsTable(v: seq<Unit>, j: nat)
    ensures IsStartTable(v, StartsFrom(v, j), j)
    ensures StrictlyIncreasing(StartsFrom(v, j))
    ensures forall k :: 0 <= k < |StartsFrom(v, j)| ==> j <= StartsFrom(v, j)[k]
  {
    StartsFromTable(v, j);
    StartsFromIncreasing(v, j);
  }

  lemma {:induction false} StartsFromTable(v: seq<Unit>, j: nat)
    ensures IsStartTable(v, StartsFrom(v, j), j)
    decreases |v| - j
  {
    if j < |v| {
      StartsFromTable(v, j + Width(v[j]));
      TableCons(v, j);
    } else {
      assert StartsFrom(v, j) == [];
    }
  }

  lemma {:induction false} StartsFromIncreasing(v: seq<Unit>, j: nat)
    ensures StrictlyIncreasing(StartsFrom(v, j))
    ensures forall k :: 0 <= k < |StartsFrom(v, j)| ==> j <= StartsFrom(v, j)[k]
    decreases |v| - j
  {
    if j < |v| {
      StartsFromIncreasing(v, j + Width(v[j]));
      IncreasingCons(v, j);
    } else {
      assert StartsFrom(v, j) == [];
    }
  }

  /** A character's start in front of the table for what follows it. */
  lemma TableCons(v: seq<Unit>, j: nat)
    requires j < |v| && IsStartTable(v, StartsFrom(v, j + Width(v[j])), j + Width(v[j]))
    ensures IsStartTable(v, StartsFrom(v, j), j)
  {
    var rest := StartsFrom(v, j + Width(v[j]));
    var cp := StartsFrom(v, j);
    assert cp == [j] + rest;
    forall k | 0 <= k < |cp| - 1
      ensures Consecutive(v, cp, k)
    {
      if k > 0 {
        assert Consecutive(v, rest, k - 1);
      }
    }
  }

  lemma IncreasingCons(v: seq<Unit>, j: nat)
    requires j < |v|
    requires var rest := StartsFrom(v, j + Width(v[j]));
      && StrictlyIncreasing(rest)
      && forall k :: 0 <= k < |rest| ==> j + Width(v[j]) <= rest[k]
    ensures StrictlyIncreasing(StartsFrom(v, j))
    ensures forall k :: 0 <= k < |StartsFrom(v, j)| ==> j <= StartsFrom(v, j)[k]
  {
    var rest := StartsFrom(v, j + Width(v[j]));
    var cp := StartsFrom(v, j);
    assert cp == [j] + rest;
    assert forall k :: 1 <= k < |cp| ==> cp[k] == rest[k - 1];
  }

  /** Any start table equals the one the scan builds: the properties of
      `IsStartTable` determine the index completely. */
  lemma {:induction false} StartTableUnique(v: seq<Unit>, cp: seq<nat>, j: nat)
    requires IsStartTable(v, cp, j)
    ensures cp == StartsFrom(v, j)
    decreases |v| - j
  {
    if j >= |v| {
      assert cp == [] == StartsFrom(v, j);
    } else {
      var next := j + Width(v[j]);
      StartsFromStep(v, j);
      if |cp| == 1 {
        assert StartsFrom(v, next) == [];
        assert cp == [j];
      } else {
        TailTable(v, cp, j);
        StartTableUnique(v, cp[1..], next);
        assert cp == [j] + cp[1..];
      }
    }
  }

  /** One step of the scan. */
  lemma StartsFromStep(v: seq<Unit>, j: nat)
    requires j < |v|
    ensures StartsFrom(v, j) == [j] + StartsFrom(v, j + Width(v[j]))
  {
  }

  /** Past its first entry, a start table is the table for the next
      character on. */
  lemma TailTable(v: seq<Unit>, cp: seq<nat>, j: nat)
    requires IsStartTable(v, cp, j) && j < |v| && |cp| > 1
    ensures IsStartTable(v, cp[1..], j + Width(v[j]))
  {
    var t := cp[1..];
    assert Consecutive(v, cp, 0);
    forall k | 0 <= k < |t| - 1
      ensures Consecutive(v, t, k)
    {
      assert Consecutive(v, cp, k + 1);
    }
  }

  /** The facts the rest of the runtime relies on once the index is computed:
      it is absent exactly when no unit is a surrogate; otherwise it is a
      non-empty start table for the whole buffer beginning at offset 0. */
  lemma ComputeFacts(v: seq<Unit>)
    ensures Compute(v).NoAstral? <==> forall i :: 0 <= i < |v| ==> !IsSurrogate(v[i])
    ensures Compute(v).Astral? ==>
      var cp := Compute(v).starts;
      && |cp| > 0 && cp[0] == 0
      && IsStartTable(v, cp, 0)
      && StrictlyIncreasing(cp)
      && (forall k :: 0 <= k < |cp| ==> cp[k] < |v|)
      && (forall k :: 0 <= k < |cp| - 1 ==>
            cp[k + 1] - cp[k] == (if IsHighSurrogate(v[cp[k]]) then 2 else 1))
  {
    StartsFromIsTable(v, 0);
    if Compute(v).Astral? {
      var cp := Compute(v).starts;
      forall k | 0 <= k < |cp| - 1
        ensures cp[k + 1] - cp[k] == (if IsHighSurrogate(v[cp[k]]) then 2 else 1)
      {
        assert Consecutive(v, cp, k);
      }
    }
  }

  /** An index that agrees with the buffer: absent, or a start table. */
  ghost predicate ValidIndex(v: seq<Unit>, ix: Index) {
    ix.NoAstral? || IsStartTable(v, ix.starts, 0)
  }

  lemma IndexForValid(val: Value)
    ensures ValidIndex(val.v, IndexFor(val))
  {
    StartsFromIsTable(val.v, 0);
  }

  /** The logical length: `codepoints.length` or `v.length` (str.js `sq$length`). */
  function Len(v: seq<Unit>, ix: Index): nat {
    match ix
    case NoAstral => |v|
    case Astral(cp) => |cp|
  }

  /** The storage offset at which logical character `i` begins; `Len` maps to
      the end of the buffer. */
  function Start(v: seq<Unit>, ix: Index, i: nat): nat
    requires i <= Len(v, ix)
  {
    match ix
    case NoAstral => i
    case Astral(cp) => if i < |cp| then cp[i] else |v|
  }

  lemma {:induction false} StartBounds(v: seq<Unit>, ix: Index, i: nat)
    requires ValidIndex(v, ix) && i < Len(v, ix)
    ensures Start(v, ix, i) < Start(v, ix, i + 1) <= |v|
    ensures Start(v, ix, i + 1) - Start(v, ix, i) <= 2
    ensures Start(v, ix, i + 1) - Start(v, ix, i) == 2 ==> IsHighSurrogate(v[Start(v, ix, i)])
    ensures ix.NoAstral? ==> Start(v, ix, i + 1) == Start(v, ix, i) + 1
  {
    if ix.Astral? {
      var cp := ix.starts;
      if i + 1 < |cp| {
        assert Consecutive(v, cp, i);
      }
    }
  }

  lemma StartEnds(v: seq<Unit>, ix: Index)
    requires ValidIndex(v, ix)
    ensures Start(v, ix, 0) == 0
    ensures Start(v, ix, Len(v, ix)) == |v|
  {
  }

  /** Logical character `i` as the runtime extracts it: `v.charAt(i)` without
      an index, otherwise `v.substring(codepoints[i], codepoints[i+1])`, where
      the entry after the last is undefined and the substring runs to the end. */
  function CharAt(v: seq<Unit>, ix: Index, i: nat): seq<Unit>
    requires i < Len(v, ix)
  {
    match ix
    case NoAstral => [v[i]]
    case Astral(cp) => Substring(v, cp[i], Lookup(cp, i + 1))
  }

  /** One logical character: a single unit, or a high surrogate and the unit
      after it. */
  predicate IsOneChar(c: seq<Unit>) {
    |c| == 1 || (|c| == 2 && IsHighSurrogate(c[0]))
  }

  /** A character is the span between two consecutive starts, and is exactly
      one logical character. */
  lemma CharAtSpan(v: seq<Unit>, ix: Index, i: nat)
    requires ValidIndex(v, ix) && i < Len(v, ix)
    ensures Start(v, ix, i) < Start(v, ix, i + 1) <= |v|
    ensures CharAt(v, ix, i) == v[Start(v, ix, i)..Start(v, ix, i + 1)]
    ensures IsOneChar(CharAt(v, ix, i))
  {
    StartBounds(v, ix, i);
  }

  /** The characters `i .. j-1`, in order. */
  function Chars(v: seq<Unit>, ix: Index, i: nat, j: nat): (r: seq<seq<Unit>>)
    requires i <= j <= Len(v, ix)
    ensures |r| == j - i
    decreases j - i
  {
    if i == j then [] else Chars(v, ix, i, j - 1) + [CharAt(v, ix, j - 1)]
  }

  lemma {:induction false} CharsAt(v: seq<Unit>, ix: Index, i: nat, j: nat, k: nat)
    requires i <= j <= Len(v, ix) && k < j - i
    ensures Chars(v, ix, i, j)[k] == CharAt(v, ix, i + k)
    decreases j - i
  {
    if k < j - i - 1 {
      CharsAt(v, ix, i, j - 1, k);
    }
  }

  /** Starts never decrease with the logical offset. */
  lemma {:induction false} StartMono(v: seq<Unit>, ix: Index, i: nat, j: nat)
    requires ValidIndex(v, ix) && i <= j <= Len(v, ix)
    ensures Start(v, ix, i) <= Start(v, ix, j) <= |v|
    decreases j - i
  {
    if i < j {
      StartBounds(v, ix, i);
      StartMono(v, ix, i + 1, j);
    } else {
      StartEnds(v, ix);
      if i < Len(v, ix) {
        StartBounds(v, ix, i);
      }
    }
  }

  lemma Adjacent(v: seq<Unit>, a: nat, b: nat, c: nat, x: seq<Unit>, y: seq<Unit>)
    requires a <= b <= c <= |v| && x == v[a..b] && y == v[b..c]
    ensures x + y == v[a..c]
  {
  }

  /** Concatenating the characters `i .. j-1` gives back the storage between
      their starts; with `i = 0, j = Len` this is the whole buffer. */
  lemma {:induction false} CharsSpan(v: seq<Unit>, ix: Index, i: nat, j: nat)
    requires ValidIndex(v, ix) && i <= j <= Len(v, ix)
    ensures Start(v, ix, i) <= Start(v, ix, j) <= |v|
    ensures Flatten(Chars(v, ix, i, j)) == v[Start(v, ix, i)..Start(v, ix, j)]
    decreases j - i
  {
    StartMono(v, ix, i, j);
    if i < j {
      var init := Chars(v, ix, i, j - 1);
      var last := CharAt(v, ix, j - 1);
      CharsSpan(v, ix, i, j - 1);
      CharAtSpan(v, ix, j - 1);
      assert Chars(v, ix, i, j) == init + [last];
      FlattenSnoc(init, last);
      Adjacent(v, Start(v, ix, i), Start(v, ix, j - 1), Start(v, ix, j), Flatten(init), last);
    }
  }

  lemma WholeBuffer(v: seq<Unit>, ix: Index)
    requires ValidIndex(v, ix)
    ensures Flatten(Chars(v, ix, 0, Len(v, ix))) == v
  {
    CharsSpan(v, ix, 0, Len(v, ix));
    StartEnds(v, ix);
    assert v[0..|v|] == v;
  }

  /** The scan of str.js lines 186-206: look for a surrogate unit; at the
      first one, walk the whole buffer from offset 0 pushing every character
      start and skipping the unit after a high surrogate. */
  method ScanCodepoints(v: seq<Unit>) returns (ix: Index)
    ensures ix == Compute(v)
  {
    var i := 0;
    while i < |v|
      invariant 0 <= i <= |v|
      invariant forall k :: 0 <= k < i ==> !IsSurrogate(v[k])
    {
      var cc := v[i];
      if 0xD800 <= cc < 0xE000 {
        var cp: seq<nat> := [];
        var j := 0;
        while j < |v|
          invariant 0 <= j <= |v| + 1
          invariant cp + StartsFrom(v, j) == StartsFrom(v, 0)
          decreases |v| + 1 - j
        {
          assert StartsFrom(v, j) == [j] + StartsFrom(v, j + Width(v[j]));
          cp := cp + [j];
          cc := v[j];
          if 0xD800 <= cc < 0xDC00 {
            j := j + 1;
          }
          j := j + 1;
        }
        assert StartsFrom(v, j) == [];
        assert HasSurrogate(v);
        return Astral(cp);
      }
      i := i + 1;
    }
    return NoAstral;
  }
}
