/** The str object itself (str.js lines 173-277, 1468-1496): the memoised
    codepoint index, length, integer and stepped subscripting, the two-index
    slice, and the character iterator. */
module StrObject {
  import opened Base
  import opened Codepoints

  /** The logical length of a str or bytes value (`sq$length`): a bytes value
      and a str without surrogates count units, a str with surrogates counts
      the entries of its index. */
  function LengthOf(val: Value): (n: nat)
    ensures (val.kind == Bytes || !HasSurrogate(val.v)) ==> n == |val.v|
    ensures n <= |val.v|
    ensures ValidIndex(val.v, IndexFor(val)) && n == Len(val.v, IndexFor(val))
  {
    IndexForValid(val);
    LenBelowEnd(val.v, IndexFor(val));
    Len(val.v, IndexFor(val))
  }

  /** The length counts the logical characters: the value is the
      concatenation of exactly that many of them, each one unit or a
      surrogate pair. */
  lemma LengthCountsChars(val: Value)
    ensures Flatten(Chars(val.v, IndexFor(val), 0, LengthOf(val))) == val.v
    ensures forall i :: 0 <= i < LengthOf(val) ==> IsOneChar(Chars(val.v, IndexFor(val), 0, LengthOf(val))[i])
  {
    var ix := IndexFor(val);
    var n := LengthOf(val);
    WholeBuffer(val.v, ix);
    forall i | 0 <= i < n
      ensures IsOneChar(Chars(val.v, ix, 0, n)[i])
    {
      CharsAt(val.v, ix, 0, n, i);
      CharAtSpan(val.v, ix, i);
    }
  }

  /** Every logical character occupies at least one unit. */
  lemma {:induction false} LenBelowEnd(v: seq<Unit>, ix: Index)
    requires ValidIndex(v, ix)
    ensures Len(v, ix) <= |v|
  {
    var n := Len(v, ix);
    if n > 0 {
      StartsAtLeast(v, ix, n - 1);
      StartBounds(v, ix, n - 1);
    }
  }

  lemma {:induction false} StartsAtLeast(v: seq<Unit>, ix: Index, i: nat)
    requires ValidIndex(v, ix) && i < Len(v, ix)
    ensures i <= Start(v, ix, i)
  {
    if i > 0 {
      StartsAtLeast(v, ix, i - 1);
      StartBounds(v, ix, i - 1);
    }
  }

  /** A subscript key: an index-like object, or a slice whose (external)
      iteration furnished the given logical indices in order. */
  datatype Key = At(o: Obj) | Stepped(indices: seq<int>)

  /** The characters at the given indices, in order, skipping any index
      outside the value (the guard inside both `sssiter$` callbacks). */
  function Gather(v: seq<Unit>, ix: Index, indices: seq<int>): seq<Unit>
  {
    GatherUpTo(v, ix, indices, |indices|)
  }

  /** What the first `n` indices contribute. */
  function GatherUpTo(v: seq<Unit>, ix: Index, indices: seq<int>, n: nat): seq<Unit>
    requires n <= |indices|
  {
    if n == 0 then [] else GatherUpTo(v, ix, indices, n - 1) + Piece(v, ix, indices[n - 1])
  }

  /** The character at one furnished index, or nothing outside the value. */
  function Piece(v: seq<Unit>, ix: Index, i: int): seq<Unit> {
    if 0 <= i < Len(v, ix) then CharAt(v, ix, i) else []
  }

  /** `mp$subscript` of str (lines 215-250) and of bytes (lines 252-273). */
  function SubscriptOf(val: Value, key: Key): (r: Result<Obj>)
    ensures key.At? && !key.o.Int? ==> r == Err(TypeError)
    ensures key.At? && key.o.Int? ==>
      var n := LengthOf(val);
      var i := if key.o.n < 0 then n + key.o.n else key.o.n;
      && (r.Ok? <==> 0 <= i < n)
      && (r.Err? ==> r.error == IndexError)
      && (r.Ok? && val.kind == Str ==>
            && StartBoundsHold(val, i)
            && r.value == Text(val.v[Start(val.v, IndexFor(val), i)..Start(val.v, IndexFor(val), i + 1)])
            && IsOneChar(r.value.units))
      && (r.Ok? && val.kind == Bytes ==> r.value == Int(val.v[i]))
    ensures key.Stepped? ==> r.Ok? && IsKind(r.value, val.kind)
  {
    var ix := IndexFor(val);
    IndexForValid(val);
    match key
    case At(o) =>
      if !o.Int? then Err(TypeError)
      else
        var n := Len(val.v, ix);
        var i := if o.n < 0 then n + o.n else o.n;
        if i < 0 || i >= n then Err(IndexError)
        else if val.kind == Bytes then Ok(Int(val.v[i]))
        else
          CharAtSpan(val.v, ix, i);
          Ok(Text(CharAt(val.v, ix, i)))
    case Stepped(indices) =>
      Ok(AsObj(Value(val.kind, Gather(val.v, ix, indices))))
  }

  /** The starts around logical character `i` lie inside the buffer. */
  ghost predicate StartBoundsHold(val: Value, i: int) {
    && ValidIndex(val.v, IndexFor(val))
    && 0 <= i < Len(val.v, IndexFor(val))
    && Start(val.v, IndexFor(val), i) < Start(val.v, IndexFor(val), i + 1) <= |val.v|
  }

  /** The indices `i, i+1, .., j-1` that a step-1 slice furnishes. */
  function Range(i: int, j: int): (r: seq<int>)
    requires i <= j
    ensures |r| == j - i
    ensures forall k :: 0 <= k < |r| ==> r[k] == i + k
  {
    seq(j - i, k => i + k)
  }

  /** A slice with step 1 gathers exactly the storage between the starts of
      its ends. */
  lemma GatherRange(v: seq<Unit>, ix: Index, i: nat, j: nat)
    requires ValidIndex(v, ix) && i <= j <= Len(v, ix)
    ensures Start(v, ix, i) <= Start(v, ix, j) <= |v|
    ensures Gather(v, ix, Range(i, j)) == v[Start(v, ix, i)..Start(v, ix, j)]
  {
    GatherIsChars(v, ix, Range(i, j), i, j - i);
    CharsSpan(v, ix, i, j);
  }

  /** Gathering the first `n` of the indices `i, i+1, ..` concatenates the
      characters `i .. i+n-1`. */
  lemma {:induction false} GatherIsChars(v: seq<Unit>, ix: Index, r: seq<int>, i: nat, n: nat)
    requires n <= |r| && i + n <= Len(v, ix)
    requires forall k :: 0 <= k < |r| ==> r[k] == i + k
    ensures GatherUpTo(v, ix, r, n) == Flatten(Chars(v, ix, i, i + n))
  {
    if n > 0 {
      var init, last := Chars(v, ix, i, i + n - 1), CharAt(v, ix, i + n - 1);
      GatherIsChars(v, ix, r, i, n - 1);
      assert Piece(v, ix, r[n - 1]) == last;
      assert GatherUpTo(v, ix, r, n) == GatherUpTo(v, ix, r, n - 1) + last;
      assert Chars(v, ix, i, i + n) == init + [last];
      FlattenSnoc(init, last);
    }
  }

  /** `sq$slice(i1, i2)` (lines 311-325): a negative `i1` becomes 0; with an
      index, a start past the last character gives the empty value, and an
      end outside the index (undefined entry) runs to the end of the buffer;
      without one, JS `substring` on the units. */
  function SqSlice(val: Value, i1: int, i2: int): (r: Value)
    ensures r.kind == val.kind
  {
    var ix := IndexFor(val);
    var s := if i1 < 0 then 0 else i1;
    match ix
    case Astral(cp) =>
      if s >= |cp| then Value(val.kind, [])
      else Value(val.kind, Substring(val.v, cp[s], Lookup(cp, i2)))
    case NoAstral =>
      Value(val.kind, Substring(val.v, s, Some(i2)))
  }

  /** A slice between two logical offsets is the storage between their starts,
      that is, the characters in between. */
  lemma SqSliceSpan(val: Value, i: nat, j: nat)
    requires i <= j <= LengthOf(val)
    ensures Start(val.v, IndexFor(val), i) <= Start(val.v, IndexFor(val), j) <= |val.v|
    ensures SqSlice(val, i, j).v == val.v[Start(val.v, IndexFor(val), i)..Start(val.v, IndexFor(val), j)]
    ensures SqSlice(val, i, j).v == Flatten(Chars(val.v, IndexFor(val), i, j))
  {
    var ix := IndexFor(val);
    IndexForValid(val);
    CharsSpan(val.v, ix, i, j);
    StartEnds(val.v, ix);
  }

  /** `s[i:i+1] == s[i]` for every character of a str. */
  lemma SliceOfOneIsSubscript(val: Value, i: nat)
    requires val.kind == Str && i < LengthOf(val)
    ensures SubscriptOf(val, At(Int(i))) == Ok(AsObj(SqSlice(val, i, i + 1)))
  {
    var ix := IndexFor(val);
    SqSliceSpan(val, i, i + 1);
    var piece := val.v[Start(val.v, ix, i)..Start(val.v, ix, i + 1)];
    assert SubscriptOf(val, At(Int(i))) == Ok(Text(piece));
    assert AsObj(SqSlice(val, i, i + 1)) == Text(piece);
  }

  /** A str object. Its units never change; `codepoints` is the memo that
      `$hasAstralCodePoints` fills in: `None` for undefined, then the index
      (`NoAstral` for null, `Astral` for the array). */
  class Str {
    const v: seq<Unit>
    var codepoints: Option<Index>

    /** Once filled in, the memo is the index of the units. */
    ghost predicate Valid()
      reads this
    {
      codepoints.None? || codepoints.value == Compute(v)
    }

    constructor (v: seq<Unit>)
      ensures this.v == v && codepoints.None? && Valid()
    {
      this.v := v;
      codepoints := None;
    }

    /** `$hasAstralCodePoints` (lines 173-207): a memo already filled in is
        returned unchanged; otherwise the scan fills it in. */
    method HasAstralCodePoints() returns (b: bool)
      requires Valid()
      modifies this
      ensures Valid() && codepoints == Some(Compute(v))
      ensures old(codepoints).Some? ==> codepoints == old(codepoints)
      ensures b <==> HasSurrogate(v)
    {
      if codepoints.Some? {
        return codepoints.value.Astral?;
      }
      var ix := ScanCodepoints(v);
      codepoints := Some(ix);
      b := ix.Astral?;
    }

    /** `sq$length` (lines 275-277). */
    method Length() returns (n: nat)
      requires Valid()
      modifies this
      ensures Valid() && codepoints == Some(Compute(v))
      ensures n == LengthOf(Value(Str, v))
    {
      var astral := HasAstralCodePoints();
      if astral {
        n := |codepoints.value.starts|;
      } else {
        n := |v|;
      }
    }

    /** `mp$subscript` (lines 215-250), reading through the memo. */
    method Subscript(key: Key) returns (r: Result<Obj>)
      requires Valid()
      modifies this
      ensures Valid() && codepoints == Some(Compute(v))
      ensures r == SubscriptOf(Value(Str, v), key)
    {
      var astral := HasAstralCodePoints();
      var ix := codepoints.value;
      IndexForValid(Value(Str, v));
      match key
      case At(o) =>
        if !o.Int? {
          return Err(TypeError);
        }
        var len := if astral then |ix.starts| else |v|;
        var index := o.n;
        if index < 0 {
          index := len + index;
        }
        if index < 0 || index >= len {
          return Err(IndexError);
        }
        if astral {
          r := Ok(Text(Substring(v, ix.starts[index], Lookup(ix.starts, index + 1))));
        } else {
          r := Ok(Text([v[index]]));
        }
      case Stepped(indices) =>
        r := Ok(Text(Gather(v, ix, indices)));
    }
  }

  /** The characters before logical offset `n` are the storage before its
      start; all of them are the whole buffer. */
  lemma Prefix(v: seq<Unit>, ix: Index, n: nat)
    requires ValidIndex(v, ix) && n <= Len(v, ix)
    ensures Start(v, ix, n) <= |v|
    ensures Flatten(Chars(v, ix, 0, n)) == v[..Start(v, ix, n)]
    ensures n == Len(v, ix) ==> Flatten(Chars(v, ix, 0, n)) == v
  {
    CharsSpan(v, ix, 0, n);
    StartEnds(v, ix);
    assert v[0..Start(v, ix, n)] == v[..Start(v, ix, n)];
    assert v[..|v|] == v;
  }

  /** The iterator over a str (`str_iter_`, lines 1468-1496): a snapshot of
      the units, a copy of the index, the length, and a cursor. `yielded`
      records the characters handed out so far. */
  class StrIter {
    const obj: seq<Unit>
    const codepoints: Index
    const length: nat
    var index: nat
    ghost var yielded: seq<seq<Unit>>

    ghost predicate Valid()
      reads this
    {
      && ValidIndex(obj, codepoints)
      && length == Len(obj, codepoints)
      && index <= length
      && yielded == Chars(obj, codepoints, 0, index)
    }

    constructor (s: Str)
      requires s.Valid()
      modifies s
      ensures Valid() && obj == s.v && codepoints == Compute(s.v) && index == 0 && yielded == []
      ensures s.Valid() && s.codepoints == Some(Compute(s.v))
    {
      var astral := s.HasAstralCodePoints();
      obj := s.v;
      codepoints := s.codepoints.value;
      length := if astral then |s.codepoints.value.starts| else |s.v|;
      index := 0;
      yielded := [];
      new;
      IndexForValid(Value(Str, s.v));
    }

    /** `tp$iternext`: the character at the cursor, advancing it, or `None`
        (JS `undefined`) once the cursor reaches the length. */
    method Next() returns (r: Option<seq<Unit>>)
      requires Valid()
      modifies this`index, this`yielded
      ensures Valid()
      ensures old(index) < length ==> index == old(index) + 1 && r == Some(CharAt(obj, codepoints, old(index)))
      ensures old(index) < length ==> IsOneChar(r.value)
      ensures old(index) >= length ==> index == old(index) && r.None?
      ensures yielded == old(yielded) + (if r.Some? then [r.value] else [])
      ensures Flatten(yielded) == obj[..Start(obj, codepoints, index)]
      ensures index == length ==> Flatten(yielded) == obj
    {
      if index >= length {
        r := None;
      } else {
        if codepoints.Astral? {
          r := Some(Substring(obj, codepoints.starts[index], Lookup(codepoints.starts, index + 1)));
        } else {
          r := Some([obj[index]]);
        }
        CharAtSpan(obj, codepoints, index);
        assert r.value == CharAt(obj, codepoints, index);
        assert Chars(obj, codepoints, 0, index + 1) == yielded + [r.value];
        yielded := yielded + [r.value];
        index := index + 1;
      }
      Prefix(obj, codepoints, index);
    }
  }
}
