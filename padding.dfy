/** `ljust`, `rjust` and `center` (`mkJust`, str.js lines 723-765) and
    `zfill` (lines 907-931). */
module Padding {
  import opened Base
  import opened Chars
  import opened Codepoints
  import opened SeqOps
  import opened StrObject

  /** The three functions `mkJust` builds. */
  datatype Align = ToLeft | ToRight | Centered

  /** `fillchar` is of the receiver's class and one unit or one character
      long. */
  predicate FillFits(val: Value, o: Obj) {
    IsKind(o, val.kind) && (|UnitsOf(o)| == 1 || LengthOf(Value(val.kind, UnitsOf(o))) == 1)
  }

  /** The fill argument: a space by default, else an object of the
      receiver's class that is one unit or one character long. */
  function FillOf(val: Value, fillchar: Option<Obj>): (r: Result<seq<Unit>>)
    ensures r.Err? <==> fillchar.Some? && !FillFits(val, fillchar.value)
    ensures r.Ok? ==> r.value != []
    ensures r.Ok? && fillchar.None? ==> r.value == [SPACE]
  {
    if fillchar.None? then Ok([SPACE])
    else
      var units := UnitsOf(fillchar.value);
      if !IsKind(fillchar.value, val.kind) || (|units| != 1 && LengthOf(Value(val.kind, units)) != 1) then
        Err(TypeError)
      else
        Ok(units)
  }

  /** How many of the `pad` fill copies go before the value: `center` puts
      half of them, rounded down, before it, so the odd copy goes after the
      value. */
  function LeftCopies(align: Align, pad: nat): (l: nat)
    ensures l <= pad
  {
    match align
    case ToLeft => 0
    case ToRight => pad
    case Centered => pad / 2
  }

  /** `ljust`, `rjust` or `center` to `width` characters. */
  function JustOf(val: Value, width: Obj, fillchar: Option<Obj>, align: Align): (r: Result<Value>)
    ensures r.Err? <==> !width.Int? || FillOf(val, fillchar).Err?
    ensures r.Err? ==> r.error == TypeError
  {
    if !width.Int? then Err(TypeError)
    else
      var fill :- FillOf(val, fillchar);
      var mylen := LengthOf(val);
      if mylen >= width.n then Ok(val)
      else
        var pad := width.n - mylen;
        var l := LeftCopies(align, pad);
        Ok(Value(val.kind, Repeated(fill, l) + val.v + Repeated(fill, pad - l)))
  }

  /** The result is the value with copies of the fill on either side, as
      many in all as the width exceeds the length in characters; `ljust`
      puts them all after, `rjust` all before, and `center` half of them,
      rounded down, before and the rest after. */
  lemma JustShape(val: Value, width: Obj, fillchar: Option<Obj>, align: Align)
    requires JustOf(val, width, fillchar, align).Ok?
    ensures var r := JustOf(val, width, fillchar, align).value;
      var fill := FillOf(val, fillchar).value;
      var pad := Max(width.n - LengthOf(val), 0);
      && r.kind == val.kind
      && |r.v| == |val.v| + pad * |fill|
      && exists l: nat, rr: nat ::
           && l + rr == pad
           && r.v == Repeated(fill, l) + val.v + Repeated(fill, rr)
           && (align == ToLeft ==> l == 0)
           && (align == ToRight ==> rr == 0)
           && (align == Centered ==> l == pad / 2 && rr == pad - pad / 2)
  {
    var fill := FillOf(val, fillchar).value;
    if LengthOf(val) >= width.n {
      assert Repeated(fill, 0) == [];
      assert JustOf(val, width, fillchar, align).value.v == Repeated(fill, 0) + val.v + Repeated(fill, 0);
    } else {
      var pad := width.n - LengthOf(val);
      var l := LeftCopies(align, pad);
      Surrounded(fill, l, pad - l, val.v);
    }
  }

  /** Surrounding a value with `l` and `rr` copies adds `l + rr` copies' length. */
  lemma Surrounded(fill: seq<Unit>, l: nat, rr: nat, v: seq<Unit>)
    ensures |Repeated(fill, l) + v + Repeated(fill, rr)| == |v| + (l + rr) * |fill|
  {
    RepeatedShape(fill, l);
    RepeatedShape(fill, rr);
    assert l * |fill| + rr * |fill| == (l + rr) * |fill|;
  }

  /** `"ab".center(5)`: one space before and two after. */
  lemma CenterOddCopy()
    ensures JustOf(Value(Str, [97, 98]), Int(5), None, Centered) == Ok(Value(Str, [SPACE, 97, 98, SPACE, SPACE]))
  {
    var val := Value(Str, [97, 98]);
    assert LengthOf(val) == 2;
    assert FillOf(val, None) == Ok([SPACE]);
    assert LeftCopies(Centered, 3) == 1;
    assert Repeated([SPACE], 1) == [SPACE];
    assert Repeated([SPACE], 2) == [SPACE, SPACE];
    assert [SPACE] + val.v + [SPACE, SPACE] == [SPACE, 97, 98, SPACE, SPACE];
  }

  // ---------------------------------------------------------------------
  // zfill

  /** 1 when the units start with a sign, else 0. */
  function SignLength(v: seq<Unit>): nat {
    if |v| > 0 && (v[0] == PLUS || v[0] == MINUS) then 1 else 0
  }

  /** `zfill`: zeros after the sign up to `width` units. */
  function ZFillOf(val: Value, width: Obj): (r: Result<Value>)
    ensures r.Err? <==> !width.Int?
    ensures r.Err? ==> r.error == TypeError
  {
    if !width.Int? then Err(TypeError)
    else
      var off := SignLength(val.v);
      Ok(Value(val.kind, val.v[..off] + Fill(ZERO, width.n - |val.v|) + val.v[off..]))
  }

  /** The loop of lines 923-925 builds the zeros one at a time. */
  method ZFill(val: Value, width: Obj) returns (r: Result<Value>)
    ensures r == ZFillOf(val, width)
  {
    if !width.Int? {
      return Err(TypeError);
    }
    var str := val.v;
    var zeroes := width.n - |str|;
    var offset := if |str| > 0 && (str[0] == PLUS || str[0] == MINUS) then 1 else 0;
    var pad: seq<Unit> := [];
    var i := 0;
    while i < zeroes
      invariant 0 <= i && (zeroes >= 0 ==> i <= zeroes) && (zeroes < 0 ==> i == 0)
      invariant pad == Fill(ZERO, i)
    {
      pad := pad + [ZERO];
      i := i + 1;
    }
    if zeroes < 0 {
      assert pad == [] == Fill(ZERO, zeroes);
    }
    r := Ok(Value(val.kind, str[..offset] + pad + str[offset..]));
  }

  /** The result is `width` units long (or the value's length if longer),
      keeps the kind, and is the value with zeros put after its sign. */
  lemma ZFillShape(val: Value, w: int)
    ensures var r := ZFillOf(val, Int(w)).value;
      var off := SignLength(val.v);
      var z := Max(w - |val.v|, 0);
      && r.kind == val.kind
      && |r.v| == Max(w, |val.v|)
      && r.v[..off] == val.v[..off]
      && (forall k :: off <= k < off + z ==> r.v[k] == ZERO)
      && r.v[off + z..] == val.v[off..]
  {
  }

  /** Filling to the same width a second time changes nothing. */
  lemma ZFillIdempotent(val: Value, w: int)
    ensures ZFillOf(ZFillOf(val, Int(w)).value, Int(w)) == ZFillOf(val, Int(w))
  {
    var r := ZFillOf(val, Int(w)).value;
    ZFillShape(val, w);
    assert |r.v| >= w;
    assert Fill(ZERO, w - |r.v|) == [];
    if |val.v| > 0 {
      assert r.v[0] == val.v[0] || (SignLength(val.v) == 0 && |r.v| > 0);
    }
    assert SignLength(r.v) == SignLength(val.v) || SignLength(val.v) == 0;
    var off := SignLength(r.v);
    assert r.v[..off] + [] + r.v[off..] == r.v;
  }
}
