/** `strip`, `lstrip` and `rstrip` (str.js lines 572-618). Each removes a
    leading and/or trailing run of whitespace, or of the units of its
    argument; the anchored character-class regexes do exactly that. */
module Strip {
  import opened Base
  import opened Chars

  /** What is stripped: the whitespace class `\s`, or the units of the
      argument (escaped one by one into a character class). */
  datatype StripSet = Blank | Among(units: seq<Unit>)

  predicate InSet(u: Unit, cs: StripSet) {
    match cs
    case Blank => IsSpace(u)
    case Among(t) => u in t
  }

  /** The first offset at or after `i` whose unit is not stripped. */
  function LeadEnd(s: seq<Unit>, cs: StripSet, i: nat): (a: nat)
    requires i <= |s|
    ensures i <= a <= |s|
    ensures forall j :: i <= j < a ==> InSet(s[j], cs)
    ensures a < |s| ==> !InSet(s[a], cs)
    decreases |s| - i
  {
    if i == |s| || !InSet(s[i], cs) then i else LeadEnd(s, cs, i + 1)
  }

  /** The start of the run of stripped units that ends at `j`. */
  function TrailStart(s: seq<Unit>, cs: StripSet, j: nat): (b: nat)
    requires j <= |s|
    ensures b <= j
    ensures forall k :: b <= k < j ==> InSet(s[k], cs)
    ensures b > 0 ==> !InSet(s[b - 1], cs)
  {
    if j == 0 || !InSet(s[j - 1], cs) then j else TrailStart(s, cs, j - 1)
  }

  /** Where what is kept begins and ends. */
  function Bounds(s: seq<Unit>, cs: StripSet, left: bool, right: bool): (ab: (nat, nat))
    ensures ab.0 <= ab.1 <= |s|
  {
    var a := if left then LeadEnd(s, cs, 0) else 0;
    var b := if right then Max(a, TrailStart(s, cs, |s|)) else |s|;
    (a, b)
  }

  /** The units kept: what `replace(pattern, "")` leaves. */
  function StripUnits(s: seq<Unit>, cs: StripSet, left: bool, right: bool): seq<Unit> {
    var ab := Bounds(s, cs, left, right);
    s[ab.0..ab.1]
  }

  /** The argument check as written: any given argument of another class,
      `None` included, is a TypeError. */
  function StripAsWritten(val: Value, chars: Option<Obj>, left: bool, right: bool): (r: Result<Value>)
    ensures r.Err? <==> chars.Some? && !IsKind(chars.value, val.kind)
  {
    if chars.Some? && !IsKind(chars.value, val.kind) then Err(TypeError)
    else
      var cs := if chars.None? then Blank else Among(UnitsOf(chars.value));
      Ok(Value(val.kind, StripUnits(val.v, cs, left, right)))
  }

  /** The stripped set an argument stands for: `None` means whitespace, as
      the error message ("must be None or ...") promises. */
  function SetOf(chars: Option<Obj>): StripSet {
    if chars.None? || chars.value.NoneObj? then Blank else Among(UnitsOf(chars.value))
  }

  /** `strip` (`left` and `right`), `lstrip` (`left`) and `rstrip` (`right`). */
  function StripOf(val: Value, chars: Option<Obj>, left: bool, right: bool): (r: Result<Value>)
    ensures r.Err? <==> chars.Some? && !chars.value.NoneObj? && !IsKind(chars.value, val.kind)
    ensures r.Err? ==> r.error == TypeError
    ensures r.Ok? ==> r.value.kind == val.kind
  {
    if chars.Some? && !chars.value.NoneObj? && !IsKind(chars.value, val.kind) then Err(TypeError)
    else Ok(Value(val.kind, StripUnits(val.v, SetOf(chars), left, right)))
  }

  // ---------------------------------------------------------------------
  // properties

  /** What is kept is one slice; everything removed is in the set; and no
      more could be removed: the kept part starts (under `left`) and ends
      (under `right`) with a unit outside the set. */
  lemma StripShape(s: seq<Unit>, cs: StripSet, left: bool, right: bool)
    ensures var r := StripUnits(s, cs, left, right);
      exists a, b :: 0 <= a <= b <= |s| && r == s[a..b]
        && (forall j :: 0 <= j < a ==> InSet(s[j], cs))
        && (forall j :: b <= j < |s| ==> InSet(s[j], cs))
        && (!left ==> a == 0) && (!right ==> b == |s|)
        && (left && r != [] ==> !InSet(r[0], cs))
        && (right && r != [] ==> !InSet(r[|r| - 1], cs))
  {
    var r := StripUnits(s, cs, left, right);
    var ab := Bounds(s, cs, left, right);
    var a, b := ab.0, ab.1;
    var t := TrailStart(s, cs, |s|);
    if right {
      if a <= t {
        assert b == t;
      } else {
        assert b == a;
        assert a == |s| || t == |s|;
      }
    }
    assert r == s[a..b];
    assert forall j :: 0 <= j < a ==> InSet(s[j], cs);
    assert forall j :: b <= j < |s| ==> InSet(s[j], cs);
    assert left && r != [] ==> !InSet(r[0], cs);
    assert right && r != [] ==> !InSet(r[|r| - 1], cs);
  }

  /** Stripping twice removes nothing more. */
  lemma StripIdempotent(s: seq<Unit>, cs: StripSet, left: bool, right: bool)
    ensures StripUnits(StripUnits(s, cs, left, right), cs, left, right) == StripUnits(s, cs, left, right)
  {
    var r := StripUnits(s, cs, left, right);
    if r != [] {
      StripShape(s, cs, left, right);
      if left {
        assert LeadEnd(r, cs, 0) == 0;
      }
      if right {
        assert TrailStart(r, cs, |r|) == |r|;
      }
      assert Bounds(r, cs, left, right) == (0, |r|);
      assert r[0..|r|] == r;
    }
  }

  lemma {:induction false} TrailStartSuffix(s: seq<Unit>, cs: StripSet, a: nat, j: nat)
    requires a <= j <= |s|
    ensures TrailStart(s[a..], cs, j - a) == Max(a, TrailStart(s, cs, j)) - a
    decreases j
  {
    if j > a && InSet(s[j - 1], cs) {
      TrailStartSuffix(s, cs, a, j - 1);
    }
  }

  /** `strip` is `lstrip` followed by `rstrip`, and the other way round. */
  lemma StripComposes(s: seq<Unit>, cs: StripSet)
    ensures StripUnits(StripUnits(s, cs, true, false), cs, false, true) == StripUnits(s, cs, true, true)
    ensures StripUnits(StripUnits(s, cs, false, true), cs, true, false) == StripUnits(s, cs, true, true)
  {
    LeftThenRight(s, cs);
    RightThenLeft(s, cs);
  }

  lemma LeftThenRight(s: seq<Unit>, cs: StripSet)
    ensures StripUnits(StripUnits(s, cs, true, false), cs, false, true) == StripUnits(s, cs, true, true)
  {
    var a := LeadEnd(s, cs, 0);
    var t := TrailStart(s, cs, |s|);
    var l := s[a..];
    assert StripUnits(s, cs, true, false) == l;
    TrailStartSuffix(s, cs, a, |s|);
    assert Bounds(l, cs, false, true) == (0, Max(a, t) - a);
    assert l[0..Max(a, t) - a] == s[a..Max(a, t)];
  }

  lemma RightThenLeft(s: seq<Unit>, cs: StripSet)
    ensures StripUnits(StripUnits(s, cs, false, true), cs, true, false) == StripUnits(s, cs, true, true)
  {
    var a := LeadEnd(s, cs, 0);
    var t := TrailStart(s, cs, |s|);
    var rr := s[..t];
    assert StripUnits(s, cs, false, true) == rr by {
      assert Bounds(s, cs, false, true) == (0, t);
    }
    if a <= t {
      LeadEndPrefix(s, cs, t, 0);
      assert Bounds(rr, cs, true, false) == (a, t);
      assert rr[a..t] == s[a..t];
    } else {
      assert t == 0;
      assert rr == [];
      assert Bounds(s, cs, true, true) == (a, a);
    }
  }

  lemma {:induction false} LeadEndPrefix(s: seq<Unit>, cs: StripSet, b: nat, i: nat)
    requires i <= b <= |s|
    requires LeadEnd(s, cs, i) <= b
    ensures LeadEnd(s[..b], cs, i) == LeadEnd(s, cs, i)
    decreases b - i
  {
    if i < b && InSet(s[i], cs) {
      LeadEndPrefix(s, cs, b, i + 1);
    }
  }

  /** `"a".strip(None)`: as written a TypeError; meant to strip whitespace. */
  lemma StripNoneRefused()
    ensures StripAsWritten(Value(Str, [SPACE, 97]), Some(NoneObj), true, true) == Err(TypeError)
    ensures StripOf(Value(Str, [SPACE, 97]), Some(NoneObj), true, true) == Ok(Value(Str, [97]))
  {
    var s: seq<Unit> := [SPACE, 97];
    assert LeadEnd(s, Blank, 0) == 1;
    assert TrailStart(s, Blank, 2) == 2;
    assert s[1..2] == [97];
  }
}
