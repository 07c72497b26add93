/** Counting and replacing occurrences (str.js lines 674-721 and 877-905).
    Both run a global regular expression built from the escaped literal, so
    they see the same matches: leftmost first, the next search starting
    after the match, or one unit further after an empty match. */
module Occurrences {
  import opened Base
  import opened Codepoints
  import opened JsString
  import opened StrObject
  import Splitting

  /** Where the scan resumes after a match at `k`: past the match, or one
      unit further when the match is empty. */
  function Resume(p: seq<Unit>, k: nat): nat {
    k + Max(|p|, 1)
  }

  /** The number of matches of `p` that the scan finds from offset `i`. */
  function CountFrom(s: seq<Unit>, p: seq<Unit>, i: nat): nat
    decreases |s| + 1 - i
  {
    var k := SearchForward(s, p, i);
    if k == -1 then 0
    else if Resume(p, k) > |s| then 1
    else 1 + CountFrom(s, p, Resume(p, k))
  }

  /** A non-empty pattern is counted only where it occurs, without overlap:
      the matches use up at most the units that are left. */
  lemma {:induction false} CountFitsLength(s: seq<Unit>, p: seq<Unit>, i: nat)
    requires p != [] && i <= |s|
    ensures CountFrom(s, p, i) * |p| <= |s| - i
    decreases |s| + 1 - i
  {
    var k := SearchForward(s, p, i);
    if k != -1 && Resume(p, k) <= |s| {
      CountFitsLength(s, p, k + |p|);
      Distribute(CountFrom(s, p, k + |p|), |p|);
    }
  }

  lemma Distribute(c: int, m: int)
    ensures (1 + c) * m == m + c * m
  {
  }

  /** A non-empty pattern is counted zero times exactly when it does not
      occur from `i` on. */
  lemma CountZeroIffAbsent(s: seq<Unit>, p: seq<Unit>, i: nat)
    requires p != []
    ensures CountFrom(s, p, i) == 0 <==> forall k :: i <= k ==> !OccursAt(s, p, k)
  {
  }

  /** The empty pattern matches at every offset, the end included. */
  lemma {:induction false} CountEmpty(s: seq<Unit>, i: nat)
    requires i <= |s|
    ensures CountFrom(s, [], i) == |s| + 1 - i
    decreases |s| + 1 - i
  {
    assert OccursAt(s, [], i);
    if i < |s| {
      CountEmpty(s, Resume([], i));
    }
  }

  /** A bound as lines 692-708 normalise it: the default when absent, else
      the integer, counted from the end when negative. */
  function BoundOf(len: nat, o: Option<Obj>, dflt: nat): int
    requires o.Some? ==> o.value.Int?
  {
    if o.None? then dflt else if o.value.n >= 0 then o.value.n else len + o.value.n
  }

  /** `count` as written (lines 674-721): the pattern must have the value's
      kind and the bounds must be integers (None is refused). A start past
      the length gives 0 at once. The bounds are then handed to JS `slice`
      through the index, where an entry past the table is undefined and
      `slice` reads it as its default, and where a bound still negative
      counts from the end a second time. */
  function CountAsWritten(val: Value, pat: Obj, start: Option<Obj>, end: Option<Obj>): (r: Result<nat>)
    ensures r.Err? <==> !IsKind(pat, val.kind) || (start.Some? && !start.value.Int?) || (end.Some? && !end.value.Int?)
    ensures r.Err? ==> r.error == TypeError
    ensures r.Ok? && start.Some? && LengthOf(val) < BoundOf(LengthOf(val), start, 0) ==> r.value == 0
    ensures r.Ok? && start.None? && end.None? ==> r.value == CountFrom(val.v, UnitsOf(pat), 0)
  {
    if !IsKind(pat, val.kind) then Err(TypeError)
    else if start.Some? && !start.value.Int? then Err(TypeError)
    else if end.Some? && !end.value.Int? then Err(TypeError)
    else
      var len := LengthOf(val);
      var lo := BoundOf(len, start, 0);
      if lo > len then Ok(0)
      else
        var hi := BoundOf(len, end, len);
        var slice := match IndexFor(val)
          case Astral(cp) => JsSlice(val.v, Lookup(cp, lo), Lookup(cp, hi))
          case NoAstral => JsSlice(val.v, Some(lo), Some(hi));
        assert start.None? && end.None? ==> slice == val.v by {
          if start.None? && end.None? {
            IndexForValid(val);
          }
        }
        Ok(CountFrom(slice, UnitsOf(pat), 0))
  }

  /** `count` on the characters from `start` up to `end`, each bound
      clamped to [0, length] as Python does: the matches counted are those
      in the units from the start of character `lo` to the start of
      character `hi`. An `end` before `start` gives the empty window, as
      the program's `slice` does, so an empty pattern still counts 1 there,
      where Python gives 0. */
  function CountOf(val: Value, pat: Obj, start: Option<Obj>, end: Option<Obj>): (r: Result<nat>)
    ensures r.Err? <==> !IsKind(pat, val.kind) || (start.Some? && !start.value.Int?) || (end.Some? && !end.value.Int?)
    ensures r.Err? ==> r.error == TypeError
    ensures r.Ok? && start.Some? && LengthOf(val) < BoundOf(LengthOf(val), start, 0) ==> r.value == 0
    ensures r.Ok? && start.None? && end.None? ==> r.value == CountFrom(val.v, UnitsOf(pat), 0)
  {
    if !IsKind(pat, val.kind) then Err(TypeError)
    else if start.Some? && !start.value.Int? then Err(TypeError)
    else if end.Some? && !end.value.Int? then Err(TypeError)
    else
      var len := LengthOf(val);
      var lo := Max(BoundOf(len, start, 0), 0);
      if lo > len then Ok(0)
      else
        var hi := Max(lo, Min(BoundOf(len, end, len), len));
        var ix := IndexFor(val);
        WindowOf(val, lo, hi);
        Ok(CountFrom(val.v[Start(val.v, ix, lo)..Start(val.v, ix, hi)], UnitsOf(pat), 0))
  }

  /** The units of characters `lo .. hi-1`: the whole value for the whole
      range. */
  lemma WindowOf(val: Value, lo: nat, hi: nat)
    requires lo <= hi <= LengthOf(val)
    ensures Start(val.v, IndexFor(val), lo) <= Start(val.v, IndexFor(val), hi) <= |val.v|
    ensures lo == 0 && hi == LengthOf(val) ==>
      val.v[Start(val.v, IndexFor(val), lo)..Start(val.v, IndexFor(val), hi)] == val.v
  {
    var ix := IndexFor(val);
    IndexForValid(val);
    StartEnds(val.v, ix);
    StartMono(val.v, ix, lo, hi);
    StartMono(val.v, ix, hi, LengthOf(val));
  }

  /** `s.count(p, i, j)` for `0 <= i <= j <= len(s)` counts the matches in
      the slice `s[i:j]`, that is in the characters `i .. j-1` laid end to
      end. */
  lemma CountInSlice(val: Value, pat: Obj, i: nat, j: nat)
    requires IsKind(pat, val.kind) && i <= j <= LengthOf(val)
    ensures CountOf(val, pat, Some(Int(i)), Some(Int(j))) == Ok(CountFrom(SqSlice(val, i, j).v, UnitsOf(pat), 0))
    ensures CountOf(val, pat, Some(Int(i)), Some(Int(j)))
         == Ok(CountFrom(Flatten(Chars(val.v, IndexFor(val), i, j)), UnitsOf(pat), 0))
  {
    SqSliceSpan(val, i, j);
  }

  /** A negative bound counts from the end: `-k` stands for `len - k`,
      for the start and for the end alike. */
  lemma CountFromEnd(val: Value, pat: Obj, a: int, b: int)
    requires a < 0 && 0 <= a + LengthOf(val) && b < 0 && 0 <= b + LengthOf(val)
    ensures CountOf(val, pat, Some(Int(a)), Some(Int(b)))
         == CountOf(val, pat, Some(Int(a + LengthOf(val))), Some(Int(b + LengthOf(val))))
    ensures CountOf(val, pat, Some(Int(a)), None) == CountOf(val, pat, Some(Int(a + LengthOf(val))), None)
  {
    var len := LengthOf(val);
    assert BoundOf(len, Some(Int(a)), 0) == BoundOf(len, Some(Int(a + len)), 0);
    assert BoundOf(len, Some(Int(b)), len) == BoundOf(len, Some(Int(b + len)), len);
  }

  /** As written and corrected agree whenever both bounds are non-negative
      once normalised, and the start is not the length of a str that holds
      surrogates (whose table has no entry there). */
  lemma CountAgrees(val: Value, pat: Obj, start: Option<Obj>, end: Option<Obj>)
    requires (start.Some? ==> start.value.Int?) && (end.Some? ==> end.value.Int?)
    requires 0 <= BoundOf(LengthOf(val), start, 0) && 0 <= BoundOf(LengthOf(val), end, LengthOf(val))
    requires IndexFor(val).NoAstral? || BoundOf(LengthOf(val), start, 0) < LengthOf(val)
    ensures CountAsWritten(val, pat, start, end) == CountOf(val, pat, start, end)
  {
    var len := LengthOf(val);
    var lo := BoundOf(len, start, 0);
    var hi := BoundOf(len, end, len);
    if IsKind(pat, val.kind) && lo <= len {
      var ix := IndexFor(val);
      IndexForValid(val);
      StartEnds(val.v, ix);
      var h := Max(lo, Min(hi, len));
      WindowOf(val, lo, h);
      var a, b := Start(val.v, ix, lo), Start(val.v, ix, h);
      match ix {
        case NoAstral =>
          assert len == |val.v|;
          assert JsSlice(val.v, Some(lo), Some(hi)) == val.v[a..b];
        case Astral(cp) =>
          assert Lookup(cp, lo) == Some(a);
          if hi < lo {
            IndexForValid(val);
            StartMono(val.v, ix, hi, lo);
            assert Lookup(cp, hi) == Some(Start(val.v, ix, hi));
          } else {
            assert Lookup(cp, hi) == if hi < |cp| then Some(b) else None;
          }
          assert JsSlice(val.v, Lookup(cp, lo), Lookup(cp, hi)) == val.v[a..b];
      }
    }
  }

  /** A one-unit pattern occurs exactly where that unit stands. */
  lemma UnitMatch(v: seq<Unit>, c: Unit, k: nat)
    requires k < |v|
    ensures OccursAt(v, [c], k) <==> v[k] == c
  {
    assert v[k..k + 1] == [v[k]];
  }

  /** `"abc".count("a", -5)`: as written the start -2 reaches `slice`,
      which counts it from the end again and looks only at `"bc"`, giving 0;
      Python clamps it to 0 and gives 1. */
  lemma NegativeStartWraps()
    ensures CountAsWritten(Value(Str, [97, 98, 99]), Text([97]), Some(Int(-5)), None) == Ok(0)
    ensures CountOf(Value(Str, [97, 98, 99]), Text([97]), Some(Int(-5)), None) == Ok(1)
  {
    var v: seq<Unit> := [97, 98, 99];
    var val := Value(Str, v);
    assert !HasSurrogate(v);
    assert JsSlice(v, Some(-2), Some(3)) == v[1..3] == [98, 99];
    var bc: seq<Unit> := [98, 99];
    UnitMatch(bc, 97, 0);
    UnitMatch(bc, 97, 1);
    assert SearchForward(bc, [97], 0) == -1;
    UnitMatch(v, 97, 0);
    UnitMatch(v, 97, 1);
    UnitMatch(v, 97, 2);
    assert SearchForward(v, [97], 1) == -1;
    assert CountFrom(v, [97], 0) == 1;
    WindowOf(val, 0, 3);
  }

  /** `"\U0001D11Ea".count("a", 2)`: as written the table has no entry 2,
      so `slice` gets undefined for both bounds and counts the whole value,
      giving 1; starting at the end there is nothing to count. */
  lemma AstralStartAtEnd()
    ensures CountAsWritten(Value(Str, [0xD834, 0xDD1E, 97]), Text([97]), Some(Int(2)), None) == Ok(1)
    ensures CountOf(Value(Str, [0xD834, 0xDD1E, 97]), Text([97]), Some(Int(2)), None) == Ok(0)
  {
    var v: seq<Unit> := [0xD834, 0xDD1E, 97];
    var val := Value(Str, v);
    assert HasSurrogate(v) by { assert IsSurrogate(v[0]); }
    assert StartsFrom(v, 0) == [0] + StartsFrom(v, 2);
    assert StartsFrom(v, 2) == [2] + StartsFrom(v, 3);
    assert IndexFor(val) == Astral([0, 2]);
    assert LengthOf(val) == 2;
    assert JsSlice(v, None, None) == v;
    UnitMatch(v, 97, 0);
    UnitMatch(v, 97, 1);
    UnitMatch(v, 97, 2);
    assert SearchForward(v, [97], 0) == 2;
    assert CountFrom(v, [97], 0) == 1;
    assert Start(v, IndexFor(val), 2) == 3;
    assert v[3..3] == [];
  }

  // ---------------------------------------------------------------------
  // replace

  /** How many matches may still be replaced: unlimited, or a number. */
  datatype Budget = Unlimited | AtMost(n: nat)

  /** What one match is replaced by: the replacement, or the match itself once the
      budget is spent (the replacer callback of lines 895-901). With
      `expand`, the replacement is first read as a JS replacement pattern. */
  function Replacement(s: seq<Unit>, p: seq<Unit>, w: seq<Unit>, k: nat, budget: Budget, expand: bool): seq<Unit>
    requires k + |p| <= |s|
  {
    if budget == AtMost(0) then p
    else if expand then Expand(w, s, k, k + |p|)
    else w
  }

  /** The budget a `count` argument gives: none or a negative one means
      every match. */
  function BudgetOf(count: Option<Obj>): Budget
    requires count.Some? ==> count.value.Int?
  {
    if count.None? || count.value.n < 0 then Unlimited else AtMost(count.value.n)
  }

  /** How many of `c` matches a budget lets through. */
  function Used(budget: Budget, c: nat): nat {
    match budget
    case Unlimited => c
    case AtMost(n) => Min(n, c)
  }

  function Spend(budget: Budget): Budget {
    match budget
    case Unlimited => Unlimited
    case AtMost(n) => if n == 0 then AtMost(0) else AtMost(n - 1)
  }

  /** The result of the scan from offset `i`: the text between matches is
      kept and each match is replaced. */
  function ReplaceFrom(s: seq<Unit>, p: seq<Unit>, w: seq<Unit>, i: nat, budget: Budget, expand: bool): seq<Unit>
    requires i <= |s|
    decreases |s| + 1 - i
  {
    var k := SearchForward(s, p, i);
    if k == -1 then s[i..]
    else
      var head := s[i..k] + Replacement(s, p, w, k, budget, expand);
      var j := Resume(p, k);
      if j > |s| then head
      else head + s[k + |p|..j] + ReplaceFrom(s, p, w, j, Spend(budget), expand)
  }

  /** The dollar patterns of a JS string replacement (section 22.1.3.19.1 of
      ECMA-262, GetSubstitution, with no capture groups): `$$` is one `$`,
      `$&` the match, `` $` `` the text before it, `$'` the text after it;
      every other `$` is kept. */
  function Expand(r: seq<Unit>, s: seq<Unit>, mStart: nat, mEnd: nat): seq<Unit>
    requires mStart <= mEnd <= |s|
    decreases |r|
  {
    if r == [] then []
    else if r[0] == DOLLAR && |r| >= 2 then
      if r[1] == DOLLAR then [DOLLAR] + Expand(r[2..], s, mStart, mEnd)
      else if r[1] == AMPERSAND then s[mStart..mEnd] + Expand(r[2..], s, mStart, mEnd)
      else if r[1] == BACKQUOTE then s[..mStart] + Expand(r[2..], s, mStart, mEnd)
      else if r[1] == APOSTROPHE then s[mEnd..] + Expand(r[2..], s, mStart, mEnd)
      else [r[0]] + Expand(r[1..], s, mStart, mEnd)
    else [r[0]] + Expand(r[1..], s, mStart, mEnd)
  }

  const DOLLAR: Unit := 36
  const AMPERSAND: Unit := 38
  const APOSTROPHE: Unit := 39
  const BACKQUOTE: Unit := 96

  /** A replacement without `$` is inserted as it is. */
  lemma {:induction false} ExpandPlain(r: seq<Unit>, s: seq<Unit>, mStart: nat, mEnd: nat)
    requires mStart <= mEnd <= |s|
    requires forall i :: 0 <= i < |r| ==> r[i] != DOLLAR
    ensures Expand(r, s, mStart, mEnd) == r
    decreases |r|
  {
    if r != [] {
      ExpandPlain(r[1..], s, mStart, mEnd);
    }
  }

  /** `replace` as written (lines 877-905): both arguments must have the
      value's kind and the count must be an integer. Without a count, or with
      a negative one, JS `replace` receives the replacement as a string and
      expands its dollar patterns; with a count, the callback returns it
      unchanged for the first `count` matches. */
  function ReplaceAsWritten(val: Value, pat: Obj, repl: Obj, count: Option<Obj>): (r: Result<Value>)
    ensures r.Err? <==> !IsKind(pat, val.kind) || !IsKind(repl, val.kind) || (count.Some? && !count.value.Int?)
  {
    if !IsKind(pat, val.kind) || !IsKind(repl, val.kind) || (count.Some? && !count.value.Int?) then Err(TypeError)
    else if count.None? || count.value.n < 0 then
      Ok(Value(val.kind, ReplaceFrom(val.v, UnitsOf(pat), UnitsOf(repl), 0, Unlimited, true)))
    else
      Ok(Value(val.kind, ReplaceFrom(val.v, UnitsOf(pat), UnitsOf(repl), 0, AtMost(count.value.n), false)))
  }

  /** `replace` with the replacement taken literally in both paths, as the
      counted path already does. */
  function ReplaceOf(val: Value, pat: Obj, repl: Obj, count: Option<Obj>): (r: Result<Value>)
    ensures r.Err? <==> !IsKind(pat, val.kind) || !IsKind(repl, val.kind) || (count.Some? && !count.value.Int?)
    ensures r.Err? ==> r.error == TypeError
    ensures r.Ok? ==> r.value.kind == val.kind
    ensures r.Ok? ==>
      |r.value.v| == |val.v| + Used(BudgetOf(count), CountFrom(val.v, UnitsOf(pat), 0)) * (|UnitsOf(repl)| - |UnitsOf(pat)|)
    ensures r.Ok? && UnitsOf(repl) == UnitsOf(pat) ==> r.value == val
  {
    if !IsKind(pat, val.kind) || !IsKind(repl, val.kind) || (count.Some? && !count.value.Int?) then Err(TypeError)
    else
      var s, p, n := val.v, UnitsOf(pat), UnitsOf(repl);
      var budget := BudgetOf(count);
      ReplaceLength(s, p, n, 0, budget);
      ReplaceIdentity(s, p, budget, 0);
      Ok(Value(val.kind, ReplaceFrom(s, p, n, 0, budget, false)))
  }

  /** Each replaced match changes the length by `|w| - |p|`. */
  lemma {:induction false} ReplaceLength(s: seq<Unit>, p: seq<Unit>, w: seq<Unit>, i: nat, budget: Budget)
    requires i <= |s|
    ensures |ReplaceFrom(s, p, w, i, budget, false)| == |s| - i + Used(budget, CountFrom(s, p, i)) * (|w| - |p|)
    decreases |s| + 1 - i
  {
    var k := SearchForward(s, p, i);
    if k != -1 {
      var j := Resume(p, k);
      var c := if j > |s| then 0 else CountFrom(s, p, j);
      if j <= |s| {
        ReplaceLength(s, p, w, j, Spend(budget));
      }
      assert CountFrom(s, p, i) == 1 + c;
      if budget != AtMost(0) {
        assert Used(budget, 1 + c) == 1 + Used(Spend(budget), c);
        Distribute(Used(Spend(budget), c), |w| - |p|);
      }
    }
  }

  /** A count of at least the number of matches replaces them all. */
  lemma ReplaceCountEnough(val: Value, pat: Obj, repl: Obj, n: int)
    requires IsKind(pat, val.kind) && IsKind(repl, val.kind)
    requires n >= CountFrom(val.v, UnitsOf(pat), 0)
    ensures ReplaceOf(val, pat, repl, Some(Int(n))) == ReplaceOf(val, pat, repl, None)
  {
    ReplaceWithinBudget(val.v, UnitsOf(pat), UnitsOf(repl), 0, AtMost(n));
  }

  /** One unfolding of `ReplaceFrom` at a match that leaves text to scan. */
  lemma ReplaceFromStep(s: seq<Unit>, p: seq<Unit>, w: seq<Unit>, i: nat, budget: Budget, expand: bool)
    requires i <= |s|
    requires SearchForward(s, p, i) != -1 && Resume(p, SearchForward(s, p, i)) <= |s|
    ensures var k := SearchForward(s, p, i);
      var j := Resume(p, k);
      && i <= k && k + |p| <= j
      && ReplaceFrom(s, p, w, i, budget, expand)
         == s[i..k] + Replacement(s, p, w, k, budget, expand) + s[k + |p|..j] + ReplaceFrom(s, p, w, j, Spend(budget), expand)
  {
  }

  /** Replacing a pattern by itself changes nothing. */
  lemma {:induction false} ReplaceIdentity(s: seq<Unit>, p: seq<Unit>, budget: Budget, i: nat)
    requires i <= |s|
    ensures ReplaceFrom(s, p, p, i, budget, false) == s[i..]
    decreases |s| + 1 - i, 1
  {
    var k := SearchForward(s, p, i);
    if k != -1 {
      if Resume(p, k) > |s| {
        IdentityLast(s, p, budget, i, k);
      } else {
        IdentityMore(s, p, budget, i, k);
      }
    }
  }

  /** Once the budget is spent every match is put back, whatever the
      replacement. */
  lemma {:induction false} SpentKeeps(s: seq<Unit>, p: seq<Unit>, w: seq<Unit>, i: nat)
    requires i <= |s|
    ensures ReplaceFrom(s, p, w, i, AtMost(0), false) == s[i..]
    decreases |s| + 1 - i
  {
    var k := SearchForward(s, p, i);
    if k != -1 && Resume(p, k) <= |s| {
      ReplaceFromStep(s, p, w, i, AtMost(0), false);
      ReplaceFromStep(s, p, p, i, AtMost(0), false);
      SpentKeeps(s, p, w, Resume(p, k));
      ReplaceIdentity(s, p, AtMost(0), Resume(p, k));
    }
    ReplaceIdentity(s, p, AtMost(0), i);
  }

  /** The cut of `split` at a literal pattern, as `NextMatch` finds it. */
  function Cut(s: seq<Unit>, p: seq<Unit>, i: nat, splits: nat, limit: Option<int>): (r: seq<seq<Unit>>)
    requires p != [] && i <= |s|
    ensures r != []
  {
    Splitting.SplitFrom(s, Splitting.Literal(p), i, splits, limit)
  }

  /** One cut at the next match of `p`, or the rest when none is left. */
  lemma CutStep(s: seq<Unit>, p: seq<Unit>, i: nat, splits: nat, limit: Option<int>)
    requires p != [] && i <= |s|
    ensures var k := SearchForward(s, p, i);
      && (k == -1 ==> Cut(s, p, i, splits, limit) == [s[i..]])
      && (k != -1 ==> k + |p| <= |s|)
      && (k != -1 && limit.Some? && splits + 1 >= limit.value ==>
            Cut(s, p, i, splits, limit) == [s[i..k]] + [s[k + |p|..]])
      && (k != -1 && !(limit.Some? && splits + 1 >= limit.value) ==>
            Cut(s, p, i, splits, limit) == [s[i..k]] + Cut(s, p, k + |p|, splits + 1, limit))
  {
    var sep := Splitting.Literal(p);
    var k := SearchForward(s, p, i);
    var m := Splitting.NextMatch(s, sep, i);
    Splitting.SplitFromStep(s, sep, i, splits, limit);
    if k == -1 {
      assert m.None?;
      assert Splitting.Tail(s[i..], sep) == [s[i..]];
    } else {
      assert m == Some((k, k + |p|));
      assert Splitting.Tail(s[k + |p|..], sep) == [s[k + |p|..]];
    }
  }

  /** A cut before the limit: the fragment, then the cut after the match. */
  lemma CutMore(s: seq<Unit>, p: seq<Unit>, i: nat, splits: nat, limit: nat, k: nat)
    requires p != [] && i <= |s| && k == SearchForward(s, p, i) && splits + 1 < limit
    ensures k + |p| <= |s|
    ensures Cut(s, p, i, splits, Some(limit)) == [s[i..k]] + Cut(s, p, k + |p|, splits + 1, Some(limit))
  {
    CutStep(s, p, i, splits, Some(limit));
  }

  /** A cut with no limit: the fragment, then the cut after the match. */
  lemma CutFree(s: seq<Unit>, p: seq<Unit>, i: nat, splits: nat, k: nat)
    requires p != [] && i <= |s| && k == SearchForward(s, p, i)
    ensures k + |p| <= |s|
    ensures Cut(s, p, i, splits, None) == [s[i..k]] + Cut(s, p, k + |p|, splits + 1, None)
  {
    CutStep(s, p, i, splits, None);
  }

  /** No match left: the rest is kept. */
  lemma ReplaceLast(s: seq<Unit>, p: seq<Unit>, w: seq<Unit>, i: nat, budget: Budget)
    requires i <= |s| && SearchForward(s, p, i) == -1
    ensures ReplaceFrom(s, p, w, i, budget, false) == s[i..]
  {
  }

  /** Without a budget, replacing a non-empty pattern is splitting at it and
      joining the fragments with the replacement. */
  lemma {:induction false} ReplaceAllIsSplitJoin(s: seq<Unit>, p: seq<Unit>, w: seq<Unit>, i: nat, splits: nat)
    requires p != [] && i <= |s|
    ensures ReplaceFrom(s, p, w, i, Unlimited, false) == JoinWith(Cut(s, p, i, splits, None), w)
    decreases |s| - i, 1
  {
    var k := SearchForward(s, p, i);
    if k == -1 {
      CutStep(s, p, i, splits, None);
      ReplaceLast(s, p, w, i, Unlimited);
    } else {
      ReplaceAllMore(s, p, w, i, splits, k);
    }
  }

  /** A match with no limit: replaced, and the scan goes on after it. */
  lemma {:induction false} ReplaceAllMore(s: seq<Unit>, p: seq<Unit>, w: seq<Unit>, i: nat, splits: nat, k: nat)
    requires p != [] && i <= |s| && k == SearchForward(s, p, i)
    ensures ReplaceFrom(s, p, w, i, Unlimited, false) == JoinWith(Cut(s, p, i, splits, None), w)
    decreases |s| - i, 0
  {
    var j: nat := k + |p|;
    ReplaceOne(s, p, w, i, Unlimited, k);
    assert Spend(Unlimited) == Unlimited;
    ReplaceAllIsSplitJoin(s, p, w, j, splits + 1);
    CutFree(s, p, i, splits, k);
    Combine(ReplaceFrom(s, p, w, i, Unlimited, false), s[i..k], w,
            ReplaceFrom(s, p, w, j, Unlimited, false),
            Cut(s, p, j, splits + 1, None), Cut(s, p, i, splits, None));
  }

  /** With a budget of `n` ≥ 1 after `splits` cuts of `limit`, the first
      matches up to the limit are replaced: splitting with that limit and
      joining with the replacement. */
  lemma {:induction false} ReplaceSomeIsSplitJoin(s: seq<Unit>, p: seq<Unit>, w: seq<Unit>, i: nat, splits: nat, limit: nat)
    requires p != [] && i <= |s| && splits < limit
    ensures ReplaceFrom(s, p, w, i, AtMost(limit - splits), false) == JoinWith(Cut(s, p, i, splits, Some(limit)), w)
    decreases |s| - i, 1
  {
    var k := SearchForward(s, p, i);
    if k == -1 {
      CutStep(s, p, i, splits, Some(limit));
      ReplaceLast(s, p, w, i, AtMost(limit - splits));
    } else if splits + 1 >= limit {
      CutStep(s, p, i, splits, Some(limit));
      ReplaceOne(s, p, w, i, AtMost(limit - splits), k);
      ReplaceFinal(s, p, w, i, k);
    } else {
      ReplaceSomeMore(s, p, w, i, splits, limit, k);
    }
  }

  /** A match before the limit: replaced, and the scan goes on after it. */
  lemma {:induction false} ReplaceSomeMore(s: seq<Unit>, p: seq<Unit>, w: seq<Unit>, i: nat, splits: nat, limit: nat, k: nat)
    requires p != [] && i <= |s| && splits + 1 < limit
    requires k == SearchForward(s, p, i)
    ensures ReplaceFrom(s, p, w, i, AtMost(limit - splits), false) == JoinWith(Cut(s, p, i, splits, Some(limit)), w)
    decreases |s| - i, 0
  {
    var j: nat := k + |p|;
    ReplaceOne(s, p, w, i, AtMost(limit - splits), k);
    assert Spend(AtMost(limit - splits)) == AtMost(limit - (splits + 1));
    ReplaceSomeIsSplitJoin(s, p, w, j, splits + 1, limit);
    CutMore(s, p, i, splits, limit, k);
    Combine(ReplaceFrom(s, p, w, i, AtMost(limit - splits), false), s[i..k], w,
            ReplaceFrom(s, p, w, j, AtMost(limit - (splits + 1)), false),
            Cut(s, p, j, splits + 1, Some(limit)), Cut(s, p, i, splits, Some(limit)));
  }

  /** Text, replacement, then the join of the remaining fragments is the
      join of all of them. */
  lemma Combine(r: seq<Unit>, a: seq<Unit>, w: seq<Unit>, x: seq<Unit>, rest: seq<seq<Unit>>, all: seq<seq<Unit>>)
    requires r == a + w + x && x == JoinWith(rest, w) && all == [a] + rest && rest != []
    ensures r == JoinWith(all, w)
  {
    JoinCons(a, rest, w);
  }

  /** A match of a non-empty pattern with budget left: the text before it,
      the replacement, then the scan after the match. */
  lemma ReplaceOne(s: seq<Unit>, p: seq<Unit>, w: seq<Unit>, i: nat, budget: Budget, k: int)
    requires p != [] && i <= |s| && k == SearchForward(s, p, i) && k != -1 && budget != AtMost(0)
    ensures k + |p| <= |s|
    ensures ReplaceFrom(s, p, w, i, budget, false) == s[i..k] + w + ReplaceFrom(s, p, w, k + |p|, Spend(budget), false)
  {
    var j := k + |p|;
    assert Resume(p, k) == j;
    ReplaceFromStep(s, p, w, i, budget, false);
    assert Replacement(s, p, w, k, budget, false) == w;
    var rest := ReplaceFrom(s, p, w, j, Spend(budget), false);
    var all := ReplaceFrom(s, p, w, i, budget, false);
    assert all == s[i..k] + w + s[j..j] + rest;
    assert s[j..j] == [];
    assert s[i..k] + w + s[j..j] + rest == s[i..k] + w + rest;
  }

  /** The last match the budget allows: replaced, and the rest kept. */
  lemma ReplaceFinal(s: seq<Unit>, p: seq<Unit>, w: seq<Unit>, i: nat, k: nat)
    requires p != [] && i <= k && OccursAt(s, p, k)
    ensures s[i..k] + w + ReplaceFrom(s, p, w, k + |p|, AtMost(0), false)
            == JoinWith([s[i..k]] + [s[k + |p|..]], w)
  {
    var j := k + |p|;
    assert j <= |s|;
    var a, b := s[i..k], s[j..];
    SpentKeeps(s, p, w, j);
    JoinCons(a, [b], w);
    assert JoinWith([b], w) == b;
    assert JoinWith([a] + [b], w) == a + w + b;
  }

  lemma JoinCons(x: seq<Unit>, rest: seq<seq<Unit>>, w: seq<Unit>)
    requires rest != []
    ensures JoinWith([x] + rest, w) == x + w + JoinWith(rest, w)
  {
    assert ([x] + rest)[1..] == rest;
  }

  /** `replace` of a non-empty pattern is `split` at it, with the count as
      the limit, and the fragments joined with the replacement; a count of 0
      changes nothing. */
  lemma ReplaceIsSplitJoin(val: Value, pat: Obj, repl: Obj, count: Option<Obj>)
    requires ReplaceOf(val, pat, repl, count).Ok? && UnitsOf(pat) != []
    ensures var r := ReplaceOf(val, pat, repl, count).value.v;
      var p, w := UnitsOf(pat), UnitsOf(repl);
      && (BudgetOf(count).Unlimited? ==> r == JoinWith(Cut(val.v, p, 0, 0, None), w))
      && (BudgetOf(count) == AtMost(0) ==> r == val.v)
      && (BudgetOf(count).AtMost? && BudgetOf(count).n > 0 ==>
            r == JoinWith(Cut(val.v, p, 0, 0, Some(BudgetOf(count).n)), w))
  {
    var p, w := UnitsOf(pat), UnitsOf(repl);
    match BudgetOf(count)
    case Unlimited =>
      ReplaceAllIsSplitJoin(val.v, p, w, 0, 0);
    case AtMost(n) =>
      if n == 0 {
        SpentKeeps(val.v, p, w, 0);
      } else {
        ReplaceSomeIsSplitJoin(val.v, p, w, 0, 0, n);
      }
  }

  /** The last match, an empty pattern at the end: nothing follows it. */
  lemma IdentityLast(s: seq<Unit>, p: seq<Unit>, budget: Budget, i: nat, k: int)
    requires i <= |s| && k == SearchForward(s, p, i) && k != -1 && Resume(p, k) > |s|
    ensures ReplaceFrom(s, p, p, i, budget, false) == s[i..]
  {
    assert p == [] && k == |s|;
    assert ReplaceFrom(s, p, p, i, budget, false) == s[i..k] + p;
    assert s[i..k] + p == s[i..k];
  }

  /** A match followed by more text: the match is put back as it was. */
  lemma {:induction false} IdentityMore(s: seq<Unit>, p: seq<Unit>, budget: Budget, i: nat, k: int)
    requires i <= |s| && k == SearchForward(s, p, i) && k != -1 && Resume(p, k) <= |s|
    ensures ReplaceFrom(s, p, p, i, budget, false) == s[i..]
    decreases |s| + 1 - i, 0
  {
    var j := Resume(p, k);
    ReplaceFromStep(s, p, p, i, budget, false);
    ReplaceIdentity(s, p, Spend(budget), j);
    assert Replacement(s, p, p, k, budget, false) == p;
    assert s[k..k + |p|] == p;
    SuffixSplit(s, i, k, k + |p|, j);
  }

  /** A count at least the number of matches replaces them all. */
  lemma {:induction false} ReplaceWithinBudget(s: seq<Unit>, p: seq<Unit>, w: seq<Unit>, i: nat, budget: Budget)
    requires i <= |s|
    ensures budget.AtMost? && budget.n >= CountFrom(s, p, i) ==>
      ReplaceFrom(s, p, w, i, budget, false) == ReplaceFrom(s, p, w, i, Unlimited, false)
    decreases |s| + 1 - i
  {
    var k := SearchForward(s, p, i);
    if k != -1 && Resume(p, k) <= |s| {
      ReplaceWithinBudget(s, p, w, Resume(p, k), Spend(budget));
    }
  }

  /** `"a".replace("a", "$$")`: the code as written yields `"$"`; taken
      literally the replacement yields `"$$"`. */
  lemma DollarPatternExpanded()
    ensures ReplaceAsWritten(Value(Str, [97]), Text([97]), Text([DOLLAR, DOLLAR]), None) == Ok(Value(Str, [DOLLAR]))
    ensures ReplaceOf(Value(Str, [97]), Text([97]), Text([DOLLAR, DOLLAR]), None) == Ok(Value(Str, [DOLLAR, DOLLAR]))
  {
    var s: seq<Unit> := [97];
    assert OccursAt(s, [97], 0);
    assert SearchForward(s, [97], 0) == 0;
    var w: seq<Unit> := [DOLLAR, DOLLAR];
    assert w[2..] == [];
    assert Expand(w, s, 0, 1) == [DOLLAR];
    assert ReplaceFrom(s, [97], w, 0, Unlimited, true) == [DOLLAR];
    assert ReplaceFrom(s, [97], w, 0, Unlimited, false) == w;
  }

  /** Both paths agree whenever the replacement holds no `$`. */
  lemma {:induction false} AsWrittenAgreesWithoutDollar(s: seq<Unit>, p: seq<Unit>, w: seq<Unit>, i: nat)
    requires i <= |s|
    requires forall j :: 0 <= j < |w| ==> w[j] != DOLLAR
    ensures ReplaceFrom(s, p, w, i, Unlimited, true) == ReplaceFrom(s, p, w, i, Unlimited, false)
    decreases |s| + 1 - i
  {
    var k := SearchForward(s, p, i);
    if k != -1 {
      ExpandPlain(w, s, k, k + |p|);
      assert Replacement(s, p, w, k, Unlimited, true) == w;
      if Resume(p, k) <= |s| {
        ReplaceFromStep(s, p, w, i, Unlimited, true);
        ReplaceFromStep(s, p, w, i, Unlimited, false);
        AsWrittenAgreesWithoutDollar(s, p, w, Resume(p, k));
      }
    }
  }
}
