/** `join` and `split` (str.js lines 497-570). */
module Splitting {
  import opened Base
  import opened Chars
  import opened JsString

  // ---------------------------------------------------------------------
  // join

  /** The position of the first item that is not of kind `k`, or `|items|`. */
  function FirstForeign(items: seq<Obj>, k: Kind): (p: nat)
    ensures p <= |items|
    ensures forall j :: 0 <= j < p ==> IsKind(items[j], k)
    ensures p < |items| ==> !IsKind(items[p], k)
    decreases |items|
  {
    if items == [] then 0
    else if !IsKind(items[0], k) then 0
    else 1 + FirstForeign(items[1..], k)
  }

  /** The units of the items. */
  function PartsOf(items: seq<Obj>): (parts: seq<seq<Unit>>)
    ensures |parts| == |items|
    ensures forall j :: 0 <= j < |items| ==> parts[j] == UnitsOf(items[j])
  {
    seq(|items|, j requires 0 <= j < |items| => UnitsOf(items[j]))
  }

  /** `join` (lines 497-509): every item must have the separator's kind, and
      the first that does not is named by its position; otherwise the items
      are joined with the separator between them. */
  function JoinOf(sep: Value, items: seq<Obj>): (r: Result<Value>)
    ensures r.Err? <==> exists j :: 0 <= j < |items| && !IsKind(items[j], sep.kind)
    ensures r.Err? ==>
      && r.error.TypeErrorAt? && r.error.position < |items|
      && !IsKind(items[r.error.position], sep.kind)
      && forall j :: 0 <= j < r.error.position ==> IsKind(items[j], sep.kind)
    ensures r.Ok? ==> r.value.kind == sep.kind
  {
    var p := FirstForeign(items, sep.kind);
    if p < |items| then Err(TypeErrorAt(p))
    else Ok(Value(sep.kind, JoinWith(PartsOf(items), sep.v)))
  }

  /** The loop of `join`: the items' units are collected, the first foreign
      item stops it. */
  method Join(sep: Value, items: seq<Obj>) returns (r: Result<Value>)
    ensures r == JoinOf(sep, items)
  {
    var parts: seq<seq<Unit>> := [];
    var i := 0;
    while i < |items|
      invariant 0 <= i <= |items| && |parts| == i
      invariant forall j :: 0 <= j < i ==> IsKind(items[j], sep.kind) && parts[j] == UnitsOf(items[j])
    {
      if !IsKind(items[i], sep.kind) {
        return Err(TypeErrorAt(|parts|));
      }
      parts := parts + [UnitsOf(items[i])];
      i := i + 1;
    }
    assert parts == PartsOf(items);
    r := Ok(Value(sep.kind, JoinWith(parts, sep.v)));
  }

  /** Joining with `sep` puts `sep` between consecutive parts: the first part
      and then the joined rest. */
  lemma JoinWithCons(parts: seq<seq<Unit>>, sep: seq<Unit>)
    requires |parts| >= 2
    ensures JoinWith(parts, sep) == parts[0] + sep + JoinWith(parts[1..], sep)
  {
  }

  // ---------------------------------------------------------------------
  // split

  /** What `split` cuts at: runs of whitespace (no separator given), or a
      non-empty literal. */
  datatype Sep = Whitespace | Literal(t: seq<Unit>)

  predicate ValidSep(sep: Sep) {
    sep.Literal? ==> sep.t != []
  }

  /** The first offset at or after `i` that holds whitespace, or -1. */
  function FirstSpace(s: seq<Unit>, i: nat): (r: int)
    ensures r == -1 || (i <= r < |s| && IsSpace(s[r]))
    ensures forall k :: i <= k < |s| && (r == -1 || k < r) ==> !IsSpace(s[k])
    decreases |s| - i
  {
    if i >= |s| then -1
    else if IsSpace(s[i]) then i
    else FirstSpace(s, i + 1)
  }

  /** The first offset at or after `i` that does not hold whitespace. */
  function SkipSpace(s: seq<Unit>, i: nat): (r: nat)
    requires i <= |s|
    ensures i <= r <= |s|
    ensures forall k :: i <= k < r ==> IsSpace(s[k])
    ensures r < |s| ==> !IsSpace(s[r])
    decreases |s| - i
  {
    if i < |s| && IsSpace(s[i]) then SkipSpace(s, i + 1) else i
  }

  /** The next match, at or after `i`, of the regex `split` builds: the
      escaped literal, or a maximal run of `[\s\xa0]`. Both are never empty,
      so the empty-match exit of the loop at line 553 is never taken. */
  function NextMatch(s: seq<Unit>, sep: Sep, i: nat): (m: Option<(nat, nat)>)
    requires ValidSep(sep) && i <= |s|
    ensures m.Some? ==> i <= m.value.0 < m.value.1 <= |s|
    ensures m.Some? && sep.Literal? ==>
      OccursAt(s, sep.t, m.value.0) && m.value.1 == m.value.0 + |sep.t|
    ensures sep.Literal? ==> forall k :: i <= k && (m.None? || k < m.value.0) ==> !OccursAt(s, sep.t, k)
    ensures m.Some? && sep.Whitespace? ==>
      (forall k :: i <= k < m.value.0 ==> !IsSpace(s[k])) &&
      (forall k :: m.value.0 <= k < m.value.1 ==> IsSpace(s[k])) &&
      (m.value.1 < |s| ==> !IsSpace(s[m.value.1]))
    ensures m.None? && sep.Whitespace? ==> forall k :: i <= k < |s| ==> !IsSpace(s[k])
  {
    match sep
    case Literal(t) =>
      var k := SearchForward(s, t, i);
      if k == -1 then None else Some((k, k + |t|))
    case Whitespace =>
      var k := FirstSpace(s, i);
      if k == -1 then None else Some((k, SkipSpace(s, k)))
  }

  /** What follows the last cut: kept always after a literal separator, and
      only when non-empty in whitespace mode (lines 565-568). */
  function Tail(rest: seq<Unit>, sep: Sep): seq<seq<Unit>> {
    if sep.Literal? || rest != [] then [rest] else []
  }

  /** The fragments the loop of lines 552-563 collects from offset `i` after
      `splits` cuts. `limit` is the `howmany` the loop stops at, if any. */
  function SplitFrom(s: seq<Unit>, sep: Sep, i: nat, splits: nat, limit: Option<int>): (r: seq<seq<Unit>>)
    requires ValidSep(sep) && i <= |s|
    ensures sep.Literal? ==> |r| >= 1
    decreases |s| - i
  {
    var m := NextMatch(s, sep, i);
    if m.None? then Tail(s[i..], sep)
    else if limit.Some? && splits + 1 >= limit.value then [s[i..m.value.0]] + Tail(s[m.value.1..], sep)
    else [s[i..m.value.0]] + SplitFrom(s, sep, m.value.1, splits + 1, limit)
  }

  /** One step of the cut: the fragment before the next match, then either
      the tail (limit reached) or the cut from the end of the match. */
  lemma SplitFromStep(s: seq<Unit>, sep: Sep, i: nat, splits: nat, limit: Option<int>)
    requires ValidSep(sep) && i <= |s|
    ensures NextMatch(s, sep, i).None? ==> SplitFrom(s, sep, i, splits, limit) == Tail(s[i..], sep)
    ensures NextMatch(s, sep, i).Some? ==>
      var m := NextMatch(s, sep, i).value;
      SplitFrom(s, sep, i, splits, limit) == [s[i..m.0]] +
        (if limit.Some? && splits + 1 >= limit.value then Tail(s[m.1..], sep)
         else SplitFrom(s, sep, m.1, splits + 1, limit))
  {
  }

  /** The separator `split` uses and its argument errors (lines 519-531): a
      separator of another kind raises TypeError, an empty one ValueError, a
      count that is not an integer TypeError. */
  function SplitArgs(val: Value, on: Option<Obj>, howmany: Option<Obj>): (r: Result<Sep>)
    ensures r.Ok? ==> ValidSep(r.value)
    ensures r.Ok? <==>
      (on.None? || on.value.NoneObj? || (IsKind(on.value, val.kind) && UnitsOf(on.value) != []))
      && (howmany.None? || howmany.value.Int?)
    ensures r.Err? && on.Some? && IsKind(on.value, val.kind) && UnitsOf(on.value) == [] ==> r.error == ValueError
    ensures r.Ok? ==> (r.value.Whitespace? <==> on.None? || on.value.NoneObj?)
    ensures r.Ok? && r.value.Literal? ==> r.value.t == UnitsOf(on.value)
  {
    if on.Some? && !on.value.NoneObj? && !IsKind(on.value, val.kind) then Err(TypeError)
    else if on.Some? && !on.value.NoneObj? && UnitsOf(on.value) == [] then Err(ValueError)
    else if howmany.Some? && !howmany.value.Int? then Err(TypeError)
    else if on.None? || on.value.NoneObj? then Ok(Whitespace)
    else Ok(Literal(UnitsOf(on.value)))
  }

  /** The cut limit as written: the loop stops once `splits >= howmany`
      whenever `howmany` is truthy, so a negative count stops it after one
      cut. */
  function LimitAsWritten(howmany: Option<Obj>): Option<int>
    requires howmany.Some? ==> howmany.value.Int?
  {
    if howmany.None? || howmany.value.n == 0 then None else Some(howmany.value.n)
  }

  /** The cut limit read as Python reads it: a negative count, like an absent
      one, means no limit. A zero count also means no limit, as written. */
  function Limit(howmany: Option<Obj>): (l: Option<int>)
    requires howmany.Some? ==> howmany.value.Int?
    ensures l.Some? ==> howmany.Some? && l.value > 0 && l.value == howmany.value.n
    ensures l.None? <==> howmany.None? || howmany.value.n <= 0
  {
    if howmany.None? || howmany.value.n <= 0 then None else Some(howmany.value.n)
  }

  /** The fragments of `val` cut at `sep` with the given limit; whitespace
      mode first drops leading whitespace (line 537). */
  function SplitUnder(val: Value, sep: Sep, limit: Option<int>): seq<seq<Unit>>
    requires ValidSep(sep)
  {
    var str := if sep.Whitespace? then val.v[SkipSpace(val.v, 0)..] else val.v;
    SplitFrom(str, sep, 0, 0, limit)
  }

  /** `split` as written. Each fragment is a value of the receiver's kind. */
  function SplitAsWritten(val: Value, on: Option<Obj>, howmany: Option<Obj>): (r: Result<seq<seq<Unit>>>)
    ensures r.Ok? <==> SplitArgs(val, on, howmany).Ok?
  {
    var sep :- SplitArgs(val, on, howmany);
    Ok(SplitUnder(val, sep, LimitAsWritten(howmany)))
  }

  /** `split` with a negative count meaning no limit. */
  function SplitOf(val: Value, on: Option<Obj>, howmany: Option<Obj>): (r: Result<seq<seq<Unit>>>)
    ensures r.Ok? <==> SplitArgs(val, on, howmany).Ok?
    ensures r.Err? ==> r.error == SplitArgs(val, on, howmany).error
  {
    var sep :- SplitArgs(val, on, howmany);
    Ok(SplitUnder(val, sep, Limit(howmany)))
  }

  /** The loop of lines 552-568: `index` is where the previous match ended,
      and every match cuts off the text before it. */
  method Split(val: Value, on: Option<Obj>, howmany: Option<Obj>) returns (r: Result<seq<seq<Unit>>>)
    ensures r == SplitOf(val, on, howmany)
  {
    var args := SplitArgs(val, on, howmany);
    if args.Err? {
      assert SplitOf(val, on, howmany) == Err(args.error);
      return Err(args.error);
    }
    var sep := args.value;
    var limit := Limit(howmany);
    var str := val.v;
    if sep.Whitespace? {
      str := str[SkipSpace(str, 0)..];
    }
    ghost var whole := SplitFrom(str, sep, 0, 0, limit);
    assert whole == SplitUnder(val, sep, limit);
    var result: seq<seq<Unit>> := [];
    var index := 0;
    var splits := 0;
    var done := false;
    while !done
      invariant 0 <= index <= |str|
      invariant !done ==> result + SplitFrom(str, sep, index, splits, limit) == whole
      invariant done ==> result + Tail(str[index..], sep) == whole
      decreases |str| - index, if done then 0 else 1
    {
      var m := NextMatch(str, sep, index);
      SplitFromStep(str, sep, index, splits, limit);
      if m.None? {
        done := true;
      } else {
        var k, e := m.value.0, m.value.1;
        ghost var next := if limit.Some? && splits + 1 >= limit.value then Tail(str[e..], sep)
          else SplitFrom(str, sep, e, splits + 1, limit);
        assert result + ([str[index..k]] + next) == whole;
        AppendAssoc(result, [str[index..k]], next);
        result := result + [str[index..k]];
        index := e;
        splits := splits + 1;
        if limit.Some? && splits >= limit.value {
          done := true;
        }
      }
    }
    var rest := str[index..];
    if sep.Literal? || |rest| > 0 {
      result := result + [rest];
    }
    assert result == whole;
    r := Ok(result);
  }

  // ---------------------------------------------------------------------
  // properties of the cut

  /** Joining the fragments of a literal split with the separator gives the
      text back; empty fragments are kept for this. */
  lemma {:induction false} SplitJoinsBack(s: seq<Unit>, t: seq<Unit>, i: nat, splits: nat, limit: Option<int>)
    requires t != [] && i <= |s|
    ensures JoinWith(SplitFrom(s, Literal(t), i, splits, limit), t) == s[i..]
    decreases |s| - i
  {
    SplitFromStep(s, Literal(t), i, splits, limit);
    match NextMatch(s, Literal(t), i)
    case None =>
    case Some((k, e)) =>
      assert s[k..e] == t;
      SuffixSplit3(s, i, k, e);
      var rest := if limit.Some? && splits + 1 >= limit.value then [s[e..]]
        else SplitFrom(s, Literal(t), e, splits + 1, limit);
      assert SplitFrom(s, Literal(t), i, splits, limit) == [s[i..k]] + rest;
      assert ([s[i..k]] + rest)[1..] == rest;
      JoinWithCons([s[i..k]] + rest, t);
      if !(limit.Some? && splits + 1 >= limit.value) {
        SplitJoinsBack(s, t, e, splits + 1, limit);
      }
  }

  /** `t` occurs nowhere in `f`. */
  ghost predicate Free(f: seq<Unit>, t: seq<Unit>) {
    forall q :: !OccursAt(f, t, q)
  }

  lemma SliceOfSlice(s: seq<Unit>, i: nat, k: nat, a: nat, b: nat)
    requires i <= k <= |s| && a <= b <= k - i
    ensures s[i..k][a..b] == s[i + a..i + b]
  {
    forall m | 0 <= m < b - a
      ensures s[i..k][a..b][m] == s[i + a..i + b][m]
    {
    }
  }

  /** `t` does not occur in `s` between `i` and `k`. */
  lemma FreeBetween(s: seq<Unit>, t: seq<Unit>, i: nat, k: nat)
    requires t != [] && i <= k <= |s|
    requires forall q :: i <= q < k ==> !OccursAt(s, t, q)
    ensures Free(s[i..k], t)
  {
    forall q | OccursAt(s[i..k], t, q)
      ensures false
    {
      SliceOfSlice(s, i, k, q, q + |t|);
      assert OccursAt(s, t, i + q);
    }
  }

  /** Every fragment of a literal split but the last is free of the
      separator, and so is the last one when no limit stopped the loop. */
  lemma {:induction false} LiteralFragmentsFree(s: seq<Unit>, t: seq<Unit>, i: nat, splits: nat, limit: Option<int>)
    requires t != [] && i <= |s|
    ensures FragmentsFree(SplitFrom(s, Literal(t), i, splits, limit), t, limit.None?)
    decreases |s| - i
  {
    match NextMatch(s, Literal(t), i)
    case None =>
      FragmentsNoMatch(s, t, i, splits, limit);
    case Some((k, e)) =>
      if limit.Some? && splits + 1 >= limit.value {
        FragmentsStopped(s, t, i, splits, limit, k, e);
      } else {
        LiteralFragmentsFree(s, t, e, splits + 1, limit);
        FragmentsCons(s, t, i, splits, limit, k, e);
      }
  }

  /** Every fragment but the last is free of `t`, and so is the last when
      `all` holds. */
  ghost predicate FragmentsFree(r: seq<seq<Unit>>, t: seq<Unit>, all: bool) {
    && (forall j :: 0 <= j < |r| - 1 ==> Free(r[j], t))
    && (all && |r| > 0 ==> Free(r[|r| - 1], t))
  }

  lemma FragmentsNoMatch(s: seq<Unit>, t: seq<Unit>, i: nat, splits: nat, limit: Option<int>)
    requires t != [] && i <= |s| && NextMatch(s, Literal(t), i).None?
    ensures FragmentsFree(SplitFrom(s, Literal(t), i, splits, limit), t, limit.None?)
  {
    SplitFromStep(s, Literal(t), i, splits, limit);
    FreeBetween(s, t, i, |s|);
    assert s[i..|s|] == s[i..];
    assert SplitFrom(s, Literal(t), i, splits, limit) == [s[i..]];
  }

  lemma FragmentsStopped(s: seq<Unit>, t: seq<Unit>, i: nat, splits: nat, limit: Option<int>, k: nat, e: nat)
    requires t != [] && i <= |s| && NextMatch(s, Literal(t), i) == Some((k, e))
    requires limit.Some? && splits + 1 >= limit.value
    ensures FragmentsFree(SplitFrom(s, Literal(t), i, splits, limit), t, limit.None?)
  {
    SplitFromStep(s, Literal(t), i, splits, limit);
    FreeBetween(s, t, i, k);
    assert SplitFrom(s, Literal(t), i, splits, limit) == [s[i..k], s[e..]];
  }

  lemma FragmentsCons(s: seq<Unit>, t: seq<Unit>, i: nat, splits: nat, limit: Option<int>, k: nat, e: nat)
    requires t != [] && i <= |s| && NextMatch(s, Literal(t), i) == Some((k, e))
    requires !(limit.Some? && splits + 1 >= limit.value)
    requires FragmentsFree(SplitFrom(s, Literal(t), e, splits + 1, limit), t, limit.None?)
    ensures FragmentsFree(SplitFrom(s, Literal(t), i, splits, limit), t, limit.None?)
  {
    SplitFromStep(s, Literal(t), i, splits, limit);
    FreeBetween(s, t, i, k);
    var rest := SplitFrom(s, Literal(t), e, splits + 1, limit);
    FreeCons(s[i..k], rest, t, limit.None?);
    assert SplitFrom(s, Literal(t), i, splits, limit) == [s[i..k]] + rest;
  }

  /** A free fragment put in front keeps the fragments free. */
  lemma FreeCons(f: seq<Unit>, rest: seq<seq<Unit>>, t: seq<Unit>, all: bool)
    requires Free(f, t) && |rest| >= 1 && FragmentsFree(rest, t, all)
    ensures FragmentsFree([f] + rest, t, all)
  {
    var r := [f] + rest;
    forall j | 0 <= j < |r| - 1
      ensures Free(r[j], t)
    {
      if j > 0 {
        assert r[j] == rest[j - 1];
      }
    }
    if all {
      assert r[|r| - 1] == rest[|rest| - 1];
    }
  }

  /** A positive count bounds the number of fragments by `howmany + 1`. */
  lemma {:induction false} SplitCountBound(s: seq<Unit>, sep: Sep, i: nat, splits: nat, n: int)
    requires ValidSep(sep) && i <= |s| && splits < n
    ensures |SplitFrom(s, sep, i, splits, Some(n))| <= n - splits + 1
    decreases |s| - i
  {
    SplitFromStep(s, sep, i, splits, Some(n));
    var m := NextMatch(s, sep, i);
    if m.Some? && splits + 1 < n {
      SplitCountBound(s, sep, m.value.1, splits + 1, n);
    }
  }

  /** No unit of `f` is whitespace. */
  predicate NoSpace(f: seq<Unit>) {
    forall k :: 0 <= k < |f| ==> !IsSpace(f[k])
  }

  /** The fragments of a whitespace split: none is empty, those before the
      last hold no whitespace, nor does the last when `all` holds. */
  predicate SpaceFree(r: seq<seq<Unit>>, all: bool) {
    && (forall j :: 0 <= j < |r| ==> r[j] != [])
    && (forall j :: 0 <= j < |r| - 1 ==> NoSpace(r[j]))
    && (all ==> forall j :: 0 <= j < |r| ==> NoSpace(r[j]))
  }

  /** Whitespace mode makes no empty fragment; the fragments before the last
      hold no whitespace, nor does the last when no limit stopped the loop. */
  lemma {:induction false} WhitespaceFragments(s: seq<Unit>, i: nat, splits: nat, limit: Option<int>)
    requires i <= |s| && (i < |s| ==> !IsSpace(s[i]))
    ensures SpaceFree(SplitFrom(s, Whitespace, i, splits, limit), limit.None?)
    decreases |s| - i
  {
    match NextMatch(s, Whitespace, i)
    case None =>
      assert NoSpace(s[i..]);
    case Some((k, e)) =>
      assert k != i;
      assert NoSpace(s[i..k]);
      var r := SplitFrom(s, Whitespace, i, splits, limit);
      if limit.Some? && splits + 1 >= limit.value {
        assert r == [s[i..k]] + Tail(s[e..], Whitespace);
      } else {
        var rest := SplitFrom(s, Whitespace, e, splits + 1, limit);
        WhitespaceFragments(s, e, splits + 1, limit);
        assert r == [s[i..k]] + rest;
        assert forall j :: 1 <= j < |r| ==> r[j] == rest[j - 1];
      }
  }

  /** The properties of `split` itself, from those of the cut. */
  lemma SplitProperties(val: Value, on: Option<Obj>, howmany: Option<Obj>)
    requires SplitOf(val, on, howmany).Ok?
    ensures var r := SplitOf(val, on, howmany).value;
      && (howmany.Some? && howmany.value.n > 0 ==> |r| <= howmany.value.n + 1)
      && (on.Some? && !on.value.NoneObj? ==> JoinWith(r, UnitsOf(on.value)) == val.v)
      && ((on.None? || on.value.NoneObj?) ==> SpaceFree(r, howmany.None? || howmany.value.n <= 0))
  {
    var sep := SplitArgs(val, on, howmany).value;
    var str := if sep.Whitespace? then val.v[SkipSpace(val.v, 0)..] else val.v;
    assert str[0..] == str;
    if howmany.Some? && howmany.value.n > 0 {
      SplitCountBound(str, sep, 0, 0, howmany.value.n);
    }
    if sep.Literal? {
      assert sep == Literal(sep.t);
      SplitJoinsBack(str, sep.t, 0, 0, Limit(howmany));
    } else {
      assert sep == Whitespace;
      WhitespaceFragments(str, 0, 0, Limit(howmany));
    }
  }

  /** With no further match, a literal cut ends with the rest of the text. */
  lemma LastCut(s: seq<Unit>, t: seq<Unit>, i: nat, splits: nat)
    requires t != [] && i <= |s|
    requires NextMatch(s, Literal(t), i).None?
    ensures SplitFrom(s, Literal(t), i, splits, None) == [s[i..]]
  {
  }

  /** Without a limit, a cut at `k` is followed by the cut of the rest. */
  lemma UnlimitedStep(s: seq<Unit>, t: seq<Unit>, i: nat, splits: nat, k: nat)
    requires t != [] && i <= |s|
    requires NextMatch(s, Literal(t), i) == Some((k, k + |t|))
    ensures k + |t| <= |s|
    ensures SplitFrom(s, Literal(t), i, splits, None) == [s[i..k]] + SplitFrom(s, Literal(t), k + |t|, splits + 1, None)
  {
    var m := NextMatch(s, Literal(t), i);
    assert m.Some? && m.value.0 == k && m.value.1 == k + |t|;
  }

  /** No part holds the unit `c`. */
  predicate Avoid(parts: seq<seq<Unit>>, c: Unit) {
    forall j, k :: 0 <= j < |parts| && 0 <= k < |parts[j]| ==> parts[j][k] != c
  }

  lemma AvoidRest(parts: seq<seq<Unit>>, c: Unit)
    requires |parts| >= 1 && Avoid(parts, c)
    ensures Avoid(parts[1..], c)
  {
    forall j, k | 0 <= j < |parts| - 1 && 0 <= k < |parts[1..][j]|
      ensures parts[1..][j][k] != c
    {
      assert parts[1..][j] == parts[j + 1];
    }
  }

  /** The first match after `i` in text joined with a one-unit separator
      that no part contains is the separator after the first part. */
  lemma {:induction false} JoinedNextMatch(s: seq<Unit>, parts: seq<seq<Unit>>, c: Unit, i: nat)
    requires |parts| >= 1 && i <= |s|
    requires Avoid(parts, c)
    requires s[i..] == JoinWith(parts, [c])
    ensures i + |parts[0]| <= |s| && s[i..i + |parts[0]|] == parts[0]
    ensures |parts| == 1 ==> NextMatch(s, Literal([c]), i).None?
    ensures |parts| > 1 ==>
      && NextMatch(s, Literal([c]), i) == Some((i + |parts[0]|, i + |parts[0]| + 1))
      && s[i + |parts[0]| + 1..] == JoinWith(parts[1..], [c])
  {
    var p := parts[0];
    var k := i + |p|;
    if |parts| > 1 {
      JoinWithCons(parts, [c]);
    }
    assert s[i..][..|p|] == p;
    assert s[i..k] == p;
    forall q | i <= q < k
      ensures !OccursAt(s, [c], q)
    {
      assert s[i..][..|p|][q - i] == s[q];
      assert parts[0][q - i] != c;
      assert s[q..q + 1] == [s[q]];
    }
    if |parts| == 1 {
      assert k == |s|;
      assert SearchForward(s, [c], i) == -1;
    } else {
      assert s[k] == s[i..][|p|] == c;
      assert s[k..k + 1] == [c];
      assert OccursAt(s, [c], k);
      assert SearchForward(s, [c], i) == k;
      assert s[k + 1..] == s[i..][|p| + 1..];
    }
  }

  /** Splitting text made by joining parts with a one-unit separator that
      none of them contains gives the parts back. */
  lemma {:induction false} SplitOfJoined(s: seq<Unit>, parts: seq<seq<Unit>>, c: Unit, i: nat, splits: nat)
    requires |parts| >= 1 && i <= |s|
    requires Avoid(parts, c)
    requires s[i..] == JoinWith(parts, [c])
    ensures SplitFrom(s, Literal([c]), i, splits, None) == parts
    decreases |parts|, 1
  {
    if |parts| == 1 {
      JoinedLast(s, parts, c, i, splits);
    } else {
      JoinedMore(s, parts, c, i, splits);
    }
  }

  /** More than one part: the first, then the split of the rest. */
  lemma {:induction false} JoinedMore(s: seq<Unit>, parts: seq<seq<Unit>>, c: Unit, i: nat, splits: nat)
    requires |parts| > 1 && i <= |s|
    requires Avoid(parts, c)
    requires s[i..] == JoinWith(parts, [c])
    ensures SplitFrom(s, Literal([c]), i, splits, None) == parts
    decreases |parts|, 0
  {
    JoinedNextMatch(s, parts, c, i);
    var k := i + |parts[0]|;
    AvoidRest(parts, c);
    SplitOfJoined(s, parts[1..], c, k + 1, splits + 1);
    JoinedCut(s, parts, c, i, k, splits);
  }

  /** The last part: no separator follows it. */
  lemma JoinedLast(s: seq<Unit>, parts: seq<seq<Unit>>, c: Unit, i: nat, splits: nat)
    requires |parts| == 1 && i <= |s|
    requires Avoid(parts, c)
    requires s[i..] == JoinWith(parts, [c])
    ensures SplitFrom(s, Literal([c]), i, splits, None) == parts
  {
    JoinedNextMatch(s, parts, c, i);
    LastCut(s, [c], i, splits);
    assert s[i..] == parts[0];
    assert parts == [parts[0]];
  }

  /** A part followed by the separator, then the parts after it. */
  lemma JoinedCut(s: seq<Unit>, parts: seq<seq<Unit>>, c: Unit, i: nat, k: nat, splits: nat)
    requires |parts| > 1 && i <= |s| && k == i + |parts[0]|
    requires Avoid(parts, c)
    requires s[i..] == JoinWith(parts, [c])
    requires k + 1 <= |s|
    requires SplitFrom(s, Literal([c]), k + 1, splits + 1, None) == parts[1..]
    ensures SplitFrom(s, Literal([c]), i, splits, None) == parts
  {
    JoinedNextMatch(s, parts, c, i);
    UnlimitedStep(s, [c], i, splits, k);
    assert s[i..k] == parts[0];
    assert parts == [parts[0]] + parts[1..];
  }

  /** `split` undoes `join` for a one-unit separator that no part contains. */
  lemma JoinThenSplit(sep: Value, items: seq<Obj>, c: Unit)
    requires sep.v == [c] && |items| >= 1
    requires JoinOf(sep, items).Ok?
    requires Avoid(PartsOf(items), c)
    ensures SplitOf(JoinOf(sep, items).value, Some(AsObj(sep)), None) == Ok(PartsOf(items))
  {
    var joined := JoinOf(sep, items).value;
    var parts := PartsOf(items);
    assert joined.v[0..] == JoinWith(parts, [c]);
    SplitOfJoined(joined.v, parts, c, 0, 0);
  }

  /** `"a,b,c".split(",", -1)`: as written the loop stops after one cut and
      leaves `["a", "b,c"]`; read as Python reads it, the count means no limit
      and every comma cuts. */
  lemma NegativeCountStopsEarly()
    ensures SplitAsWritten(Value(Str, [97, 44, 98, 44, 99]), Some(Text([44])), Some(Int(-1)))
         == Ok([[97], [98, 44, 99]])
    ensures SplitOf(Value(Str, [97, 44, 98, 44, 99]), Some(Text([44])), Some(Int(-1)))
         == Ok([[97], [98], [99]])
  {
    var s: seq<Unit> := [97, 44, 98, 44, 99];
    assert SplitArgs(Value(Str, s), Some(Text([44])), Some(Int(-1))) == Ok(Literal([44]));
    CommaCutOnce();
    CommaCutAll();
  }

  /** The commas of "a,b,c" are at 1 and 3. */
  lemma CommaMatches()
    ensures NextMatch([97, 44, 98, 44, 99], Literal([44]), 0) == Some((1, 2))
    ensures NextMatch([97, 44, 98, 44, 99], Literal([44]), 2) == Some((3, 4))
    ensures NextMatch([97, 44, 98, 44, 99], Literal([44]), 4) == None
  {
    var s: seq<Unit> := [97, 44, 98, 44, 99];
    var t: seq<Unit> := [44];
    assert s[0..1] == [97] && s[1..2] == [44] && s[2..3] == [98] && s[3..4] == [44] && s[4..5] == [99];
    assert !OccursAt(s, t, 0) && OccursAt(s, t, 1) && !OccursAt(s, t, 2) && OccursAt(s, t, 3) && !OccursAt(s, t, 4);
  }

  /** A limit of -1 stops after the first cut. */
  lemma CommaCutOnce()
    ensures SplitFrom([97, 44, 98, 44, 99], Literal([44]), 0, 0, Some(-1)) == [[97], [98, 44, 99]]
  {
    var s: seq<Unit> := [97, 44, 98, 44, 99];
    CommaMatches();
    SplitFromStep(s, Literal([44]), 0, 0, Some(-1));
    assert s[0..1] == [97] && s[2..] == [98, 44, 99];
  }

  /** Without a limit every comma cuts. */
  lemma CommaCutAll()
    ensures SplitFrom([97, 44, 98, 44, 99], Literal([44]), 0, 0, None) == [[97], [98], [99]]
  {
    var s: seq<Unit> := [97, 44, 98, 44, 99];
    CommaMatches();
    SplitFromStep(s, Literal([44]), 4, 2, None);
    assert s[4..] == [99];
    UnlimitedStep(s, [44], 2, 1, 3);
    assert s[2..3] == [98];
    UnlimitedStep(s, [44], 0, 0, 1);
    assert s[0..1] == [97];
  }
}
