/** `splitlines` (str.js lines 987-1038): lines end at `\r\n`, `\r` or `\n`. */
module Lines {
  import opened Base
  import opened Chars

  /** The first line break at or after `j`, or `|data|`. */
  function BreakFrom(data: seq<Unit>, j: nat): (b: nat)
    requires j <= |data|
    ensures j <= b <= |data|
    ensures forall k :: j <= k < b ==> !IsLineBreak(data[k])
    ensures b < |data| ==> IsLineBreak(data[b])
    decreases |data| - j
  {
    if j == |data| || IsLineBreak(data[j]) then j else BreakFrom(data, j + 1)
  }

  /** Where a line whose break is at `b` ends: after `\r\n`, else after the
      one break unit. */
  function EndOfBreak(data: seq<Unit>, b: nat): nat
    requires b < |data|
  {
    if data[b] == CR && b + 1 < |data| && data[b + 1] == LF then b + 2 else b + 1
  }

  /** One line: its units, terminator included, and whether it has one. */
  datatype Line = Line(text: seq<Unit>, terminated: bool)

  /** The lines of `data` from offset `sol`. */
  function LinesFrom(data: seq<Unit>, sol: nat): seq<Line>
    requires sol <= |data|
    decreases |data| - sol
  {
    if sol == |data| then []
    else
      var b := BreakFrom(data, sol);
      if b == |data| then [Line(data[sol..], false)]
      else [Line(data[sol..EndOfBreak(data, b)], true)] + LinesFrom(data, EndOfBreak(data, b))
  }

  /** `s` without its `\r` and `\n` units (the regex replace of lines 1013,
      1021 and 1031). */
  function RemoveBreaks(s: seq<Unit>): (r: seq<Unit>)
    ensures forall k :: 0 <= k < |r| ==> !IsLineBreak(r[k])
    decreases |s|
  {
    if s == [] then []
    else RemoveBreaks(s[..|s| - 1]) + (if IsLineBreak(s[|s| - 1]) then [] else [s[|s| - 1]])
  }

  lemma {:induction false} RemoveBreaksAppend(a: seq<Unit>, b: seq<Unit>)
    ensures RemoveBreaks(a + b) == RemoveBreaks(a) + RemoveBreaks(b)
    decreases |b|
  {
    if b == [] {
      assert a + b == a;
    } else {
      var b' := b[..|b| - 1];
      assert (a + b)[..|a + b| - 1] == a + b';
      RemoveBreaksAppend(a, b');
    }
  }

  lemma {:induction false} RemoveBreaksNone(s: seq<Unit>)
    requires forall k :: 0 <= k < |s| ==> !IsLineBreak(s[k])
    ensures RemoveBreaks(s) == s
    decreases |s|
  {
    if s != [] {
      RemoveBreaksNone(s[..|s| - 1]);
    }
  }

  /** A value per line: of the receiver's kind, or, as written, a str for
      every terminated line (lines 1014 and 1022 build `Sk.builtin.str`
      whatever the receiver). */
  function RenderLine(l: Line, kind: Kind, keepends: bool, asWritten: bool): Value {
    Value(if asWritten && l.terminated then Str else kind,
          if keepends then l.text else RemoveBreaks(l.text))
  }

  function Render(lines: seq<Line>, kind: Kind, keepends: bool, asWritten: bool): (r: seq<Value>)
    ensures |r| == |lines|
    ensures forall j :: 0 <= j < |lines| ==> r[j] == RenderLine(lines[j], kind, keepends, asWritten)
  {
    seq(|lines|, j requires 0 <= j < |lines| => RenderLine(lines[j], kind, keepends, asWritten))
  }

  /** `keepends` must be a bool when given. */
  function KeepEnds(keepends: Option<Obj>): Result<bool> {
    if keepends.None? then Ok(false)
    else if keepends.value.Bool? then Ok(keepends.value.b)
    else Err(TypeError)
  }

  /** `splitlines` as written. */
  function SplitLinesAsWritten(val: Value, keepends: Option<Obj>): (r: Result<seq<Value>>)
    ensures r.Err? <==> keepends.Some? && !keepends.value.Bool?
  {
    var keep :- KeepEnds(keepends);
    Ok(Render(LinesFrom(val.v, 0), val.kind, keep, true))
  }

  /** `splitlines` with every line of the receiver's kind. */
  function SplitLinesOf(val: Value, keepends: Option<Obj>): (r: Result<seq<Value>>)
    ensures r.Err? <==> keepends.Some? && !keepends.value.Bool?
    ensures r.Err? ==> r.error == TypeError
    ensures r.Ok? ==> forall j :: 0 <= j < |r.value| ==> r.value[j].kind == val.kind
  {
    var keep :- KeepEnds(keepends);
    Ok(Render(LinesFrom(val.v, 0), val.kind, keep, false))
  }

  /** The loop of lines 1008-1028 over the units, `sol` marking the start of
      the current line, then the unterminated rest. */
  method SplitLines(val: Value, keepends: Option<Obj>) returns (r: Result<seq<Value>>)
    ensures r == SplitLinesOf(val, keepends)
  {
    var k := KeepEnds(keepends);
    if k.Err? {
      return Err(k.error);
    }
    var keep := k.value;
    var data := val.v;
    ghost var whole := Render(LinesFrom(data, 0), val.kind, keep, false);
    assert SplitLinesOf(val, keepends) == Ok(whole);
    var result: seq<Value> := [];
    var sol: nat := 0;
    var i := 0;
    while i < |data|
      invariant 0 <= i <= |data| && sol <= |data|
      invariant Scanning(data, sol, i)
      invariant result + Render(LinesFrom(data, sol), val.kind, keep, false) == whole
    {
      sol, result := Step(data, sol, i, val.kind, keep, result, whole);
      i := i + 1;
    }
    result := Finish(data, sol, val.kind, keep, result, whole);
    r := Ok(result);
  }

  /** One turn of the loop: the unit at `i` either ends the line begun at
      `sol` or is passed over. */
  method Step(data: seq<Unit>, sol: nat, i: nat, kind: Kind, keep: bool,
              result: seq<Value>, ghost whole: seq<Value>) returns (next: nat, r: seq<Value>)
    requires i < |data| && sol <= |data| && Scanning(data, sol, i)
    requires result + Render(LinesFrom(data, sol), kind, keep, false) == whole
    ensures next <= |data| && Scanning(data, next, i + 1)
    ensures r + Render(LinesFrom(data, next), kind, keep, false) == whole
  {
    var ch := data[i];
    if i + 1 < |data| && data[i + 1] == LF && ch == CR {
      next := i + 2;
      r := Close(data, sol, i, next, kind, keep, result, whole);
    } else if (ch == LF && (i == 0 || data[i - 1] != CR)) || ch == CR {
      next := i + 1;
      r := Close(data, sol, i, next, kind, keep, result, whole);
    } else {
      ScanOn(data, sol, i);
      next, r := sol, result;
    }
  }

  /** After the loop: the text after the last break, if any, is the last
      line. */
  method Finish(data: seq<Unit>, sol: nat, kind: Kind, keep: bool,
                result: seq<Value>, ghost whole: seq<Value>) returns (r: seq<Value>)
    requires sol <= |data| && Scanning(data, sol, |data|)
    requires result + Render(LinesFrom(data, sol), kind, keep, false) == whole
    ensures r == whole
  {
    r := result;
    if sol < |data| {
      LastLine(data, sol, kind, keep);
      assert data[sol..|data|] == data[sol..];
      var line := Cut(data, sol, |data|, kind, keep);
      r := r + [line];
    } else {
      assert r == whole;
    }
  }

  /** The line `data[sol..eol]` as a value, its breaks removed unless
      `keepends`. */
  method Cut(data: seq<Unit>, sol: nat, eol: nat, kind: Kind, keep: bool) returns (v: Value)
    requires sol <= eol <= |data|
    ensures v == Value(kind, if keep then data[sol..eol] else RemoveBreaks(data[sol..eol]))
    ensures forall k :: 0 <= k < |v.v| ==> keep || !IsLineBreak(v.v[k])
  {
    var slice := data[sol..eol];
    if !keep {
      slice := RemoveBreaks(slice);
    }
    v := Value(kind, slice);
  }

  /** A line ends at `i`: a `\r\n`, a `\n` not after `\r`, or a lone `\r`
      (the two tests of lines 1011 and 1019). */
  predicate EndsLine(data: seq<Unit>, i: nat)
    requires i < |data|
  {
    || (i + 1 < |data| && data[i + 1] == LF && data[i] == CR)
    || (data[i] == LF && (i == 0 || data[i - 1] != CR)) || data[i] == CR
  }

  /** Closing the line that ends at `i` keeps the loop's invariant. */
  method Close(data: seq<Unit>, sol: nat, i: nat, eol: nat, kind: Kind, keep: bool,
               result: seq<Value>, ghost whole: seq<Value>) returns (r: seq<Value>)
    requires i < |data| && sol <= |data| && Scanning(data, sol, i) && EndsLine(data, i)
    requires eol == EndOfBreak(data, i)
    requires result + Render(LinesFrom(data, sol), kind, keep, false) == whole
    ensures sol <= eol <= |data| && Scanning(data, eol, i + 1)
    ensures r + Render(LinesFrom(data, eol), kind, keep, false) == whole
  {
    CloseLine(data, sol, i, kind, keep, result, whole);
    var line := Cut(data, sol, eol, kind, keep);
    r := result + [line];
  }

  /** What the loop knows at `i`: either no break since `sol` and `sol` does
      not split a `\r\n`, or the `\n` of a `\r\n` just consumed. */
  predicate Scanning(data: seq<Unit>, sol: nat, i: nat)
    requires i <= |data| && sol <= |data|
  {
    || (&& sol <= i
        && (forall j :: sol <= j < i ==> !IsLineBreak(data[j]))
        && (1 <= sol < |data| ==> !(data[sol - 1] == CR && data[sol] == LF)))
    || (sol == i + 1 && 1 <= i < |data| && data[i - 1] == CR && data[i] == LF)
  }

  /** A break at `i` closes the line from `sol`, and scanning goes on from
      the end of the break. */
  lemma LinesStep(data: seq<Unit>, sol: nat, i: nat, kind: Kind, keep: bool)
    requires i < |data| && sol <= |data| && Scanning(data, sol, i)
    requires EndsLine(data, i)
    ensures sol <= i && EndOfBreak(data, i) <= |data|
    ensures EndOfBreak(data, i) == if i + 1 < |data| && data[i + 1] == LF && data[i] == CR then i + 2 else i + 1
    ensures Scanning(data, EndOfBreak(data, i), i + 1)
    ensures Render(LinesFrom(data, sol), kind, keep, false)
         == [Value(kind, if keep then data[sol..EndOfBreak(data, i)] else RemoveBreaks(data[sol..EndOfBreak(data, i)]))]
          + Render(LinesFrom(data, EndOfBreak(data, i)), kind, keep, false)
  {
    BreakAt(data, sol, i);
    var eol := EndOfBreak(data, i);
    LinesFromStep(data, sol);
    RenderCons(Line(data[sol..eol], true), LinesFrom(data, eol), kind, keep, false);
  }

  /** The loop's invariant survives closing the line that ends at `i`. */
  lemma CloseLine(data: seq<Unit>, sol: nat, i: nat, kind: Kind, keep: bool, result: seq<Value>, whole: seq<Value>)
    requires i < |data| && sol <= |data| && Scanning(data, sol, i)
    requires EndsLine(data, i)
    requires result + Render(LinesFrom(data, sol), kind, keep, false) == whole
    ensures sol <= i && EndOfBreak(data, i) <= |data|
    ensures EndOfBreak(data, i) == if i + 1 < |data| && data[i + 1] == LF && data[i] == CR then i + 2 else i + 1
    ensures Scanning(data, EndOfBreak(data, i), i + 1)
    ensures var eol := EndOfBreak(data, i);
      (result + [Value(kind, if keep then data[sol..eol] else RemoveBreaks(data[sol..eol]))])
        + Render(LinesFrom(data, eol), kind, keep, false) == whole
  {
    var eol := EndOfBreak(data, i);
    LinesStep(data, sol, i, kind, keep);
    AppendAssoc(result, [Value(kind, if keep then data[sol..eol] else RemoveBreaks(data[sol..eol]))],
                Render(LinesFrom(data, eol), kind, keep, false));
  }

  /** Under `Scanning`, a break at `i` is the first break from `sol`. */
  lemma BreakAt(data: seq<Unit>, sol: nat, i: nat)
    requires i < |data| && sol <= |data| && Scanning(data, sol, i)
    requires EndsLine(data, i)
    ensures sol <= i && BreakFrom(data, sol) == i
  {
    assert IsLineBreak(data[i]);
  }

  lemma RenderCons(l: Line, rest: seq<Line>, kind: Kind, keep: bool, asWritten: bool)
    ensures Render([l] + rest, kind, keep, asWritten) == [RenderLine(l, kind, keep, asWritten)] + Render(rest, kind, keep, asWritten)
  {
  }

  /** No line ends at `i`. */
  lemma ScanOn(data: seq<Unit>, sol: nat, i: nat)
    requires i < |data| && sol <= |data| && Scanning(data, sol, i)
    requires !EndsLine(data, i)
    ensures Scanning(data, sol, i + 1)
  {
  }

  /** After the loop, what is left from `sol` is one unterminated line. */
  lemma LastLine(data: seq<Unit>, sol: nat, kind: Kind, keep: bool)
    requires sol < |data| && Scanning(data, sol, |data|)
    ensures Render(LinesFrom(data, sol), kind, keep, false)
         == [Value(kind, if keep then data[sol..] else RemoveBreaks(data[sol..]))]
  {
    assert BreakFrom(data, sol) == |data|;
    LinesFromStep(data, sol);
  }

  // ---------------------------------------------------------------------
  // properties

  function Texts(lines: seq<Line>): (r: seq<seq<Unit>>)
    ensures |r| == |lines|
    ensures forall j :: 0 <= j < |lines| ==> r[j] == lines[j].text
  {
    seq(|lines|, j requires 0 <= j < |lines| => lines[j].text)
  }

  /** One unfolding of `LinesFrom`. */
  lemma LinesFromStep(data: seq<Unit>, sol: nat)
    requires sol < |data|
    ensures var b := BreakFrom(data, sol);
      && (b == |data| ==> LinesFrom(data, sol) == [Line(data[sol..], false)])
      && (b < |data| ==>
            (&& EndOfBreak(data, b) <= |data|
             && LinesFrom(data, sol)
                == [Line(data[sol..EndOfBreak(data, b)], true)] + LinesFrom(data, EndOfBreak(data, b))))
  {
  }

  lemma FlattenCons(x: seq<Unit>, rest: seq<seq<Unit>>)
    ensures Flatten([x] + rest) == x + Flatten(rest)
  {
    FlattenAppend([x], rest);
    assert [x][..0] == [];
  }

  lemma TextsCons(l: Line, rest: seq<Line>)
    ensures Texts([l] + rest) == [l.text] + Texts(rest)
  {
  }

  /** Putting one more line in front adds its text in front. */
  lemma CoverCons(l: Line, rest: seq<Line>, tail: seq<Unit>)
    requires Flatten(Texts(rest)) == tail
    ensures Flatten(Texts([l] + rest)) == l.text + tail
  {
    TextsCons(l, rest);
    FlattenCons(l.text, Texts(rest));
  }

  /** With their ends kept, the lines put back together give the text. */
  lemma {:induction false} LinesCover(data: seq<Unit>, sol: nat)
    requires sol <= |data|
    ensures Flatten(Texts(LinesFrom(data, sol))) == data[sol..]
    decreases |data| - sol
  {
    if sol < |data| {
      var b := BreakFrom(data, sol);
      if b < |data| {
        LinesCover(data, EndOfBreak(data, b));
        CoverTerminated(data, sol);
      } else {
        CoverLast(data, sol);
      }
    }
  }

  /** A terminated first line followed by the rest, covered already. */
  lemma CoverTerminated(data: seq<Unit>, sol: nat)
    requires sol < |data| && BreakFrom(data, sol) < |data|
    requires var eol := EndOfBreak(data, BreakFrom(data, sol));
      eol <= |data| && Flatten(Texts(LinesFrom(data, eol))) == data[eol..]
    ensures Flatten(Texts(LinesFrom(data, sol))) == data[sol..]
  {
    var eol := EndOfBreak(data, BreakFrom(data, sol));
    var l, rest := Line(data[sol..eol], true), LinesFrom(data, eol);
    LinesFromStep(data, sol);
    assert LinesFrom(data, sol) == [l] + rest;
    CoverCons(l, rest, data[eol..]);
    SuffixAt(data, sol, eol);
  }

  /** The unterminated last line. */
  lemma CoverLast(data: seq<Unit>, sol: nat)
    requires sol < |data| && BreakFrom(data, sol) == |data|
    ensures Flatten(Texts(LinesFrom(data, sol))) == data[sol..]
  {
    LinesFromStep(data, sol);
    assert Texts([]) == [];
    CoverCons(Line(data[sol..], false), [], []);
    assert data[sol..] + [] == data[sol..];
  }

  /** The terminators a line can end with. */
  predicate IsTerminator(t: seq<Unit>) {
    t == [CR, LF] || t == [CR] || t == [LF]
  }

  /** A line is non-empty, and is its text without breaks followed by its
      terminator, if it has one. */
  ghost predicate LineOk(l: Line) {
    && l.text != []
    && exists t :: l.text == RemoveBreaks(l.text) + t && (if l.terminated then IsTerminator(t) else t == [])
  }

  /** Every line is well formed, and all but the last are terminated. */
  ghost predicate WellFormed(lines: seq<Line>) {
    && (forall j :: 0 <= j < |lines| ==> LineOk(lines[j]))
    && (forall j :: 0 <= j < |lines| - 1 ==> lines[j].terminated)
  }

  lemma WellFormedCons(l: Line, rest: seq<Line>)
    requires LineOk(l) && WellFormed(rest) && (rest != [] ==> l.terminated)
    ensures WellFormed([l] + rest)
  {
    var lines := [l] + rest;
    assert forall j :: 1 <= j < |lines| ==> lines[j] == rest[j - 1];
  }

  lemma RemoveBreaksTerminator(t: seq<Unit>)
    requires IsTerminator(t)
    ensures RemoveBreaks(t) == []
  {
    if |t| == 2 {
      assert t[..1] == [CR];
      assert RemoveBreaks([CR]) == RemoveBreaks([]) + [];
    } else {
      assert t[..0] == [];
    }
  }

  /** Break-free units followed by a terminator (or, unterminated, by
      nothing) make a well-formed line. */
  lemma LineOkOf(p: seq<Unit>, t: seq<Unit>, terminated: bool)
    requires forall k :: 0 <= k < |p| ==> !IsLineBreak(p[k])
    requires if terminated then IsTerminator(t) else t == []
    requires p + t != []
    ensures LineOk(Line(p + t, terminated))
  {
    RemoveBreaksNone(p);
    RemoveBreaksAppend(p, t);
    if terminated {
      RemoveBreaksTerminator(t);
    } else {
      assert RemoveBreaks(t) == [];
    }
    assert p + t == RemoveBreaks(p + t) + t;
  }

  /** The first line from `sol` is well formed. */
  lemma FirstLineOk(data: seq<Unit>, sol: nat)
    requires sol < |data|
    ensures LineOk(LinesFrom(data, sol)[0])
  {
    LinesFromStep(data, sol);
    if BreakFrom(data, sol) < |data| {
      FirstLineTerminated(data, sol);
    } else {
      FirstLineLast(data, sol);
    }
  }

  lemma FirstLineTerminated(data: seq<Unit>, sol: nat)
    requires sol < |data| && BreakFrom(data, sol) < |data|
    ensures EndOfBreak(data, BreakFrom(data, sol)) <= |data|
    ensures LineOk(Line(data[sol..EndOfBreak(data, BreakFrom(data, sol))], true))
  {
    var b := BreakFrom(data, sol);
    var eol := EndOfBreak(data, b);
    SliceSplit(data, sol, b, eol);
    LineOkOf(data[sol..b], data[b..eol], true);
  }

  lemma FirstLineLast(data: seq<Unit>, sol: nat)
    requires sol < |data| && BreakFrom(data, sol) == |data|
    ensures LineOk(Line(data[sol..], false))
  {
    assert data[sol..] == data[sol..|data|] + [];
    LineOkOf(data[sol..|data|], [], false);
  }


  lemma {:induction false} LinesWellFormed(data: seq<Unit>, sol: nat)
    requires sol <= |data|
    ensures WellFormed(LinesFrom(data, sol))
    decreases |data| - sol
  {
    if sol < |data| {
      var b := BreakFrom(data, sol);
      LinesFromStep(data, sol);
      FirstLineOk(data, sol);
      if b < |data| {
        var eol := EndOfBreak(data, b);
        LinesWellFormed(data, eol);
        WellFormedCons(LinesFrom(data, sol)[0], LinesFrom(data, eol));
      }
    }
  }

  /** A `\r` ending one line is not followed by a `\n` opening the next. */
  predicate Joins(a: seq<Unit>, b: seq<Unit>) {
    a != [] && b != [] && !(a[|a| - 1] == CR && b[0] == LF)
  }

  /** No two neighbouring lines cut a `\r\n` in two: it is one
      terminator. */
  lemma {:induction false} CrLfWhole(data: seq<Unit>, sol: nat)
    requires sol <= |data|
    ensures forall j {:trigger LinesFrom(data, sol)[j]} :: 0 <= j < |LinesFrom(data, sol)| - 1 ==>
      Joins(LinesFrom(data, sol)[j].text, LinesFrom(data, sol)[j + 1].text)
    decreases |data| - sol
  {
    if sol < |data| {
      var b := BreakFrom(data, sol);
      LinesFromStep(data, sol);
      if b < |data| {
        var eol := EndOfBreak(data, b);
        var lines := LinesFrom(data, sol);
        var rest := LinesFrom(data, eol);
        CrLfWhole(data, eol);
        if rest != [] {
          FirstJoins(data, sol);
        }
        forall j | 0 <= j < |lines| - 1
          ensures Joins(lines[j].text, lines[j + 1].text)
        {
          if j > 0 {
            assert lines[j] == rest[j - 1] && lines[j + 1] == rest[j];
          }
        }
      }
    }
  }

  /** The first terminated line and the one after it join. */
  lemma FirstJoins(data: seq<Unit>, sol: nat)
    requires sol < |data| && BreakFrom(data, sol) < |data|
    requires EndOfBreak(data, BreakFrom(data, sol)) < |data|
    ensures var eol := EndOfBreak(data, BreakFrom(data, sol));
      Joins(data[sol..eol], LinesFrom(data, eol)[0].text)
  {
    var b := BreakFrom(data, sol);
    var eol := EndOfBreak(data, b);
    LinesFromStep(data, eol);
    var next := LinesFrom(data, eol)[0].text;
    assert next[0] == data[eol];
    assert data[sol..eol][eol - sol - 1] == data[eol - 1];
  }

  /** `splitlines(True)` puts back together to the text, and each line of
      `splitlines()` is the matching line of `splitlines(True)` without its
      terminator. */
  lemma SplitLinesProperties(val: Value)
    ensures var kept := SplitLinesOf(val, Some(Bool(true))).value;
      Flatten(seq(|kept|, j requires 0 <= j < |kept| => kept[j].v)) == val.v
    ensures var kept := SplitLinesOf(val, Some(Bool(true))).value;
      var bare := SplitLinesOf(val, None).value;
      && |bare| == |kept|
      && (forall j :: 0 <= j < |bare| ==> bare[j].v != [] || kept[j].v != [])
      && (forall j :: 0 <= j < |bare| ==>
            (forall k :: 0 <= k < |bare[j].v| ==> !IsLineBreak(bare[j].v[k]))
            && exists t :: kept[j].v == bare[j].v + t && (t == [] || IsTerminator(t)))
  {
    var lines := LinesFrom(val.v, 0);
    var kept := SplitLinesOf(val, Some(Bool(true))).value;
    LinesCover(val.v, 0);
    assert seq(|kept|, j requires 0 <= j < |kept| => kept[j].v) == Texts(lines);
    LinesWellFormed(val.v, 0);
  }

  /** `line` is `bare` followed by a terminator. */
  ghost predicate Terminates(line: seq<Unit>, bare: seq<Unit>) {
    exists t :: line == bare + t && IsTerminator(t)
  }

  /** Every line of `splitlines(True)` but the last ends in a terminator,
      and neighbouring lines never cut a `\r\n` in two. */
  lemma SplitLinesTerminated(val: Value)
    ensures var kept := SplitLinesOf(val, Some(Bool(true))).value;
      var bare := SplitLinesOf(val, None).value;
      forall j :: 0 <= j < |kept| - 1 ==> Terminates(kept[j].v, bare[j].v)
    ensures var kept := SplitLinesOf(val, Some(Bool(true))).value;
      forall j :: 0 <= j < |kept| - 1 ==> Joins(kept[j].v, kept[j + 1].v)
  {
    var lines := LinesFrom(val.v, 0);
    var kept := SplitLinesOf(val, Some(Bool(true))).value;
    var bare := SplitLinesOf(val, None).value;
    LinesWellFormed(val.v, 0);
    CrLfWhole(val.v, 0);
    forall j | 0 <= j < |kept| - 1
      ensures Terminates(kept[j].v, bare[j].v)
    {
      assert kept[j].v == lines[j].text;
      assert bare[j].v == RemoveBreaks(lines[j].text);
      assert LineOk(lines[j]) && lines[j].terminated;
    }
    forall j | 0 <= j < |kept| - 1
      ensures Joins(kept[j].v, kept[j + 1].v)
    {
      assert kept[j].v == lines[j].text && kept[j + 1].v == lines[j + 1].text;
      assert Joins(lines[j].text, lines[j + 1].text);
    }
  }

  /** `b"a\n".splitlines()`: as written the line is a str; it is meant to be
      bytes like the receiver. */
  lemma BytesLinesBecomeStr()
    ensures SplitLinesAsWritten(Value(Bytes, [97, LF]), None) == Ok([Value(Str, [97])])
    ensures SplitLinesOf(Value(Bytes, [97, LF]), None) == Ok([Value(Bytes, [97])])
  {
    var data: seq<Unit> := [97, LF];
    assert BreakFrom(data, 0) == 1;
    assert EndOfBreak(data, 1) == 2;
    LinesFromStep(data, 0);
    assert data[0..2] == data;
    assert LinesFrom(data, 2) == [];
    var lines := [Line(data, true)];
    assert LinesFrom(data, 0) == lines;
    assert RemoveBreaks(data) == [97] by {
      assert data[..1] == [97];
      assert RemoveBreaks([97]) == RemoveBreaks([]) + [97];
    }
    assert Render(lines, Bytes, false, true) == [Value(Str, [97])];
    assert Render(lines, Bytes, false, false) == [Value(Bytes, [97])];
  }
}
