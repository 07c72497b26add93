/** `expandtabs` (str.js lines 944-972). The global replace of
    `([^\r\n\t]*)\t` visits the tabs in order; each match captures the text
    since the last tab or line break, and the tab becomes the spaces that
    bring that text to a multiple of the tab size. */
module Tabs {
  import opened Base
  import opened Chars

  /** The first tab at or after `i`, or `|s|`. */
  function NextTab(s: seq<Unit>, i: nat): (k: nat)
    requires i <= |s|
    ensures i <= k <= |s|
    ensures forall j :: i <= j < k ==> s[j] != TAB
    ensures k < |s| ==> s[k] == TAB
    decreases |s| - i
  {
    if i == |s| || s[i] == TAB then i else NextTab(s, i + 1)
  }

  /** Where the text captured before offset `k` begins: just after the last
      line break in `[i, k)`, else `i`. */
  function SegmentStart(s: seq<Unit>, i: nat, k: nat): (p: nat)
    requires i <= k <= |s|
    ensures i <= p <= k
    ensures forall j :: p <= j < k ==> !IsLineBreak(s[j])
    ensures p > i ==> IsLineBreak(s[p - 1])
    decreases k
  {
    if k == i || IsLineBreak(s[k - 1]) then k else SegmentStart(s, i, k - 1)
  }

  /** What replaces a tab after `width` units of captured text:
      `spaces.slice(width % tabsize)`, which is empty for a tab size of 0. */
  function TabFill(width: nat, ts: nat): (r: seq<Unit>)
    ensures ts > 0 ==> |r| == ts - width % ts && 0 < |r| <= ts
    ensures ts == 0 ==> r == []
    ensures forall k :: 0 <= k < |r| ==> r[k] == SPACE
  {
    if ts == 0 then [] else Fill(SPACE, ts - width % ts)
  }

  /** The replace from offset `i` on. */
  function ExpandFrom(s: seq<Unit>, ts: nat, i: nat): seq<Unit>
    requires i <= |s|
    decreases |s| - i, 1
  {
    var k := NextTab(s, i);
    if k == |s| then s[i..]
    else s[i..k] + TabFill(k - SegmentStart(s, i, k), ts) + ExpandFrom(s, ts, k + 1)
  }

  /** The tab size as written: absent means 8; below -1 the host's
      `new Array(tabsize + 1)` throws its RangeError, and -1 and 0 make an
      empty run of spaces, so tabs disappear. */
  function ExpandTabsAsWritten(val: Value, tabsize: Option<Obj>): (r: Result<Value>)
    ensures r.Err? <==> tabsize.Some? && (!tabsize.value.Int? || tabsize.value.n < -1)
  {
    if tabsize.Some? && !tabsize.value.Int? then Err(TypeError)
    else
      var ts := if tabsize.None? then 8 else tabsize.value.n;
      if ts < -1 then Err(RangeError)
      else Ok(Value(val.kind, ExpandFrom(val.v, Max(ts, 0), 0)))
  }

  /** `expandtabs`: a tab size of 0 or below removes the tabs, as CPython
      does. */
  function ExpandTabsOf(val: Value, tabsize: Option<Obj>): (r: Result<Value>)
    ensures r.Err? <==> tabsize.Some? && !tabsize.value.Int?
    ensures r.Err? ==> r.error == TypeError
    ensures r.Ok? ==> r.value.kind == val.kind
  {
    if tabsize.Some? && !tabsize.value.Int? then Err(TypeError)
    else
      var ts := if tabsize.None? then 8 else tabsize.value.n;
      Ok(Value(val.kind, ExpandFrom(val.v, Max(ts, 0), 0)))
  }

  // ---------------------------------------------------------------------
  // the column-tracking definition

  /** Column tracking in units: a tab moves to the next multiple of the tab
      size, a line break back to column 0. Columns count UTF-16 units, so on
      text outside the BMP they differ from CPython's, which counts code
      points. */
  function ExpandCol(s: seq<Unit>, ts: nat, col: nat): seq<Unit>
    decreases |s|
  {
    if s == [] then []
    else if s[0] == TAB then TabFill(col, ts) + ExpandCol(s[1..], ts, col + |TabFill(col, ts)|)
    else if IsLineBreak(s[0]) then [s[0]] + ExpandCol(s[1..], ts, 0)
    else [s[0]] + ExpandCol(s[1..], ts, col + 1)
  }

  /** The column agrees, modulo the tab size, with the captured text. */
  predicate ColumnAgrees(s: seq<Unit>, ts: nat, i: nat, j: nat, col: nat)
    requires i <= j <= |s|
  {
    ts == 0 || col % ts == (j - SegmentStart(s, i, j)) % ts
  }

  lemma MulAtLeast(d: int, m: int)
    requires d >= 1 && m > 0
    ensures d * m >= m
  {
    var e := d - 1;
    assert d * m == e * m + m;
    assert e * m >= 0;
  }

  /** The remainder is the one `r` with `x == q * m + r` and `0 <= r < m`. */
  lemma ModUnique(x: int, q: int, r: int, m: int)
    requires m > 0 && 0 <= r < m && x == q * m + r
    ensures x % m == r
  {
    var p := x / m;
    assert x == p * m + x % m;
    var d := p - q;
    assert d * m == p * m - q * m;
    assert d * m == r - x % m;
    if d >= 1 {
      MulAtLeast(d, m);
    } else if d <= -1 {
      MulAtLeast(-d, m);
    }
    assert d == 0;
  }

  lemma ModSucc(x: nat, m: nat)
    requires m > 0
    ensures (x + 1) % m == if x % m + 1 == m then 0 else x % m + 1
  {
    var q, r := x / m, x % m;
    assert x == q * m + r;
    if r + 1 < m {
      ModUnique(x + 1, q, r + 1, m);
    } else {
      assert x + 1 == (q + 1) * m + 0;
      ModUnique(x + 1, q + 1, 0, m);
    }
  }

  lemma ModFill(col: nat, m: nat)
    requires m > 0
    ensures (col + (m - col % m)) % m == 0
  {
    var q, r := col / m, col % m;
    assert col == q * m + r;
    assert col + (m - r) == (q + 1) * m + 0;
    ModUnique(col + (m - r), q + 1, 0, m);
  }

  /** The column after unit `j`. */
  function NextCol(u: Unit, ts: nat, col: nat): nat {
    if u == TAB then col + |TabFill(col, ts)| else if IsLineBreak(u) then 0 else col + 1
  }

  /** One unfolding of `ExpandCol` at offset `j`. */
  lemma ExpandColStep(s: seq<Unit>, ts: nat, j: nat, col: nat)
    requires j < |s|
    ensures ExpandCol(s[j..], ts, col)
         == (if s[j] == TAB then TabFill(col, ts) else [s[j]]) + ExpandCol(s[j + 1..], ts, NextCol(s[j], ts, col))
  {
    assert s[j..][1..] == s[j + 1..];
  }

  /** What follows the segment begun at `i`: nothing at the end, else the
      fill of its tab and the replace after it. */
  function AfterSegment(s: seq<Unit>, ts: nat, i: nat): seq<Unit>
    requires i <= |s|
    decreases |s| - i, 0
  {
    var k := NextTab(s, i);
    if k == |s| then [] else TabFill(k - SegmentStart(s, i, k), ts) + ExpandFrom(s, ts, k + 1)
  }

  /** One unfolding of `ExpandFrom`. */
  lemma ExpandFromStep(s: seq<Unit>, ts: nat, i: nat)
    requires i <= |s|
    ensures ExpandFrom(s, ts, i) == s[i..NextTab(s, i)] + AfterSegment(s, ts, i)
  {
    var k := NextTab(s, i);
    if k < |s| {
      var f := TabFill(k - SegmentStart(s, i, k), ts);
      assert ExpandFrom(s, ts, i) == s[i..k] + f + ExpandFrom(s, ts, k + 1);
      assert AfterSegment(s, ts, i) == f + ExpandFrom(s, ts, k + 1);
      AppendAssoc(s[i..k], f, ExpandFrom(s, ts, k + 1));
    } else {
      assert ExpandFrom(s, ts, i) == s[i..];
      assert AfterSegment(s, ts, i) == [];
      assert s[i..k] == s[i..];
      assert s[i..k] + [] == s[i..k];
    }
  }

  /** From any offset `j` of the segment begun at `i`, the column-tracking
      expansion yields the rest of that segment, the fill of its tab and the
      replace from after the tab. */
  lemma {:induction false} ExpandAgreesFrom(s: seq<Unit>, ts: nat, i: nat, j: nat, col: nat)
    requires i <= |s| && i <= j <= NextTab(s, i)
    requires ColumnAgrees(s, ts, i, j, col)
    ensures ExpandCol(s[j..], ts, col) == s[j..NextTab(s, i)] + AfterSegment(s, ts, i)
    decreases |s| - j, 1
  {
    var k := NextTab(s, i);
    if j == |s| {
      assert s[j..] == [];
    } else if j == k {
      AtTab(s, ts, i, col);
    } else {
      ExpandColStep(s, ts, j, col);
      var col' := NextCol(s[j], ts, col);
      ColumnStep(s, ts, i, j, col);
      ExpandAgreesFrom(s, ts, i, j + 1, col');
      assert s[j..k] == [s[j]] + s[j + 1..k];
      AppendAssoc([s[j]], s[j + 1..k], AfterSegment(s, ts, i));
    }
  }

  /** Within a segment the column keeps agreeing. */
  lemma ColumnStep(s: seq<Unit>, ts: nat, i: nat, j: nat, col: nat)
    requires i <= |s| && i <= j < NextTab(s, i)
    requires ColumnAgrees(s, ts, i, j, col)
    ensures ColumnAgrees(s, ts, i, j + 1, NextCol(s[j], ts, col))
  {
    if ts > 0 && !IsLineBreak(s[j]) {
      assert SegmentStart(s, i, j + 1) == SegmentStart(s, i, j);
      ModSucc(col, ts);
      ModSucc(j - SegmentStart(s, i, j), ts);
    }
  }

  /** At the tab itself: both emit the same fill, and the column after it is
      a multiple of the tab size, where the next segment begins. */
  lemma {:induction false} AtTab(s: seq<Unit>, ts: nat, i: nat, col: nat)
    requires i <= |s| && NextTab(s, i) < |s|
    requires ColumnAgrees(s, ts, i, NextTab(s, i), col)
    ensures ExpandCol(s[NextTab(s, i)..], ts, col) == AfterSegment(s, ts, i)
    decreases |s| - NextTab(s, i), 0
  {
    var k := NextTab(s, i);
    var f := TabFill(col, ts);
    var col' := NextCol(s[k], ts, col);
    TabColumn(s, ts, i, col);
    ExpandColStep(s, ts, k, col);
    assert ExpandCol(s[k..], ts, col) == f + ExpandCol(s[k + 1..], ts, col');
    ExpandAgreesFrom(s, ts, k + 1, k + 1, col');
    ExpandFromStep(s, ts, k + 1);
    assert ExpandCol(s[k + 1..], ts, col') == ExpandFrom(s, ts, k + 1);
    assert AfterSegment(s, ts, i) == f + ExpandFrom(s, ts, k + 1);
  }

  /** The tab's fill is the same by column and by captured text, and the
      column after it agrees with the empty text captured so far. */
  lemma TabColumn(s: seq<Unit>, ts: nat, i: nat, col: nat)
    requires i <= |s| && NextTab(s, i) < |s|
    requires ColumnAgrees(s, ts, i, NextTab(s, i), col)
    ensures var k := NextTab(s, i);
      && TabFill(col, ts) == TabFill(k - SegmentStart(s, i, k), ts)
      && NextCol(s[k], ts, col) == col + |TabFill(col, ts)|
      && ColumnAgrees(s, ts, k + 1, k + 1, NextCol(s[k], ts, col))
  {
    var k := NextTab(s, i);
    var w := k - SegmentStart(s, i, k);
    var f := TabFill(col, ts);
    assert SegmentStart(s, k + 1, k + 1) == k + 1;
    if ts > 0 {
      assert col % ts == w % ts;
      assert f == Fill(SPACE, ts - col % ts);
      ModFill(col, ts);
      assert (col + |f|) % ts == 0;
      ZeroMod(ts);
    }
  }

  lemma ZeroMod(m: nat)
    requires m > 0
    ensures 0 % m == 0
  {
  }

  /** The replace and the column-tracking definition agree. */
  lemma ExpandAgrees(s: seq<Unit>, ts: nat)
    ensures ExpandFrom(s, ts, 0) == ExpandCol(s, ts, 0)
  {
    ExpandAgreesFrom(s, ts, 0, 0, 0);
    ExpandFromStep(s, ts, 0);
    assert s[0..] == s;
  }

  /** No tab survives, and every other unit is kept in order: dropping the
      inserted spaces' places, the output is the input without its tabs. */
  lemma {:induction false} ExpandColShape(s: seq<Unit>, ts: nat, col: nat)
    ensures forall k :: 0 <= k < |ExpandCol(s, ts, col)| ==> ExpandCol(s, ts, col)[k] != TAB
    ensures (forall k :: 0 <= k < |s| ==> s[k] != TAB) ==> ExpandCol(s, ts, col) == s
    decreases |s|
  {
    if s != [] {
      var col' := if s[0] == TAB then col + |TabFill(col, ts)| else if IsLineBreak(s[0]) then 0 else col + 1;
      ExpandColShape(s[1..], ts, col');
      var r := ExpandCol(s, ts, col);
      var head := if s[0] == TAB then TabFill(col, ts) else [s[0]];
      assert r == head + ExpandCol(s[1..], ts, col');
      if forall k :: 0 <= k < |s| ==> s[k] != TAB {
        assert s == [s[0]] + s[1..];
      }
    }
  }

  /** `"a\tb".expandtabs(-2)`: as written the host's RangeError; CPython
      drops the tab. */
  lemma NegativeTabSize()
    ensures ExpandTabsAsWritten(Value(Str, [97, TAB, 98]), Some(Int(-2))) == Err(RangeError)
    ensures ExpandTabsOf(Value(Str, [97, TAB, 98]), Some(Int(-2))) == Ok(Value(Str, [97, 98]))
  {
    var s: seq<Unit> := [97, TAB, 98];
    assert NextTab(s, 0) == 1;
    assert NextTab(s, 2) == 3;
    assert ExpandFrom(s, 0, 2) == [98];
    assert s[0..1] == [97];
    assert ExpandFrom(s, 0, 0) == [97] + [] + [98] == [97, 98];
    assert Max(-2, 0) == 0;
  }
}
