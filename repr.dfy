/** `repr` of str and bytes (`$r`, str.js lines 388-445): quote choice,
    escapes, and, in the legacy (non-`python3`) mode, `\x`, `\u` and `\U`
    escapes for everything outside printable ASCII. */
module Repr {
  import opened Base
  import opened Chars

  const LETTER_B: Unit := 98
  const LETTER_N: Unit := 110
  const LETTER_R: Unit := 114
  const LETTER_T: Unit := 116
  const LETTER_U: Unit := 117
  const LETTER_X: Unit := 120
  const CAPITAL_U: Unit := 85

  // ---------------------------------------------------------------------
  // hexadecimal digits

  /** The lower-case digit JS `toString(16)` writes for `d`. */
  function HexDigit(d: nat): (u: Unit)
    requires d < 16
  {
    if d < 10 then ZERO + d else 'a' as int + d - 10
  }

  predicate IsHexDigit(u: Unit) {
    IsDigit(u) || 'a' as int <= u <= 'f' as int || 'A' as int <= u <= 'F' as int
  }

  function HexValue(u: Unit): (d: nat)
    requires IsHexDigit(u)
    ensures d < 16
  {
    if IsDigit(u) then u - ZERO
    else if 'a' as int <= u <= 'f' as int then u - 'a' as int + 10
    else u - 'A' as int + 10
  }

  function Pow16(w: nat): (p: nat)
    ensures p >= 1
  {
    if w == 0 then 1 else 16 * Pow16(w - 1)
  }

  /** The bounds of two, four and eight hex digits. */
  lemma PowWidths()
    ensures Pow16(2) == 0x100 && Pow16(4) == 0x10000 && Pow16(8) == 0x1_0000_0000
  {
    assert Pow16(4) == 0x10000;
  }

  /** `n` in `w` hex digits, zero-padded on the left: what
      `("000" + n.toString(16)).slice(-w)` gives for `n < 16^w`. */
  function HexOf(n: nat, w: nat): (r: seq<Unit>)
    ensures |r| == w
    ensures forall k :: 0 <= k < w ==> IsHexDigit(r[k]) && r[k] < 0x80
  {
    if w == 0 then [] else HexOf(n / 16, w - 1) + [HexDigit(n % 16)]
  }

  /** The number a run of hex digits spells. */
  function ParseHex(d: seq<Unit>): nat
    requires forall k :: 0 <= k < |d| ==> IsHexDigit(d[k])
  {
    if d == [] then 0 else ParseHex(d[..|d| - 1]) * 16 + HexValue(d[|d| - 1])
  }

  /** Reading the digits back gives the number. */
  lemma {:induction false} ParseHexOf(n: nat, w: nat)
    requires n < Pow16(w)
    ensures ParseHex(HexOf(n, w)) == n
  {
    if w > 0 {
      var h := HexOf(n, w);
      assert h[..w - 1] == HexOf(n / 16, w - 1);
      ParseHexOf(n / 16, w - 1);
      assert HexValue(h[w - 1]) == n % 16;
      assert ParseHex(h) == ParseHex(h[..w - 1]) * 16 + HexValue(h[w - 1]);
      assert n == n / 16 * 16 + n % 16;
    }
  }

  // ---------------------------------------------------------------------
  // surrogates

  predicate IsHigh(u: Unit) { 0xD800 <= u < 0xDC00 }
  predicate IsLow(u: Unit) { 0xDC00 <= u < 0xE000 }

  /** `codePointAt` of a surrogate pair. */
  function Combine(hi: Unit, lo: Unit): (cp: nat)
    requires IsHigh(hi) && IsLow(lo)
    ensures 0x10000 <= cp <= 0x10FFFF
  {
    (hi - 0xD800) * 0x400 + (lo - 0xDC00) + 0x10000
  }

  /** The units of a code point (two for one outside the BMP). */
  function CodeUnits(cp: nat): Option<seq<Unit>> {
    if cp < 0x10000 then Some([cp])
    else if cp <= 0x10FFFF then Some([0xD800 + (cp - 0x10000) / 0x400, 0xDC00 + (cp - 0x10000) % 0x400])
    else None
  }

  lemma CombineSplits(hi: Unit, lo: Unit)
    requires IsHigh(hi) && IsLow(lo)
    ensures CodeUnits(Combine(hi, lo)) == Some([hi, lo])
  {
    var x := (hi - 0xD800) * 0x400 + (lo - 0xDC00);
    assert Combine(hi, lo) - 0x10000 == x;
    assert x / 0x400 == hi - 0xD800;
    assert x % 0x400 == lo - 0xDC00;
  }

  // ---------------------------------------------------------------------
  // escaping

  /** The quote: double when the text has a single quote and no double
      one, else single. */
  function QuoteFor(v: seq<Unit>): Unit {
    if SQUOTE in v && DQUOTE !in v then DQUOTE else SQUOTE
  }

  /** A backslash escape: the letter and its digits. */
  function Esc(letter: Unit, digits: seq<Unit>): seq<Unit> {
    [BACKSLASH, letter] + digits
  }

  /** What the loop emits for the unit at `i` and where it goes on. As
      written, the surrogate branch always steps over the next unit, even
      when the unit at `i` is not the first half of a pair. */
  function Escape(v: seq<Unit>, i: nat, q: Unit, py3: bool, asWritten: bool): (e: (seq<Unit>, nat))
    requires i < |v|
    ensures i < e.1 <= |v|
  {
    var c := v[i];
    if c == q || c == BACKSLASH then ([BACKSLASH, c], i + 1)
    else if c == TAB then (Esc(LETTER_T, []), i + 1)
    else if c == LF then (Esc(LETTER_N, []), i + 1)
    else if c == CR then (Esc(LETTER_R, []), i + 1)
    else if !py3 && (0xFF < c < 0xD800 || c >= 0xE000) then (Esc(LETTER_U, HexOf(c, 4)), i + 1)
    else if !py3 && c >= 0xD800 then
      var pair := IsHigh(c) && i + 1 < |v| && IsLow(v[i + 1]);
      var cp := if pair then Combine(c, v[i + 1]) else c;
      var esc := if cp > 0xFFFF then Esc(CAPITAL_U, HexOf(cp, 8)) else Esc(LETTER_U, HexOf(cp, 4));
      (esc, if pair || asWritten then Min(i + 2, |v|) else i + 1)
    else if c < SPACE || (!py3 && c >= 0x7F) then (Esc(LETTER_X, HexOf(c, 2)), i + 1)
    else ([c], i + 1)
  }

  /** The escaped text from offset `i`. */
  function Body(v: seq<Unit>, i: nat, q: Unit, py3: bool, asWritten: bool): seq<Unit>
    requires i <= |v|
    decreases |v| - i
  {
    if i == |v| then []
    else
      var e := Escape(v, i, q, py3, asWritten);
      e.0 + Body(v, e.1, q, py3, asWritten)
  }

  /** The literal: `b` for bytes, the quote, the body, the quote. */
  function Literal(val: Value, py3: bool, asWritten: bool): Value {
    var q := QuoteFor(val.v);
    Value(Str, (if val.kind == Bytes then [LETTER_B] else []) + [q] + Body(val.v, 0, q, py3, asWritten) + [q])
  }

  /** A str literal for `val`: `b` first for bytes, then the body between
      two copies of the chosen quote. */
  predicate Quoted(val: Value, r: Value) {
    var pre := if val.kind == Bytes then 1 else 0;
    && r.kind == Str && |r.v| >= pre + 2
    && (val.kind == Bytes ==> r.v[0] == LETTER_B)
    && r.v[pre] == QuoteFor(val.v) && r.v[|r.v| - 1] == QuoteFor(val.v)
  }

  /** `repr` as the loop is written. */
  function ReprAsWritten(val: Value, py3: bool): (r: Value)
    ensures Quoted(val, r)
  {
    Literal(val, py3, true)
  }

  /** `repr`, with a lone surrogate escaped on its own. */
  function ReprOf(val: Value, py3: bool): (r: Value)
    ensures Quoted(val, r)
  {
    Literal(val, py3, false)
  }

  /** The loop of lines 403-442, stepping over the second half only of a
      surrogate pair. */
  method Repr(val: Value, py3: bool) returns (r: Value)
    ensures r == ReprOf(val, py3)
  {
    var v := val.v;
    var quote := SQUOTE;
    if SQUOTE in v && DQUOTE !in v {
      quote := DQUOTE;
    }
    var ret: seq<Unit> := if val.kind == Bytes then [LETTER_B, quote] else [quote];
    ghost var prefix := ret;
    var i := 0;
    while i < |v|
      invariant 0 <= i <= |v|
      invariant ret + Body(v, i, quote, py3, false) == prefix + Body(v, 0, quote, py3, false)
    {
      var piece, next := EscapeAt(v, i, quote, py3);
      AppendAssoc(ret, piece, Body(v, next, quote, py3, false));
      ret := ret + piece;
      i := next;
    }
    assert quote == QuoteFor(v);
    assert Body(v, |v|, quote, py3, false) == [];
    assert ret + [] == ret;
    assert ret == prefix + Body(v, 0, quote, py3, false);
    assert prefix == (if val.kind == Bytes then [LETTER_B] else []) + [quote];
    r := Value(Str, ret + [quote]);
  }

  /** The body of the loop of lines 403-442 for the unit at `i`. */
  method EscapeAt(v: seq<Unit>, i: nat, quote: Unit, py3: bool) returns (piece: seq<Unit>, next: nat)
    requires i < |v|
    ensures (piece, next) == Escape(v, i, quote, py3, false)
  {
    var c := v[i];
    next := i + 1;
    if c == quote || c == BACKSLASH {
      piece := [BACKSLASH, c];
    } else if c == TAB {
      piece := Esc(LETTER_T, []);
    } else if c == LF {
      piece := Esc(LETTER_N, []);
    } else if c == CR {
      piece := Esc(LETTER_R, []);
    } else if (0xFF < c < 0xD800 || c >= 0xE000) && !py3 {
      piece := Esc(LETTER_U, HexOf(c, 4));
    } else if c >= 0xD800 && !py3 {
      var cp := c;
      if IsHigh(c) && i + 1 < |v| && IsLow(v[i + 1]) {
        cp := Combine(c, v[i + 1]);
        next := i + 2;
      }
      if cp > 0xFFFF {
        piece := Esc(CAPITAL_U, HexOf(cp, 8));
      } else {
        piece := Esc(LETTER_U, HexOf(cp, 4));
      }
    } else if c < SPACE || (c >= 0x7F && !py3) {
      piece := Esc(LETTER_X, HexOf(c, 2));
    } else {
      piece := [c];
    }
  }

  // ---------------------------------------------------------------------
  // reading a literal back

  function Prepend(x: seq<Unit>, rest: Option<seq<Unit>>): Option<seq<Unit>> {
    if rest.None? then None else Some(x + rest.value)
  }

  predicate AllHex(d: seq<Unit>) {
    forall k :: 0 <= k < |d| ==> IsHexDigit(d[k])
  }

  /** The digits after `\x`, `\u` and `\U`. */
  function DigitsFor(letter: Unit): nat {
    if letter == LETTER_X then 2 else if letter == LETTER_U then 4 else 8
  }

  /** Python's reading of the escapes the body may hold. */
  function Unescape(b: seq<Unit>): Option<seq<Unit>>
    decreases |b|
  {
    if b == [] then Some([])
    else if b[0] != BACKSLASH then Prepend([b[0]], Unescape(b[1..]))
    else if |b| < 2 then None
    else
      var c := b[1];
      if c == LETTER_T then Prepend([TAB], Unescape(b[2..]))
      else if c == LETTER_N then Prepend([LF], Unescape(b[2..]))
      else if c == LETTER_R then Prepend([CR], Unescape(b[2..]))
      else if c == LETTER_X || c == LETTER_U || c == CAPITAL_U then
        var w := DigitsFor(c);
        if |b| < 2 + w || !AllHex(b[2..2 + w]) then None
        else
          var units := CodeUnits(ParseHex(b[2..2 + w]));
          if units.None? then None else Prepend(units.value, Unescape(b[2 + w..]))
      else Prepend([c], Unescape(b[2..]))
  }

  /** Reading an escape with digits back. */
  lemma UnescapeDigits(letter: Unit, n: nat, rest: seq<Unit>)
    requires letter == LETTER_X || letter == LETTER_U || letter == CAPITAL_U
    requires n < Pow16(DigitsFor(letter))
    requires CodeUnits(n).Some?
    ensures Unescape(Esc(letter, HexOf(n, DigitsFor(letter))) + rest) == Prepend(CodeUnits(n).value, Unescape(rest))
  {
    var w := DigitsFor(letter);
    var b := Esc(letter, HexOf(n, w)) + rest;
    assert b[0] == BACKSLASH && b[1] == letter && |b| >= 2 + w;
    assert b[2..2 + w] == HexOf(n, w);
    assert AllHex(b[2..2 + w]);
    assert b[2 + w..] == rest;
    ParseHexOf(n, w);
    assert Unescape(b) == Prepend(CodeUnits(ParseHex(b[2..2 + w])).value, Unescape(b[2 + w..]));
  }

  /** Reading one escape back gives the units it stands for. */
  lemma UnescapeStep(v: seq<Unit>, i: nat, q: Unit, py3: bool, rest: seq<Unit>)
    requires i < |v| && q != BACKSLASH && q < 0x80
    requires q != LETTER_T && q != LETTER_N && q != LETTER_R && q != LETTER_X && q != LETTER_U && q != CAPITAL_U
    ensures var e := Escape(v, i, q, py3, false);
      Unescape(e.0 + rest) == Prepend(v[i..e.1], Unescape(rest))
  {
    var e := Escape(v, i, q, py3, false);
    var c := v[i];
    var b := e.0 + rest;
    if c == q || c == BACKSLASH || c == TAB || c == LF || c == CR {
      assert b[2..] == rest;
      assert v[i..e.1] == [c];
    } else if !py3 && (0xFF < c < 0xD800 || c >= 0xE000) {
      PowWidths();
      UnescapeDigits(LETTER_U, c, rest);
      assert v[i..e.1] == [c];
    } else if !py3 && c >= 0xD800 {
      UnescapeSurrogate(v, i, q, rest);
    } else if c < SPACE || (!py3 && c >= 0x7F) {
      PowWidths();
      UnescapeDigits(LETTER_X, c, rest);
      assert v[i..e.1] == [c];
    } else {
      assert b[1..] == rest;
      assert v[i..e.1] == [c];
    }
  }

  /** Reading back the escape of a surrogate: `\U` and eight digits for a
      pair, `\u` and four for a lone half. */
  lemma UnescapeSurrogate(v: seq<Unit>, i: nat, q: Unit, rest: seq<Unit>)
    requires i < |v| && 0xD800 <= v[i] < 0xE000 && q < 0x80
    ensures var e := Escape(v, i, q, false, false);
      Unescape(e.0 + rest) == Prepend(v[i..e.1], Unescape(rest))
  {
    if IsHigh(v[i]) && i + 1 < |v| && IsLow(v[i + 1]) {
      UnescapePair(v, i, q, rest);
    } else {
      UnescapeLone(v, i, q, rest);
    }
  }

  lemma UnescapePair(v: seq<Unit>, i: nat, q: Unit, rest: seq<Unit>)
    requires i + 1 < |v| && IsHigh(v[i]) && IsLow(v[i + 1]) && q < 0x80
    ensures var e := Escape(v, i, q, false, false);
      Unescape(e.0 + rest) == Prepend(v[i..e.1], Unescape(rest))
  {
    var c := v[i];
    var cp := Combine(c, v[i + 1]);
    PowWidths();
    CombineSplits(c, v[i + 1]);
    UnescapeDigits(CAPITAL_U, cp, rest);
    var e := Escape(v, i, q, false, false);
    assert e == (Esc(CAPITAL_U, HexOf(cp, 8)), i + 2);
    assert v[i..i + 2] == [c, v[i + 1]];
  }

  lemma UnescapeLone(v: seq<Unit>, i: nat, q: Unit, rest: seq<Unit>)
    requires i < |v| && 0xD800 <= v[i] < 0xE000 && q < 0x80
    requires !(IsHigh(v[i]) && i + 1 < |v| && IsLow(v[i + 1]))
    ensures var e := Escape(v, i, q, false, false);
      Unescape(e.0 + rest) == Prepend(v[i..e.1], Unescape(rest))
  {
    var c := v[i];
    PowWidths();
    UnescapeDigits(LETTER_U, c, rest);
    var e := Escape(v, i, q, false, false);
    assert e == (Esc(LETTER_U, HexOf(c, 4)), i + 1);
    assert v[i..i + 1] == [c];
  }

  lemma {:induction false} BodyRoundTrip(v: seq<Unit>, i: nat, q: Unit, py3: bool)
    requires i <= |v| && (q == SQUOTE || q == DQUOTE)
    ensures Unescape(Body(v, i, q, py3, false)) == Some(v[i..])
    decreases |v| - i
  {
    if i < |v| {
      var e := Escape(v, i, q, py3, false);
      var rest := Body(v, e.1, q, py3, false);
      assert Body(v, i, q, py3, false) == e.0 + rest;
      BodyRoundTrip(v, e.1, q, py3);
      UnescapeStep(v, i, q, py3, rest);
      SuffixAt(v, i, e.1);
    } else {
      assert v[i..] == [];
    }
  }

  /** The literal is the optional `b`, a quote, a body that reads back as
      the value's units, and the same quote; the quote is double exactly
      when the text has a single quote and no double one. */
  lemma ReprRoundTrip(val: Value, py3: bool)
    ensures var lit := ReprOf(val, py3).v;
      var q := QuoteFor(val.v);
      var pre := if val.kind == Bytes then 1 else 0;
      && (q == DQUOTE <==> SQUOTE in val.v && DQUOTE !in val.v)
      && |lit| >= pre + 2
      && (val.kind == Bytes ==> lit[0] == LETTER_B)
      && lit[pre] == q && lit[|lit| - 1] == q
      && Unescape(lit[pre + 1..|lit| - 1]) == Some(val.v)
  {
    var q := QuoteFor(val.v);
    var pre := if val.kind == Bytes then 1 else 0;
    var body := Body(val.v, 0, q, py3, false);
    var lit := ReprOf(val, py3).v;
    assert lit[pre + 1..|lit| - 1] == body;
    BodyRoundTrip(val.v, 0, q, py3);
    assert val.v[0..] == val.v;
  }

  predicate AsciiOnly(s: seq<Unit>) {
    forall k :: 0 <= k < |s| ==> s[k] < 0x80
  }

  lemma AsciiAppend(a: seq<Unit>, b: seq<Unit>)
    requires AsciiOnly(a) && AsciiOnly(b)
    ensures AsciiOnly(a + b)
  {
    forall k | 0 <= k < |a + b|
      ensures (a + b)[k] < 0x80
    {
      if k >= |a| {
        assert (a + b)[k] == b[k - |a|];
      }
    }
  }

  lemma EscapeAscii(v: seq<Unit>, i: nat, q: Unit)
    requires i < |v| && q < 0x80
    ensures AsciiOnly(Escape(v, i, q, false, false).0)
  {
  }

  /** In the legacy mode every unit of the body is ASCII. */
  lemma {:induction false} LegacyBodyAscii(v: seq<Unit>, i: nat, q: Unit)
    requires i <= |v| && q < 0x80
    ensures AsciiOnly(Body(v, i, q, false, false))
    decreases |v| - i
  {
    if i < |v| {
      var e := Escape(v, i, q, false, false);
      LegacyBodyAscii(v, e.1, q);
      EscapeAscii(v, i, q);
      AsciiAppend(e.0, Body(v, e.1, q, false, false));
    }
  }

  /** In the legacy mode every unit of the literal is ASCII. */
  lemma LegacyReprAscii(val: Value)
    ensures AsciiOnly(ReprOf(val, false).v)
  {
    var q := QuoteFor(val.v);
    LegacyBodyAscii(val.v, 0, q);
    var pre: seq<Unit> := if val.kind == Bytes then [LETTER_B] else [];
    AsciiAppend(pre, [q]);
    AsciiAppend(pre + [q], Body(val.v, 0, q, false, false));
    AsciiAppend(pre + [q] + Body(val.v, 0, q, false, false), [q]);
  }

  lemma HexOfD800()
    ensures HexOf(0xD800, 4) == ['d' as int, '8' as int, ZERO, ZERO]
  {
    assert HexOf(0xD, 1) == ['d' as int];
    assert HexOf(0xD8, 2) == HexOf(0xD, 1) + ['8' as int];
    assert HexOf(0xD80, 3) == HexOf(0xD8, 2) + [ZERO];
  }

  /** A lone high surrogate followed by `a`: as written the `a` is lost; it
      is meant to be kept. */
  lemma LoneSurrogateSwallowsNext()
    ensures ReprAsWritten(Value(Str, [0xD800, 97]), false).v
         == [SQUOTE, BACKSLASH, LETTER_U, 'd' as int, '8' as int, ZERO, ZERO, SQUOTE]
    ensures ReprOf(Value(Str, [0xD800, 97]), false).v
         == [SQUOTE, BACKSLASH, LETTER_U, 'd' as int, '8' as int, ZERO, ZERO, 97, SQUOTE]
  {
    LoneSwallowed();
    LoneKept();
  }

  lemma LoneSwallowed()
    ensures ReprAsWritten(Value(Str, [0xD800, 97]), false).v
         == [SQUOTE, BACKSLASH, LETTER_U, 'd' as int, '8' as int, ZERO, ZERO, SQUOTE]
  {
    var v: seq<Unit> := [0xD800, 97];
    assert QuoteFor(v) == SQUOTE;
    HexOfD800();
    LoneBodies();
  }

  lemma LoneKept()
    ensures ReprOf(Value(Str, [0xD800, 97]), false).v
         == [SQUOTE, BACKSLASH, LETTER_U, 'd' as int, '8' as int, ZERO, ZERO, 97, SQUOTE]
  {
    var v: seq<Unit> := [0xD800, 97];
    assert QuoteFor(v) == SQUOTE;
    HexOfD800();
    LoneBodies();
  }

  /** The bodies of `[0xD800, 97]`: as written the escape of the lone half
      only, as meant the escape and the `a`. */
  lemma LoneBodies()
    ensures Body([0xD800, 97], 0, SQUOTE, false, true) == Esc(LETTER_U, HexOf(0xD800, 4))
    ensures Body([0xD800, 97], 0, SQUOTE, false, false) == Esc(LETTER_U, HexOf(0xD800, 4)) + [97]
  {
    var v: seq<Unit> := [0xD800, 97];
    var hex := HexOf(0xD800, 4);
    assert Escape(v, 0, SQUOTE, false, true) == (Esc(LETTER_U, hex), 2);
    assert Escape(v, 0, SQUOTE, false, false) == (Esc(LETTER_U, hex), 1);
    assert Escape(v, 1, SQUOTE, false, false) == ([97], 2);
    assert Body(v, 2, SQUOTE, false, true) == [];
    assert Body(v, 1, SQUOTE, false, false) == [97];
    assert Esc(LETTER_U, hex) + [] == Esc(LETTER_U, hex);
  }
}
