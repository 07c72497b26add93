/** The `%` operator of str and bytes (`nb$remainder`, str.js lines
    1183-1462): the specifier scanner that stands in for the global regex
    replace, the positional-argument counter, the conversion flags,
    `formatNumber`, `handleWidth`, and the `c`, `r`, `s` and `%`
    conversions. */
module Format {
  import opened Base
  import opened Chars
  import opened Repr
  import HexCodec

  const HASH: Unit := 35
  const STAR: Unit := 42
  const DOT: Unit := 46
  const PAREN_OPEN: Unit := 40
  const PAREN_CLOSE: Unit := 41

  /** The texts `str` gives for `True`, `False` and `None`, and the text
      `%u` gives as written. */
  const TRUE_TEXT: seq<Unit> := Ascii("True")
  const FALSE_TEXT: seq<Unit> := Ascii("False")
  const NONE_TEXT: seq<Unit> := Ascii("None")
  const UNDEFINED: seq<Unit> := Ascii("undefined")

  // ---------------------------------------------------------------------
  // the specifier scanner (the regex of line 1212)

  /** The field width: absent, `*`, or digits. */
  datatype Width = NoWidth | StarWidth | WidthDigits(w: nat)

  /** The precision: absent, `.*`, or `.` and digits. */
  datatype Precision = NoPrecision | StarPrecision | PrecisionDigits(p: nat)

  /** One specifier: mapping key, flags, width, precision and conversion. */
  datatype Spec = Spec(key: Option<seq<Unit>>, flags: seq<Unit>, width: Width, precision: Precision, conv: Unit)

  predicate IsFlag(u: Unit) {
    u == HASH || u == ZERO || u == SPACE || u == PLUS || u == MINUS
  }

  predicate IsLengthModifier(u: Unit) {
    u == 'h' as int || u == 'l' as int || u == 'L' as int
  }

  /** The float conversions `eEfFgG`. */
  predicate IsFloatConversion(u: Unit) {
    u == 'e' as int || u == 'E' as int || u == 'f' as int || u == 'F' as int || u == 'g' as int || u == 'G' as int
  }

  /** The conversion letters `diouxXeEfFgGcrs%`. */
  predicate IsConversion(u: Unit) {
    || u == 'd' as int || u == 'i' as int || u == 'o' as int || u == 'u' as int || u == 'x' as int || u == 'X' as int
    || IsFloatConversion(u)
    || u == 'c' as int || u == 'r' as int || u == 's' as int || u == PERCENT
  }

  /** The end of the longest run from `i` of units satisfying `p`. */
  function RunEnd(f: seq<Unit>, i: nat, p: Unit -> bool): (j: nat)
    requires i <= |f|
    ensures i <= j <= |f|
    ensures forall k :: i <= k < j ==> p(f[k])
    ensures j < |f| ==> !p(f[j])
    decreases |f| - i
  {
    if i == |f| || !p(f[i]) then i else RunEnd(f, i + 1, p)
  }

  /** The number decimal digits stand for (`parseInt(d, 10)`). */
  function Decimal(d: seq<Unit>): nat
    requires forall k :: 0 <= k < |d| ==> IsDigit(d[k])
  {
    if d == [] then 0
    else
      var last := d[|d| - 1];
      assert IsDigit(last);
      Decimal(d[..|d| - 1]) * 10 + (last - ZERO)
  }

  /** The optional `(key)` after the `%` at `i`: the key and where the
      flags start. */
  function KeyAt(f: seq<Unit>, a: nat): (r: (Option<seq<Unit>>, nat))
    requires a <= |f|
    ensures a <= r.1 <= |f|
  {
    if a < |f| && f[a] == PAREN_OPEN then
      var e := RunEnd(f, a + 1, IsAlnum);
      if e > a + 1 && e < |f| && f[e] == PAREN_CLOSE then (Some(f[a + 1..e]), e + 1) else (None, a)
    else (None, a)
  }

  function WidthAt(f: seq<Unit>, b: nat): (r: (Width, nat))
    requires b <= |f|
    ensures b <= r.1 <= |f|
  {
    if b < |f| && f[b] == STAR then (StarWidth, b + 1)
    else
      var c := RunEnd(f, b, IsDigit);
      if c > b then (WidthDigits(Decimal(f[b..c])), c) else (NoWidth, b)
  }

  function PrecisionAt(f: seq<Unit>, c: nat): (r: (Precision, nat))
    requires c <= |f|
    ensures c <= r.1 <= |f|
  {
    if c < |f| && f[c] == DOT then
      if c + 1 < |f| && f[c + 1] == STAR then (StarPrecision, c + 2)
      else
        var e := RunEnd(f, c + 1, IsDigit);
        if e > c + 1 then (PrecisionDigits(Decimal(f[c + 1..e])), e) else (NoPrecision, c)
    else (NoPrecision, c)
  }

  /** The specifier that starts with the `%` at `i` and where it ends, or
      None when the regex does not match there. Each optional part is read
      greedily; `ScanIsMatch`, `MatchScanned` and `ScanNoneNoMatch` show that this is the
      match the backtracking regex finds. */
  function Scan(f: seq<Unit>, i: nat): (r: Option<(Spec, nat)>)
    requires i < |f| && f[i] == PERCENT
    ensures r.Some? ==> i + 2 <= r.value.1 <= |f| && r.value.0.conv == f[r.value.1 - 1] && IsConversion(r.value.0.conv)
  {
    var key := KeyAt(f, i + 1);
    var b := RunEnd(f, key.1, IsFlag);
    var width := WidthAt(f, b);
    var precision := PrecisionAt(f, width.1);
    var d := precision.1;
    var e := if d < |f| && IsLengthModifier(f[d]) then d + 1 else d;
    if e < |f| && IsConversion(f[e]) then Some((Spec(key.0, f[key.1..b], width.0, precision.0, f[e]), e + 1))
    else None
  }

  // ---------------------------------------------------------------------
  // what the regex of line 1212 matches, stated piece by piece

  /** Every unit of `f[lo..hi]` satisfies `p`. */
  predicate AllIn(f: seq<Unit>, lo: nat, hi: nat, p: Unit -> bool)
    requires lo <= hi <= |f|
  {
    forall k :: lo <= k < hi ==> p(f[k])
  }

  /** Group 1, `(\([a-zA-Z0-9]+\))?`, over `f[s..a]`. */
  predicate KeyPiece(f: seq<Unit>, s: nat, a: nat, key: Option<seq<Unit>>)
    requires s <= a <= |f|
  {
    match key
    case None => a == s
    case Some(k) =>
      && s + 3 <= a && f[s] == PAREN_OPEN && f[a - 1] == PAREN_CLOSE
      && AllIn(f, s + 1, a - 1, IsAlnum) && k == f[s + 1..a - 1]
  }

  /** Group 3, `(\*|[0-9]+)?`, over `f[b..c]`, with the number the digits
      stand for. */
  predicate WidthPiece(f: seq<Unit>, b: nat, c: nat, width: Width)
    requires b <= c <= |f|
  {
    match width
    case NoWidth => c == b
    case StarWidth => c == b + 1 && f[b] == STAR
    case WidthDigits(n) => b < c && AllIn(f, b, c, IsDigit) && n == Decimal(f[b..c])
  }

  /** Groups 4 and 5, `(\.(\*|[0-9]+))?`, over `f[c..d]`. */
  predicate PrecisionPiece(f: seq<Unit>, c: nat, d: nat, precision: Precision)
    requires c <= d <= |f|
  {
    match precision
    case NoPrecision => d == c
    case StarPrecision => d == c + 2 && f[c] == DOT && f[c + 1] == STAR
    case PrecisionDigits(n) => c + 1 < d && f[c] == DOT && AllIn(f, c + 1, d, IsDigit) && n == Decimal(f[c + 1..d])
  }

  /** `[hlL]?` over `f[d..e]`. */
  predicate ModifierPiece(f: seq<Unit>, d: nat, e: nat)
    requires d <= e <= |f|
  {
    e == d || (e == d + 1 && IsLengthModifier(f[d]))
  }

  /** The regex matches `f[i..e + 1]` with the key over `[i + 1, a)`, the
      flags over `[a, b)`, the width over `[b, c)`, the precision over
      `[c, d)`, the length modifier over `[d, e)` and the conversion at
      `e`, and `spec` holds what those pieces read. */
  predicate Pieces(f: seq<Unit>, i: nat, a: nat, b: nat, c: nat, d: nat, e: nat, spec: Spec) {
    && i + 1 <= a <= b <= c <= d <= e < |f|
    && f[i] == PERCENT
    && KeyPiece(f, i + 1, a, spec.key)
    && AllIn(f, a, b, IsFlag) && spec.flags == f[a..b]
    && WidthPiece(f, b, c, spec.width)
    && PrecisionPiece(f, c, d, spec.precision)
    && ModifierPiece(f, d, e)
    && IsConversion(f[e]) && spec.conv == f[e]
  }

  /** A run of `p` units from `lo` to `hi` is passed over by `RunEnd`. */
  lemma {:induction false} RunEndPast(f: seq<Unit>, lo: nat, hi: nat, p: Unit -> bool)
    requires lo <= hi <= |f| && AllIn(f, lo, hi, p)
    ensures RunEnd(f, lo, p) == RunEnd(f, hi, p)
    decreases hi - lo
  {
    if lo < hi {
      RunEndPast(f, lo + 1, hi, p);
    }
  }

  /** A run of `p` units from `lo` that stops at `hi` ends at `hi`. */
  lemma RunEndExact(f: seq<Unit>, lo: nat, hi: nat, p: Unit -> bool)
    requires lo <= hi < |f| && AllIn(f, lo, hi, p) && !p(f[hi])
    ensures RunEnd(f, lo, p) == hi
  {
    RunEndPast(f, lo, hi, p);
  }

  /** The key, width and precision the scanner reads are pieces the regex
      accepts. */
  lemma ReadsArePieces(f: seq<Unit>, a: nat, b: nat, c: nat)
    requires a <= |f| && b <= |f| && c <= |f|
    ensures KeyPiece(f, a, KeyAt(f, a).1, KeyAt(f, a).0)
    ensures WidthPiece(f, b, WidthAt(f, b).1, WidthAt(f, b).0)
    ensures PrecisionPiece(f, c, PrecisionAt(f, c).1, PrecisionAt(f, c).0)
  {
  }

  /** The key the regex reads is the one `KeyAt` reads, provided the text
      after a missing key does not open one. */
  lemma KeyAtUnique(f: seq<Unit>, s: nat, a: nat, key: Option<seq<Unit>>)
    requires s <= a < |f| && KeyPiece(f, s, a, key)
    requires key.None? ==> f[a] != PAREN_OPEN
    ensures KeyAt(f, s) == (key, a)
  {
    if key.Some? {
      RunEndExact(f, s + 1, a - 1, IsAlnum);
    }
  }

  /** The width the regex reads is the one `WidthAt` reads, when the unit
      after it is neither a digit nor `*`. */
  lemma WidthAtUnique(f: seq<Unit>, b: nat, c: nat, width: Width)
    requires b <= c < |f| && WidthPiece(f, b, c, width)
    requires !IsDigit(f[c]) && f[c] != STAR
    ensures WidthAt(f, b) == (width, c)
  {
    if width.WidthDigits? {
      RunEndExact(f, b, c, IsDigit);
    }
  }

  /** The precision the regex reads is the one `PrecisionAt` reads, when the
      unit after it is neither a digit nor `.`. */
  lemma PrecisionAtUnique(f: seq<Unit>, c: nat, d: nat, precision: Precision)
    requires c <= d < |f| && PrecisionPiece(f, c, d, precision)
    requires !IsDigit(f[d]) && f[d] != DOT
    ensures PrecisionAt(f, c) == (precision, d)
  {
    if precision.PrecisionDigits? {
      RunEndExact(f, c + 1, d, IsDigit);
    }
  }

  /** What may follow the key, the width and the precision of a match. */
  lemma Followers(f: seq<Unit>, i: nat, a: nat, b: nat, c: nat, d: nat, e: nat, spec: Spec)
    requires Pieces(f, i, a, b, c, d, e, spec)
    ensures f[a] != PAREN_OPEN
    ensures f[c] == DOT || IsLengthModifier(f[c]) || IsConversion(f[c])
    ensures IsLengthModifier(f[d]) || IsConversion(f[d])
    ensures e == if IsLengthModifier(f[d]) then d + 1 else d
  {
    if spec.precision.NoPrecision? {
      assert d == c;
    }
    if a == b && b == c {
      assert spec.width.NoWidth?;
    }
  }

  /** The scanner's result, once each of its reads is known. */
  lemma ScanBy(f: seq<Unit>, i: nat, key: Option<seq<Unit>>, a: nat, b: nat, width: Width, c: nat,
               precision: Precision, d: nat, e: nat)
    requires i < |f| && f[i] == PERCENT
    requires KeyAt(f, i + 1) == (key, a) && RunEnd(f, a, IsFlag) == b
    requires WidthAt(f, b) == (width, c) && PrecisionAt(f, c) == (precision, d)
    requires d < |f| && e == (if IsLengthModifier(f[d]) then d + 1 else d)
    requires e < |f| && IsConversion(f[e])
    ensures Scan(f, i) == Some((Spec(key, f[a..b], width, precision, f[e]), e + 1))
  {
    var r := Scan(f, i);
    assert r.Some?;
    assert r.value.1 == e + 1;
    assert r.value.0.key == key;
    assert r.value.0.flags == f[a..b];
    assert r.value.0.width == width;
    assert r.value.0.precision == precision;
  }

  /** When the flag group of a match stops at a `0`, the flag run goes on
      through zeros that the match gave to the width, and the width still
      ends at `c`. */
  lemma GreedyZeros(f: seq<Unit>, b: nat, b0: nat, c: nat, width: Width)
    requires b <= c < |f| && WidthPiece(f, b, c, width) && IsFlag(f[b])
    requires f[c] == DOT || IsLengthModifier(f[c]) || IsConversion(f[c])
    requires b <= b0 <= |f| && b0 == RunEnd(f, b, IsFlag)
    ensures b0 <= c && WidthAt(f, b0).1 == c
  {
    assert width.WidthDigits?;
    assert !IsFlag(f[c]);
    if b0 < c {
      RunEndExact(f, b0, c, IsDigit);
    } else {
      assert RunEnd(f, c, IsDigit) == c;
    }
  }

  /** Every match of the regex at `i` is found by the scanner, with the same
      end, key, precision and conversion: the only other way to match is for
      the flag group to leave trailing `0`s to the width. When the flag group
      is greedy the scanner reads exactly that match. */
  lemma MatchScanned(f: seq<Unit>, i: nat, a: nat, b: nat, c: nat, d: nat, e: nat, spec: Spec)
    requires Pieces(f, i, a, b, c, d, e, spec)
    ensures Scan(f, i).Some? && Scan(f, i).value.1 == e + 1
    ensures var s := Scan(f, i).value.0;
      s.key == spec.key && s.precision == spec.precision && s.conv == spec.conv
    ensures !IsFlag(f[b]) ==> Scan(f, i) == Some((spec, e + 1))
  {
    Followers(f, i, a, b, c, d, e, spec);
    KeyAtUnique(f, i + 1, a, spec.key);
    PrecisionAtUnique(f, c, d, spec.precision);
    RunEndPast(f, a, b, IsFlag);
    var b0 := RunEnd(f, a, IsFlag);
    if IsFlag(f[b]) {
      GreedyZeros(f, b, b0, c, spec.width);
    } else {
      WidthAtUnique(f, b, c, spec.width);
    }
    ScanBy(f, i, spec.key, a, b0, WidthAt(f, b0).0, c, spec.precision, d, e);
  }

  /** Where the scanner's key, flags, width and precision end. */
  function PieceEnds(f: seq<Unit>, i: nat): (r: (nat, nat, nat, nat))
    requires i < |f|
    ensures i + 1 <= r.0 <= r.1 <= r.2 <= r.3 <= |f|
  {
    var a := KeyAt(f, i + 1).1;
    var b := RunEnd(f, a, IsFlag);
    var c := WidthAt(f, b).1;
    (a, b, c, PrecisionAt(f, c).1)
  }

  /** What the scanner reads is a match of the regex whose flag group is
      greedy, the match the backtracking regex reports. */
  lemma ScanIsMatch(f: seq<Unit>, i: nat)
    requires i < |f| && f[i] == PERCENT && Scan(f, i).Some?
    ensures var ends := PieceEnds(f, i);
      && Pieces(f, i, ends.0, ends.1, ends.2, ends.3, Scan(f, i).value.1 - 1, Scan(f, i).value.0)
      && !IsFlag(f[ends.1])
  {
    var ends := PieceEnds(f, i);
    var e := Scan(f, i).value.1 - 1;
    assert e == if IsLengthModifier(f[ends.3]) then ends.3 + 1 else ends.3;
    ReadsMatch(f, i, ends.0, ends.1, ends.2, ends.3, e, Scan(f, i).value.0);
  }

  /** Reads that follow one another from `i` and end at a conversion letter
      form a match with a greedy flag group. */
  lemma ReadsMatch(f: seq<Unit>, i: nat, a: nat, b: nat, c: nat, d: nat, e: nat, spec: Spec)
    requires i < |f| && f[i] == PERCENT
    requires KeyAt(f, i + 1) == (spec.key, a) && RunEnd(f, a, IsFlag) == b && spec.flags == f[a..b]
    requires WidthAt(f, b) == (spec.width, c) && PrecisionAt(f, c) == (spec.precision, d)
    requires d < |f| && e == (if IsLengthModifier(f[d]) then d + 1 else d)
    requires e < |f| && IsConversion(f[e]) && spec.conv == f[e]
    ensures Pieces(f, i, a, b, c, d, e, spec) && !IsFlag(f[b])
  {
    ReadsArePieces(f, i + 1, b, c);
  }

  /** None means the regex does not match at `i` in any way. */
  lemma ScanNoneNoMatch(f: seq<Unit>, i: nat)
    requires i < |f| && f[i] == PERCENT && Scan(f, i).None?
    ensures forall a: nat, b: nat, c: nat, d: nat, e: nat, spec: Spec :: !Pieces(f, i, a, b, c, d, e, spec)
  {
    forall a: nat, b: nat, c: nat, d: nat, e: nat, spec: Spec | Pieces(f, i, a, b, c, d, e, spec)
      ensures false
    {
      MatchScanned(f, i, a, b, c, d, e, spec);
    }
  }


  /** Whether a specifier takes the next positional argument (lines
      1233-1235): it has no mapping key and is not `%%`. */
  predicate Consumes(spec: Spec) {
    spec.key.None? && spec.conv != PERCENT
  }

  // ---------------------------------------------------------------------
  // flags (lines 1241-1260)

  datatype Flags = Flags(leftAdjust: bool, zeroPad: bool, sign: bool, blank: bool, alternate: bool)

  /** `-` beats `0`, and `+` beats a blank. */
  function FlagsOf(flags: seq<Unit>): (fl: Flags)
    ensures fl.leftAdjust <==> MINUS in flags
    ensures fl.zeroPad <==> ZERO in flags && MINUS !in flags
    ensures fl.sign <==> PLUS in flags
    ensures fl.blank <==> SPACE in flags && PLUS !in flags
    ensures fl.alternate <==> HASH in flags
    ensures !(fl.leftAdjust && fl.zeroPad) && !(fl.sign && fl.blank)
  {
    var left := MINUS in flags;
    var plus := PLUS in flags;
    Flags(left, !left && ZERO in flags, plus, !plus && SPACE in flags, HASH in flags)
  }

  /** A precision of `.*` or `.0` tests false in the source and pads or
      truncates nothing. */
  function PrecisionCount(p: Precision): nat {
    if p.PrecisionDigits? then p.p else 0
  }

  /** `parseInt` of a `*` width is NaN, which pads nothing. */
  function WidthCount(w: Width): nat {
    if w.WidthDigits? then w.w else 0
  }

  // ---------------------------------------------------------------------
  // formatNumber (lines 1266-1327)

  predicate IsBase(base: nat) { base == 8 || base == 10 || base == 16 }

  /** The digits of `n` in `base`, lower case, without leading zeros
      (`str$(base, false)`). */
  function Digits(n: nat, base: nat): (r: seq<Unit>)
    requires IsBase(base)
    ensures |r| >= 1
    ensures forall k :: 0 <= k < |r| ==> IsHexDigit(r[k]) && HexValue(r[k]) < base
    decreases n
  {
    if n < base then [HexDigit(n)] else Digits(Quot(n, base), base) + [HexDigit(Rem(n, base))]
  }

  /** `n / base` and `n % base`, each with a constant divisor. */
  function Quot(n: nat, base: nat): (q: nat)
    requires IsBase(base) && n >= base
    ensures q < n
  {
    if base == 8 then n / 8 else if base == 10 then n / 10 else n / 16
  }

  function Rem(n: nat, base: nat): (d: nat)
    requires IsBase(base)
    ensures d < base
  {
    if base == 8 then n % 8 else if base == 10 then n % 10 else n % 16
  }

  lemma DivMod(n: nat, base: nat)
    requires IsBase(base) && n >= base
    ensures Quot(n, base) * base + Rem(n, base) == n
  {
  }

  /** The number digits in `base` stand for. */
  function ParseDigits(d: seq<Unit>, base: nat): nat
    requires forall k :: 0 <= k < |d| ==> IsHexDigit(d[k])
  {
    if d == [] then 0 else ParseDigits(d[..|d| - 1], base) * base + HexValue(d[|d| - 1])
  }

  /** The digits read back give the number, and only zero starts with a
      zero digit. */
  lemma {:induction false} DigitsRoundTrip(n: nat, base: nat)
    requires IsBase(base)
    ensures ParseDigits(Digits(n, base), base) == n
    ensures Digits(n, base)[0] == ZERO <==> n == 0
    decreases n
  {
    var d := Digits(n, base);
    if n < base {
      assert d[..0] == [];
      HexDigitValue(n);
    } else {
      DigitsRoundTrip(Quot(n, base), base);
      assert d[..|d| - 1] == Digits(Quot(n, base), base);
      HexDigitValue(Rem(n, base));
      DivMod(n, base);
    }
  }

  lemma HexDigitValue(d: nat)
    requires d < 16
    ensures HexValue(HexDigit(d)) == d
    ensures HexDigit(d) == ZERO <==> d == 0
  {
  }

  function Abs(n: int): nat { if n < 0 then -n else n }

  /** The sign part of the prefix. */
  function SignPrefix(n: int, fl: Flags): seq<Unit> {
    if n < 0 then [MINUS] else if fl.sign then [PLUS] else if fl.blank then [SPACE] else []
  }

  /** The `#` part of the prefix: `0x` for hex, `0` for octal unless the
      digits were zero-padded or are the single digit 0. */
  function AltPrefix(fl: Flags, base: nat, zeroPadded: bool, digits: seq<Unit>): seq<Unit> {
    if !fl.alternate then []
    else if base == 16 then [ZERO, 'x' as int]
    else if base == 8 && !zeroPadded && digits != [ZERO] then [ZERO]
    else []
  }

  /** `formatNumber` for an int: the prefix (sign, then the `#` part) and
      the digits, zero-padded to the precision. */
  function NumberOf(n: int, base: nat, prec: nat, fl: Flags): (r: (seq<Unit>, seq<Unit>))
    requires IsBase(base)
    ensures |r.1| == Max(prec, |Digits(Abs(n), base)|)
  {
    var d := Digits(Abs(n), base);
    var padded := Fill(ZERO, prec - |d|) + d;
    (SignPrefix(n, fl) + AltPrefix(fl, base, prec > |d|, padded), padded)
  }

  /** The loop of lines 1305-1310 puts the zeros in front one at a time. */
  method PadZeros(d: seq<Unit>, prec: nat) returns (r: seq<Unit>, precZeroPadded: bool)
    ensures r == Fill(ZERO, prec - |d|) + d
    ensures precZeroPadded == (prec > |d|)
  {
    r := d;
    precZeroPadded := false;
    var j := |r|;
    while j < prec
      invariant |d| <= j && (prec >= |d| ==> j <= prec) && (prec < |d| ==> j == |d|)
      invariant r == Fill(ZERO, j - |d|) + d
      invariant precZeroPadded <==> j > |d|
    {
      r := [ZERO] + r;
      precZeroPadded := true;
      j := j + 1;
    }
  }

  /** `formatNumber` (lines 1266-1327) for an int. */
  method FormatNumber(n: int, base: nat, prec: nat, fl: Flags) returns (prefix: seq<Unit>, r: seq<Unit>)
    requires IsBase(base)
    ensures prefix == NumberOf(n, base, prec, fl).0 && r == NumberOf(n, base, prec, fl).1
  {
    var neg := n < 0;
    var precZeroPadded;
    r, precZeroPadded := PadZeros(Digits(if neg then -n else n, base), prec);
    prefix := [];
    if neg {
      prefix := [MINUS];
    } else if fl.sign {
      prefix := [PLUS] + prefix;
    } else if fl.blank {
      prefix := [SPACE] + prefix;
    }
    var alt := [];
    if fl.alternate {
      if base == 16 {
        alt := [ZERO, 'x' as int];
      } else if base == 8 && !precZeroPadded && r != [ZERO] {
        alt := [ZERO];
      }
    }
    prefix := prefix + alt;
  }

  /** The prefix is the sign (`-` for a negative number, else `+` under the
      `+` flag, else a blank under the blank flag) followed by `0x` for hex
      under `#`, or `0` for octal under `#` unless the digits were padded or
      the number is 0; the digits are the number's, zero-padded to the
      precision. */
  lemma NumberShape(n: int, base: nat, prec: nat, fl: Flags)
    requires IsBase(base)
    ensures var r := NumberOf(n, base, prec, fl);
      var prefix := r.0;
      var digits := r.1;
      var d := Digits(Abs(n), base);
      && |digits| == Max(prec, |d|)
      && digits == Fill(ZERO, prec - |d|) + d
      && ParseDigits(digits, base) == Abs(n)
      && prefix == SignPrefix(n, fl) + AltPrefix(fl, base, prec > |d|, digits)
      && (n < 0 <==> |prefix| > 0 && prefix[0] == MINUS)
      && (n >= 0 && fl.sign ==> prefix[0] == PLUS)
      && (n >= 0 && !fl.sign && fl.blank ==> prefix[0] == SPACE)
      && (fl.alternate && base == 16 ==> prefix == SignPrefix(n, fl) + [ZERO, 'x' as int])
      && (fl.alternate && base == 8 && prec <= |d| && n != 0 ==> prefix == SignPrefix(n, fl) + [ZERO])
      && (!fl.alternate || base == 10 || (base == 8 && (prec > |d| || n == 0)) ==> prefix == SignPrefix(n, fl))
  {
    var d := Digits(Abs(n), base);
    DigitsRoundTrip(Abs(n), base);
    LeadingZeros(prec - |d|, d, base);
    AltShape(n, base, prec, fl);
  }

  lemma AltShape(n: int, base: nat, prec: nat, fl: Flags)
    requires IsBase(base)
    ensures var d := Digits(Abs(n), base);
      var a := AltPrefix(fl, base, prec > |d|, Fill(ZERO, prec - |d|) + d);
      && (fl.alternate && base == 8 && prec <= |d| && n != 0 ==> a == [ZERO])
      && (!fl.alternate || base == 10 || (base == 8 && (prec > |d| || n == 0)) ==> a == [])
  {
    var d := Digits(Abs(n), base);
    SingleZero(Abs(n), base);
    if prec <= |d| {
      assert Fill(ZERO, prec - |d|) == [];
      assert Fill(ZERO, prec - |d|) + d == d;
    }
  }

  /** The digits are the single `0` exactly for the number 0. */
  lemma SingleZero(m: nat, base: nat)
    requires IsBase(base)
    ensures Digits(m, base) == [ZERO] <==> m == 0
  {
    if m >= base {
      assert |Digits(m, base)| >= 2;
    }
  }

  /** Zeros in front do not change the number. */
  lemma {:induction false} LeadingZeros(z: int, d: seq<Unit>, base: nat)
    requires forall k :: 0 <= k < |d| ==> IsHexDigit(d[k])
    ensures ParseDigits(Fill(ZERO, z) + d, base) == ParseDigits(d, base)
    decreases |d|
  {
    var s := Fill(ZERO, z) + d;
    if d == [] {
      ZerosParse(z, base);
      assert s == Fill(ZERO, z);
    } else {
      assert s[..|s| - 1] == Fill(ZERO, z) + d[..|d| - 1];
      LeadingZeros(z, d[..|d| - 1], base);
    }
  }

  lemma {:induction false} ZerosParse(z: int, base: nat)
    ensures ParseDigits(Fill(ZERO, z), base) == 0
    decreases z
  {
    if z > 0 {
      assert Fill(ZERO, z)[..z - 1] == Fill(ZERO, z - 1);
      ZerosParse(z - 1, base);
    }
  }

  // ---------------------------------------------------------------------
  // handleWidth (lines 1329-1353)

  /** The prefix and digits brought to the field width: zeros between them
      under `0`, blanks after under `-`, else blanks before. */
  function WidthOf(prefix: seq<Unit>, r: seq<Unit>, width: Width, fl: Flags): (out: seq<Unit>)
    ensures |out| == if width.NoWidth? then |prefix| + |r| else Max(WidthCount(width), |prefix| + |r|)
  {
    if width.NoWidth? then prefix + r
    else
      var pad := WidthCount(width) - (|r| + |prefix|);
      if fl.zeroPad then prefix + Fill(ZERO, pad) + r
      else if fl.leftAdjust then prefix + r + Fill(SPACE, pad)
      else Fill(SPACE, pad) + prefix + r
  }

  /** The three loops of `handleWidth`, one unit at a time. */
  method HandleWidth(prefix0: seq<Unit>, r0: seq<Unit>, width: Width, fl: Flags) returns (out: seq<Unit>)
    ensures out == WidthOf(prefix0, r0, width, fl)
  {
    var prefix, r := prefix0, r0;
    if !width.NoWidth? {
      var fieldWidth := WidthCount(width);
      var totLen := |r| + |prefix|;
      var j := totLen;
      if fl.zeroPad {
        while j < fieldWidth
          invariant totLen <= j && (fieldWidth >= totLen ==> j <= fieldWidth) && (fieldWidth < totLen ==> j == totLen)
          invariant r == Fill(ZERO, j - totLen) + r0
        {
          r := [ZERO] + r;
          j := j + 1;
        }
        AppendAssoc(prefix, Fill(ZERO, fieldWidth - totLen), r0);
      } else if fl.leftAdjust {
        while j < fieldWidth
          invariant totLen <= j && (fieldWidth >= totLen ==> j <= fieldWidth) && (fieldWidth < totLen ==> j == totLen)
          invariant r == r0 + Fill(SPACE, j - totLen)
        {
          r := r + [SPACE];
          j := j + 1;
        }
        AppendAssoc(prefix, r0, Fill(SPACE, fieldWidth - totLen));
      } else {
        while j < fieldWidth
          invariant totLen <= j && (fieldWidth >= totLen ==> j <= fieldWidth) && (fieldWidth < totLen ==> j == totLen)
          invariant prefix == Fill(SPACE, j - totLen) + prefix0
        {
          prefix := [SPACE] + prefix;
          j := j + 1;
        }
      }
    }
    out := prefix + r;
  }

  /** With a width, the result is as long as the width or the text,
      whichever is longer; the padding is zeros between prefix and digits
      under `0`, blanks on the right under `-` (which beats `0`), and blanks
      on the left otherwise. */
  lemma WidthShape(prefix: seq<Unit>, r: seq<Unit>, width: Width, fl: Flags)
    requires !(fl.leftAdjust && fl.zeroPad)
    ensures var out := WidthOf(prefix, r, width, fl);
      var tot := |prefix| + |r|;
      var pad := if width.NoWidth? then 0 else Max(WidthCount(width) - tot, 0);
      && |out| == tot + pad
      && (width.NoWidth? ==> out == prefix + r)
      && (fl.zeroPad ==> out == prefix + Fill(ZERO, pad) + r)
      && (fl.leftAdjust ==> out == prefix + r + Fill(SPACE, pad))
      && (!fl.zeroPad && !fl.leftAdjust ==> out == Fill(SPACE, pad) + prefix + r)
  {
    if width.NoWidth? {
      assert Fill(ZERO, 0) == [] && Fill(SPACE, 0) == [];
      assert prefix + [] + r == prefix + r + [] == [] + prefix + r;
    }
  }

  // ---------------------------------------------------------------------
  // the right-hand operand and the runtime

  /** The right-hand operand: a tuple, a dict with str keys, a list, or a
      single other object. */
  datatype Rhs =
    | Tuple(items: seq<Obj>)
    | Dict(entries: map<seq<Unit>, Obj>, dictObj: Obj)
    | List(listObj: Obj)
    | Single(o: Obj)

  /** Lines 1205-1207: a lone object without `mp$subscript`, or a str, is
      wrapped in a one-item tuple. A bytes value, a dict and a list have
      `mp$subscript` and are not wrapped, nor is a tuple. */
  function Wrapped(rhs: Rhs): (r: Rhs)
    ensures r.Single? ==> r.o.Byts?
    ensures rhs.Single? && !rhs.o.Byts? ==> r == Tuple([rhs.o])
    ensures rhs.Tuple? || rhs.Dict? || rhs.List? || (rhs.Single? && rhs.o.Byts?) ==> r == rhs
  {
    if rhs.Single? && !rhs.o.Byts? then Tuple([rhs.o]) else rhs
  }

  /** What the surrounding runtime supplies: the language mode, the UTF-8
      decoding `str(b)` performs, and the text of a float conversion. */
  datatype Host = Host(
    py3: bool,
    decode: seq<Unit> -> Result<seq<Unit>>,
    floatText: (Option<Obj>, Spec) -> Result<seq<Unit>>)

  /** The value a specifier converts (lines 1355-1368); None stands for
      `undefined`: a tuple read past its end, or at no position. */
  function ValueFor(rhs: Rhs, spec: Spec, i: Option<nat>): (r: Result<Option<Obj>>)
    ensures rhs.Tuple? ==> r.Ok? && (r.value.Some? <==> i.Some? && i.value < |rhs.items|)
    ensures rhs.Tuple? && r.value.Some? ==> r.value.value == rhs.items[i.value]
  {
    match rhs
    case Tuple(items) => Ok(if i.Some? && i.value < |items| then Some(items[i.value]) else None)
    case Dict(entries, self) =>
      if spec.key.None? then Ok(Some(self))
      else if spec.key.value in entries then Ok(Some(entries[spec.key.value]))
      else Err(KeyError)
    case List(self) => if spec.key.Some? then Err(TypeError) else Ok(Some(self))
    case Single(_) => if spec.key.Some? then Err(TypeError) else Err(AttributeError)
  }

  /** The decimal text of an int. */
  function IntText(n: int): seq<Unit> {
    SignPrefix(n, Flags(false, false, false, false, false)) + Digits(Abs(n), 10)
  }

  /** `str(o)` for a str format (lines 95-160): bytes are decoded by the
      runtime. */
  function StrText(o: Obj, host: Host): Result<seq<Unit>> {
    match o
    case Text(u) => Ok(u)
    case Byts(u) => host.decode(u)
    case Int(n) => Ok(IntText(n))
    case Bool(b) => Ok(if b then TRUE_TEXT else FALSE_TEXT)
    case NoneObj => Ok(NONE_TEXT)
    case Opaque(str, _) => Ok(str)
  }

  /** `bytes(o)` for a bytes format: the bytes constructor. */
  function BytesText(o: Obj): Result<seq<Unit>> {
    var b :- HexCodec.BytesOf(HexCodec.Given(o), None);
    if b.Built? then Ok(b.units) else Err(TypeError)
  }

  /** `repr(o)`. */
  function ReprText(o: Obj, host: Host): seq<Unit> {
    match o
    case Text(u) => ReprOf(Value(Str, u), host.py3).v
    case Byts(u) => ReprOf(Value(Bytes, u), host.py3).v
    case Int(n) => IntText(n)
    case Bool(b) => if b then TRUE_TEXT else FALSE_TEXT
    case NoneObj => NONE_TEXT
    case Opaque(_, repr) => repr
  }

  // ---------------------------------------------------------------------
  // the conversions (lines 1370-1458)

  /** The first `p` units, or all of them (`substr(0, p)`). */
  function Take(t: seq<Unit>, p: nat): (r: seq<Unit>)
    ensures |r| == Min(p, |t|) && r == t[..|r|]
  {
    t[..Min(p, |t|)]
  }

  function Upper(t: seq<Unit>): (r: seq<Unit>)
    ensures |r| == |t| && forall k :: 0 <= k < |t| ==> r[k] == ToUpper(t[k])
  {
    seq(|t|, k requires 0 <= k < |t| => ToUpper(t[k]))
  }

  /** `d`, `i`, `o`, `x`: an int argument formatted and brought to width;
      anything else is refused. */
  function IntegerConversion(spec: Spec, value: Option<Obj>, base: nat): (r: Result<seq<Unit>>)
    requires IsBase(base)
    ensures r.Err? <==> value.None? || !value.value.Int?
    ensures r.Err? ==> r.error == TypeError
    ensures r.Ok? ==> |r.value| >= WidthCount(spec.width)
  {
    if value.None? || !value.value.Int? then Err(TypeError)
    else
      var fl := FlagsOf(spec.flags);
      var pr := NumberOf(value.value.n, base, PrecisionCount(spec.precision), fl);
      Ok(WidthOf(pr.0, pr.1, spec.width, fl))
  }

  /** `c`: an int as the unit it codes (the host's `fromCharCode` keeps its
      low 16 bits), or the first unit of a str. */
  function CharConversion(value: Option<Obj>): (r: Result<seq<Unit>>)
    ensures r.Ok? ==> |r.value| <= 1
  {
    if value.None? then Err(TypeError)
    else
      match value.value
      case Int(n) => Ok([n % 0x1_0000])
      case Text(u) => Ok(u[..Min(1, |u|)])
      case _ => Err(TypeError)
  }

  /** `s`: the argument as the format's own class, cut to the precision; a
      width, when no precision cut it, goes through `handleWidth`. As
      written it gets a blank prefix and the `0` flag zero-fills it; meant
      is no prefix and blanks, as `0` applies to numbers only. A missing
      argument is the empty text, as the constructors make of
      `undefined`. */
  function StringConversion(kind: Kind, spec: Spec, value: Option<Obj>, host: Host, asWritten: bool): (r: Result<seq<Unit>>)
    ensures value.None? ==> r.Ok?
    ensures r.Ok? && PrecisionCount(spec.precision) > 0 ==> |r.value| <= PrecisionCount(spec.precision)
    ensures r.Ok? && PrecisionCount(spec.precision) == 0 ==> |r.value| >= WidthCount(spec.width)
  {
    var t :-
      if value.None? then Ok([])
      else if kind == Str then StrText(value.value, host)
      else BytesText(value.value);
    var prec := PrecisionCount(spec.precision);
    if prec > 0 then Ok(Take(t, prec))
    else if spec.width.NoWidth? then Ok(t)
    else
      var fl := FlagsOf(spec.flags);
      if asWritten then Ok(WidthOf([SPACE], t, spec.width, fl))
      else Ok(WidthOf([], t, spec.width, fl.(zeroPad := false)))
  }

  /** The conversions that format an int: `d`, `i`, `o`, `x`, `X`, and `u`
      once it is given its meaning. */
  predicate IsIntegerConversion(c: Unit, asWritten: bool) {
    || c == 'd' as int || c == 'i' as int || c == 'o' as int || c == 'x' as int || c == 'X' as int
    || (c == 'u' as int && !asWritten)
  }

  /** The text one specifier is replaced by. As written, `u` has no branch
      and the replacement is the text "undefined"; it is meant to be `d`. */
  function Convert(kind: Kind, spec: Spec, value: Option<Obj>, host: Host, asWritten: bool): (r: Result<seq<Unit>>)
    ensures spec.conv == PERCENT ==> r == Ok([PERCENT])
    ensures IsIntegerConversion(spec.conv, asWritten) && (value.None? || !value.value.Int?) ==> r == Err(TypeError)
  {
    var c := spec.conv;
    if c == 'd' as int || c == 'i' as int || (c == 'u' as int && !asWritten) then IntegerConversion(spec, value, 10)
    else if c == 'u' as int then Ok(UNDEFINED)
    else if c == 'o' as int then IntegerConversion(spec, value, 8)
    else if c == 'x' as int then IntegerConversion(spec, value, 16)
    else if c == 'X' as int then
      var t :- IntegerConversion(spec, value, 16);
      Ok(Upper(t))
    else if IsFloatConversion(c) then
      var t :- host.floatText(value, spec);
      Ok(WidthOf([], t, spec.width, FlagsOf(spec.flags)))
    else if c == 'c' as int then CharConversion(value)
    else if c == 'r' as int then
      if value.None? then Err(TypeError)
      else
        var t := ReprText(value.value, host);
        var prec := PrecisionCount(spec.precision);
        Ok(if prec > 0 then Take(t, prec) else t)
    else if c == 's' as int then StringConversion(kind, spec, value, host, asWritten)
    else Ok([PERCENT])
  }

  // ---------------------------------------------------------------------
  // the replace loop

  /** The output for `f[p..]` with `index` positional arguments used so
      far: each specifier is replaced by its conversion, every other unit is
      kept, and the first error raised ends it. */
  function FormatFrom(kind: Kind, f: seq<Unit>, p: nat, index: nat, rhs: Rhs, host: Host, asWritten: bool): Result<seq<Unit>>
    requires p <= |f|
    decreases |f| - p
  {
    if p == |f| then Ok([])
    else if f[p] == PERCENT && Scan(f, p).Some? then
      var spec := Scan(f, p).value.0;
      var e := Scan(f, p).value.1;
      var value :- ValueFor(rhs, spec, if Consumes(spec) then Some(index) else None);
      var out :- Convert(kind, spec, value, host, asWritten);
      var rest :- FormatFrom(kind, f, e, if Consumes(spec) then index + 1 else index, rhs, host, asWritten);
      Ok(out + rest)
    else
      var rest :- FormatFrom(kind, f, p + 1, index, rhs, host, asWritten);
      Ok([f[p]] + rest)
  }

  function FormatUnder(self: Value, rhs: Rhs, host: Host, asWritten: bool): (r: Result<Value>)
    ensures r.Ok? ==> r.value.kind == self.kind
    ensures PERCENT !in self.v ==> r == Ok(self)
  {
    assert PERCENT !in self.v ==> FormatFrom(self.kind, self.v, 0, 0, Wrapped(rhs), host, asWritten) == Ok(self.v[0..]) by {
      if PERCENT !in self.v {
        PlainTextKept(self.kind, self.v, 0, 0, Wrapped(rhs), host, asWritten);
      }
    }
    var out :- FormatFrom(self.kind, self.v, 0, 0, Wrapped(rhs), host, asWritten);
    Ok(Value(self.kind, out))
  }

  /** `self % rhs` as written. */
  function FormatAsWritten(self: Value, rhs: Rhs, host: Host): (r: Result<Value>)
    ensures r.Ok? ==> r.value.kind == self.kind
    ensures PERCENT !in self.v ==> r == Ok(self)
  {
    FormatUnder(self, rhs, host, true)
  }

  /** `self % rhs`. */
  function FormatOf(self: Value, rhs: Rhs, host: Host): (r: Result<Value>)
    ensures r.Ok? ==> r.value.kind == self.kind
    ensures PERCENT !in self.v ==> r == Ok(self)
  {
    FormatUnder(self, rhs, host, false)
  }

  // ---------------------------------------------------------------------
  // properties

  /** Text without a `%` comes out unchanged. */
  lemma {:induction false} PlainTextKept(kind: Kind, f: seq<Unit>, p: nat, index: nat, rhs: Rhs, host: Host, asWritten: bool)
    requires p <= |f|
    requires forall k :: p <= k < |f| ==> f[k] != PERCENT
    ensures FormatFrom(kind, f, p, index, rhs, host, asWritten) == Ok(f[p..])
    decreases |f| - p
  {
    if p < |f| {
      PlainTextKept(kind, f, p + 1, index, rhs, host, asWritten);
      LiteralStep(kind, f, p, index, rhs, host, asWritten);
      assert [f[p]] + f[p + 1..] == f[p..];
    } else {
      assert f[p..] == [];
    }
  }

  /** A unit other than `%` is copied and formatting goes on after it. */
  lemma LiteralStep(kind: Kind, f: seq<Unit>, p: nat, index: nat, rhs: Rhs, host: Host, asWritten: bool)
    requires p < |f| && f[p] != PERCENT
    ensures var rest := FormatFrom(kind, f, p + 1, index, rhs, host, asWritten);
      rest.Ok? ==> FormatFrom(kind, f, p, index, rhs, host, asWritten) == Ok([f[p]] + rest.value)
  {
  }

  /** `%%` gives one `%` and uses no argument: what follows is formatted
      with the same argument position. */
  lemma PercentPercent(kind: Kind, f: seq<Unit>, p: nat, index: nat, rhs: Rhs, host: Host, asWritten: bool)
    requires p + 2 <= |f| && f[p] == PERCENT && f[p + 1] == PERCENT
    requires !rhs.Single?
    ensures var rest := FormatFrom(kind, f, p + 2, index, rhs, host, asWritten);
      FormatFrom(kind, f, p, index, rhs, host, asWritten)
        == if rest.Ok? then Ok([PERCENT] + rest.value) else rest
  {
    var spec := Spec(None, [], NoWidth, NoPrecision, PERCENT);
    PercentScan(f, p);
    assert !Consumes(spec);
    var value := ValueFor(rhs, spec, None);
    assert value.Ok?;
    assert Convert(kind, spec, value.value, host, asWritten) == Ok([PERCENT]);
  }

  /** `%%` reads as the conversion `%` with nothing else. */
  lemma PercentScan(f: seq<Unit>, p: nat)
    requires p + 2 <= |f| && f[p] == PERCENT && f[p + 1] == PERCENT
    ensures Scan(f, p) == Some((Spec(None, [], NoWidth, NoPrecision, PERCENT), p + 2))
  {
    assert KeyAt(f, p + 1) == (None, p + 1);
    assert RunEnd(f, p + 1, IsFlag) == p + 1;
    assert WidthAt(f, p + 1) == (NoWidth, p + 1);
    assert PrecisionAt(f, p + 1) == (NoPrecision, p + 1);
    assert IsConversion(PERCENT) && !IsLengthModifier(PERCENT);
    assert f[p + 1..p + 1] == [];
  }

  /** Positional specifiers take the tuple's items in order:
      `"%s%s" % (a, b)` is `a + b`. */
  lemma ArgumentsInOrder(a: seq<Unit>, b: seq<Unit>, host: Host, asWritten: bool)
    ensures FormatUnder(Value(Str, [PERCENT, 's' as int, PERCENT, 's' as int]), Tuple([Text(a), Text(b)]), host, asWritten)
      == Ok(Value(Str, a + b))
  {
    var f: seq<Unit> := [PERCENT, 's' as int, PERCENT, 's' as int];
    var rhs := Tuple([Text(a), Text(b)]);
    var spec := Spec(None, [], NoWidth, NoPrecision, 's' as int);
    assert IsConversion('s' as int);
    assert Scan(f, 0) == Some((spec, 2)) by {
      assert KeyAt(f, 1) == (None, 1);
      assert RunEnd(f, 1, IsFlag) == 1;
      assert WidthAt(f, 1) == (NoWidth, 1);
      assert PrecisionAt(f, 1) == (NoPrecision, 1);
      assert !IsLengthModifier('s' as int) && f[1..1] == [];
    }
    assert Scan(f, 2) == Some((spec, 4)) by {
      assert KeyAt(f, 3) == (None, 3);
      assert RunEnd(f, 3, IsFlag) == 3;
      assert WidthAt(f, 3) == (NoWidth, 3);
      assert PrecisionAt(f, 3) == (NoPrecision, 3);
      assert !IsLengthModifier('s' as int) && f[3..3] == [];
    }
    assert FormatFrom(Str, f, 4, 2, rhs, host, asWritten) == Ok([]);
    assert FormatFrom(Str, f, 2, 1, rhs, host, asWritten) == Ok(b + []);
    assert FormatFrom(Str, f, 0, 0, rhs, host, asWritten) == Ok(a + (b + []));
    assert a + (b + []) == a + b;
  }

  /** A missing argument for `%s` is the empty text: `"%s" % ()` is `""`. */
  lemma MissingStringArgument(host: Host)
    ensures FormatOf(Value(Str, [PERCENT, 's' as int]), Tuple([]), host) == Ok(Value(Str, []))
  {
    var f: seq<Unit> := [PERCENT, 's' as int];
    assert IsConversion('s' as int);
    assert Scan(f, 0) == Some((Spec(None, [], NoWidth, NoPrecision, 's' as int), 2)) by {
      assert KeyAt(f, 1) == (None, 1);
      assert RunEnd(f, 1, IsFlag) == 1;
      assert WidthAt(f, 1) == (NoWidth, 1);
      assert PrecisionAt(f, 1) == (NoPrecision, 1);
      assert !IsLengthModifier('s' as int) && f[1..1] == [];
    }
    var spec := Spec(None, [], NoWidth, NoPrecision, 's' as int);
    assert Convert(Str, spec, None, host, false) == Ok([]);
    assert FormatFrom(Str, f, 2, 1, Tuple([]), host, false) == Ok([]);
    assert FormatFrom(Str, f, 0, 0, Tuple([]), host, false) == Ok([] + []);
    var none: seq<Unit> := [];
    assert none + none == none;
    assert Wrapped(Tuple([])) == Tuple([]);
    assert FormatUnder(Value(Str, f), Tuple([]), host, false) == Ok(Value(Str, []));
  }

  /** With a width and no precision, `%s` gives the text padded with blanks
      to the width, on the left, or on the right under `-`. */
  lemma StringWidth(spec: Spec, u: seq<Unit>, host: Host)
    requires spec.conv == 's' as int && PrecisionCount(spec.precision) == 0
    requires spec.width.WidthDigits?
    ensures var r := StringConversion(Str, spec, Some(Text(u)), host, false);
      var pad := Fill(SPACE, spec.width.w - |u|);
      && r.Ok?
      && |r.value| == Max(spec.width.w, |u|)
      && r.value == if MINUS in spec.flags then u + pad else pad + u
  {
    var fl := FlagsOf(spec.flags).(zeroPad := false);
    var none: seq<Unit> := [];
    assert StrText(Text(u), host) == Ok(u);
    assert StringConversion(Str, spec, Some(Text(u)), host, false) == Ok(WidthOf(none, u, spec.width, fl));
    BlankPadded(u, spec.width, fl);
  }

  /** Text with no prefix, padded with blanks to a width. */
  lemma BlankPadded(u: seq<Unit>, width: Width, fl: Flags)
    requires width.WidthDigits? && !fl.zeroPad
    ensures var pad := Fill(SPACE, width.w - |u|);
      && |WidthOf([], u, width, fl)| == Max(width.w, |u|)
      && WidthOf([], u, width, fl) == if fl.leftAdjust then u + pad else pad + u
  {
    var none: seq<Unit> := [];
    WidthShape(none, u, width, fl);
    var pad := Fill(SPACE, width.w - |u|);
    FillMax(SPACE, width.w - |u|);
    assert none + u == u;
    assert pad + none + u == pad + u;
  }

  /** A negative count fills nothing, like a zero one. */
  lemma FillMax(u: Unit, n: int)
    ensures Fill(u, n) == Fill(u, Max(n, 0))
  {
  }

  /** `"%2s" % "ab"`: as written `" ab"`, the blank given to `handleWidth`
      kept in front although the text already fills the width; meant to be
      `"ab"`. */
  lemma StrayBlank(host: Host)
    ensures FormatAsWritten(Value(Str, [PERCENT, '2' as int, 's' as int]), Single(Text([97, 98])), host)
      == Ok(Value(Str, [SPACE, 97, 98]))
    ensures FormatOf(Value(Str, [PERCENT, '2' as int, 's' as int]), Single(Text([97, 98])), host)
      == Ok(Value(Str, [97, 98]))
  {
    var f: seq<Unit> := [PERCENT, '2' as int, 's' as int];
    var rhs := Tuple([Text([97, 98])]);
    var spec := Spec(None, [], WidthDigits(2), NoPrecision, 's' as int);
    TwoWideScan();
    TwoWideConvert(host);
    var none: seq<Unit> := [];
    assert FormatFrom(Str, f, 3, 1, rhs, host, true) == Ok([]);
    assert FormatFrom(Str, f, 3, 1, rhs, host, false) == Ok([]);
    assert ValueFor(rhs, spec, Some(0)) == Ok(Some(Text([97, 98])));
    assert FormatFrom(Str, f, 0, 0, rhs, host, true) == Ok([SPACE, 97, 98] + none);
    assert FormatFrom(Str, f, 0, 0, rhs, host, false) == Ok([97, 98] + none);
    assert [SPACE, 97, 98] + none == [SPACE, 97, 98];
    assert [97, 98] + none == [97, 98];
  }

  /** `%2s` reads as a width of two and no precision. */
  lemma TwoWideScan()
    ensures Scan([PERCENT, '2' as int, 's' as int], 0) == Some((Spec(None, [], WidthDigits(2), NoPrecision, 's' as int), 3))
  {
    var f: seq<Unit> := [PERCENT, '2' as int, 's' as int];
    assert KeyAt(f, 1) == (None, 1);
    assert RunEnd(f, 1, IsFlag) == 1;
    assert RunEnd(f, 1, IsDigit) == 2;
    assert f[1..2] == ['2' as int];
    assert Decimal(f[1..2]) == 2 by {
      assert f[1..2][..0] == [];
    }
    assert WidthAt(f, 1) == (WidthDigits(2), 2);
    assert PrecisionAt(f, 2) == (NoPrecision, 2);
    assert !IsLengthModifier('s' as int) && IsConversion('s' as int) && f[1..1] == [];
  }

  /** `%2s` of "ab", as written and as meant. */
  lemma TwoWideConvert(host: Host)
    ensures var spec := Spec(None, [], WidthDigits(2), NoPrecision, 's' as int);
      && Convert(Str, spec, Some(Text([97, 98])), host, true) == Ok([SPACE, 97, 98])
      && Convert(Str, spec, Some(Text([97, 98])), host, false) == Ok([97, 98])
  {
    var spec := Spec(None, [], WidthDigits(2), NoPrecision, 's' as int);
    var fl := FlagsOf([]);
    assert !fl.zeroPad && !fl.leftAdjust;
    assert Fill(SPACE, 2 - 3) == [] && Fill(SPACE, 2 - 2) == [];
    var none: seq<Unit> := [];
    assert WidthOf([SPACE], [97, 98], spec.width, fl) == none + [SPACE] + [97, 98] == [SPACE, 97, 98];
    assert WidthOf([], [97, 98], spec.width, fl) == none + none + [97, 98] == [97, 98];
    assert StrText(Text([97, 98]), host) == Ok([97, 98]);
    assert FlagsOf(spec.flags) == fl;
    assert StringConversion(Str, spec, Some(Text([97, 98])), host, true) == Ok([SPACE, 97, 98]);
    assert StringConversion(Str, spec, Some(Text([97, 98])), host, false) == Ok([97, 98]);
  }

  /** `"%05s" % "ab"`: as written `" 00ab"`, the blank prefix and then
      zeros; meant to be `"   ab"`, as `0` pads numbers only. */
  lemma ZeroFlagString(host: Host)
    ensures var spec := Spec(None, [ZERO], WidthDigits(5), NoPrecision, 's' as int);
      && Convert(Str, spec, Some(Text([97, 98])), host, true) == Ok([SPACE, ZERO, ZERO, 97, 98])
      && Convert(Str, spec, Some(Text([97, 98])), host, false) == Ok([SPACE, SPACE, SPACE, 97, 98])
  {
    var spec := Spec(None, [ZERO], WidthDigits(5), NoPrecision, 's' as int);
    var fl := FlagsOf([ZERO]);
    assert fl.zeroPad && !fl.leftAdjust;
    assert Fill(ZERO, 5 - 3) == [ZERO, ZERO];
    assert Fill(SPACE, 5 - 2) == [SPACE, SPACE, SPACE];
    var none: seq<Unit> := [];
    assert WidthOf([SPACE], [97, 98], spec.width, fl) == [SPACE] + [ZERO, ZERO] + [97, 98];
    assert WidthOf([], [97, 98], spec.width, fl.(zeroPad := false)) == [SPACE, SPACE, SPACE] + none + [97, 98];
    assert [SPACE] + [ZERO, ZERO] + [97, 98] == [SPACE, ZERO, ZERO, 97, 98];
    assert [SPACE, SPACE, SPACE] + none + [97, 98] == [SPACE, SPACE, SPACE, 97, 98];
    assert StrText(Text([97, 98]), host) == Ok([97, 98]);
    assert FlagsOf(spec.flags) == fl && PrecisionCount(spec.precision) == 0;
    assert StringConversion(Str, spec, Some(Text([97, 98])), host, true) == Ok([SPACE, ZERO, ZERO, 97, 98]);
    assert StringConversion(Str, spec, Some(Text([97, 98])), host, false) == Ok([SPACE, SPACE, SPACE, 97, 98]);
  }

  /** `"%u" % 5`: as written the text "undefined", as `u` has no branch and
      the replacement function returns nothing; meant to be `"5"`, as `%d`
      gives. */
  lemma PercentU(host: Host)
    ensures FormatAsWritten(Value(Str, [PERCENT, 'u' as int]), Single(Int(5)), host)
      == Ok(Value(Str, UNDEFINED))
    ensures FormatOf(Value(Str, [PERCENT, 'u' as int]), Single(Int(5)), host)
      == Ok(Value(Str, ['5' as int]))
  {
    var f: seq<Unit> := [PERCENT, 'u' as int];
    var rhs := Tuple([Int(5)]);
    var spec := Spec(None, [], NoWidth, NoPrecision, 'u' as int);
    PercentUScan();
    PercentUConvert(host);
    var none: seq<Unit> := [];
    assert FormatFrom(Str, f, 2, 1, rhs, host, true) == Ok([]);
    assert FormatFrom(Str, f, 2, 1, rhs, host, false) == Ok([]);
    assert ValueFor(rhs, spec, Some(0)) == Ok(Some(Int(5)));
    assert FormatFrom(Str, f, 0, 0, rhs, host, true) == Ok(UNDEFINED + none);
    assert FormatFrom(Str, f, 0, 0, rhs, host, false) == Ok(['5' as int] + none);
    assert UNDEFINED + none == UNDEFINED;
    assert ['5' as int] + none == ['5' as int];
  }

  /** `%u` reads as the conversion `u` with nothing else. */
  lemma PercentUScan()
    ensures Scan([PERCENT, 'u' as int], 0) == Some((Spec(None, [], NoWidth, NoPrecision, 'u' as int), 2))
  {
    var f: seq<Unit> := [PERCENT, 'u' as int];
    assert KeyAt(f, 1) == (None, 1);
    assert RunEnd(f, 1, IsFlag) == 1;
    assert WidthAt(f, 1) == (NoWidth, 1);
    assert PrecisionAt(f, 1) == (NoPrecision, 1);
    assert !IsLengthModifier('u' as int) && IsConversion('u' as int) && f[1..1] == [];
  }

  /** `%u` of 5, as written and as meant. */
  lemma PercentUConvert(host: Host)
    ensures var spec := Spec(None, [], NoWidth, NoPrecision, 'u' as int);
      && Convert(Str, spec, Some(Int(5)), host, true) == Ok(UNDEFINED)
      && Convert(Str, spec, Some(Int(5)), host, false) == Ok(['5' as int])
  {
    var spec := Spec(None, [], NoWidth, NoPrecision, 'u' as int);
    var none: seq<Unit> := [];
    assert Digits(5, 10) == ['5' as int];
    var fl := FlagsOf([]);
    assert !fl.alternate && !fl.sign && !fl.blank;
    assert SignPrefix(5, fl) == [];
    assert Fill(ZERO, 0 - 1) + ['5' as int] == ['5' as int];
    assert NumberOf(5, 10, 0, fl) == (none + none, ['5' as int]);
    assert WidthOf(none + none, ['5' as int], NoWidth, fl) == ['5' as int];
  }
}
