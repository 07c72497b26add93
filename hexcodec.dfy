/** The bytes constructor (str.js lines 8-80), the encoding-name check of
    `encode` and `decode` (lines 1106-1148), and the hex codec `fromhex` /
    `hex` (lines 1150-1176). A bytes value keeps one byte per 16-bit unit;
    everything here keeps every unit at or below 0xFF. */
module HexCodec {
  import opened Base
  import opened Chars
  import opened Repr

  /** The bytes invariant: every unit fits in a byte. */
  predicate InByteRange(v: seq<Unit>) {
    forall k :: 0 <= k < |v| ==> v[k] <= 0xFF
  }

  // ---------------------------------------------------------------------
  // the encoding name

  /** Every ASCII letter lower-cased. */
  function Lowered(s: seq<Unit>): (r: seq<Unit>)
    ensures |r| == |s|
    ensures forall k :: 0 <= k < |s| ==> r[k] == ToLower(s[k])
  {
    seq(|s|, k requires 0 <= k < |s| => ToLower(s[k]))
  }

  /** The test `/^utf-?8$/i`. */
  predicate IsUtf8Name(n: seq<Unit>) {
    && (|n| == 4 || (|n| == 5 && n[3] == MINUS))
    && ToLower(n[0]) == 'u' as int
    && ToLower(n[1]) == 't' as int
    && ToLower(n[2]) == 'f' as int
    && n[|n| - 1] == '8' as int
  }

  /** The names accepted are `utf8` and `utf-8` in any mix of cases. */
  lemma Utf8Names(n: seq<Unit>)
    ensures IsUtf8Name(n) <==> (Lowered(n) == Ascii("utf8") || Lowered(n) == Ascii("utf-8"))
  {
    var l := Lowered(n);
    if l == Ascii("utf8") || l == Ascii("utf-8") {
      assert l[|l| - 1] == '8' as int;
      assert ToLower(n[|n| - 1]) == '8' as int;
      if |n| == 5 {
        assert ToLower(n[3]) == MINUS;
      }
    }
    if IsUtf8Name(n) {
      if |n| == 4 {
        assert l == Ascii("utf8");
      } else {
        assert l == Ascii("utf-8");
      }
    }
  }

  /** The check `encode` and `decode` make of a given encoding (lines
      1113-1118 and 1136-1141): a non-str is a TypeError, a name other than
      UTF-8 a ValueError. */
  function EncodingCheck(encoding: Option<Obj>): (r: Result<()>)
    ensures r.Ok? <==> encoding.None? || (encoding.value.Text? && IsUtf8Name(encoding.value.units))
    ensures r.Err? && encoding.value.Text? ==> r.error == ValueError
    ensures r.Err? && !encoding.value.Text? ==> r.error == TypeError
  {
    if encoding.None? then Ok(())
    else if !encoding.value.Text? then Err(TypeError)
    else if !IsUtf8Name(encoding.value.units) then Err(ValueError)
    else Ok(())
  }

  // ---------------------------------------------------------------------
  // the bytes constructor

  /** What `bytes(source)` is given: nothing, one object, or the items an
      iterable yields. */
  datatype Source = Absent | Given(o: Obj) | Items(items: seq<Obj>)

  /** A constructed bytes value, or a str handed to `str.encode` with a
      UTF-8 encoding name. */
  datatype Built = Built(units: seq<Unit>) | Encoded(text: seq<Unit>)

  /** The iterable branch (lines 40-55): each item must be an int (else a
      TypeError) in 0..255 (else a ValueError); the first bad item decides. */
  function ItemsUnits(xs: seq<Obj>): (r: Result<seq<Unit>>)
    ensures r.Ok? <==> forall k :: 0 <= k < |xs| ==> xs[k].Int? && 0 <= xs[k].n <= 0xFF
    ensures r.Ok? ==> |r.value| == |xs| && forall k :: 0 <= k < |xs| ==> r.value[k] == xs[k].n
    ensures r.Err? ==> exists k :: 0 <= k < |xs| && (forall j :: 0 <= j < k ==> xs[j].Int? && 0 <= xs[j].n <= 0xFF)
                                 && r.error == (if xs[k].Int? then ValueError else TypeError)
  {
    if xs == [] then Ok([])
    else if !xs[0].Int? then Err(TypeError)
    else if !(0 <= xs[0].n <= 0xFF) then Err(ValueError)
    else
      var rest :- ItemsUnits(xs[1..]);
      Ok([xs[0].n] + rest)
  }

  /** `bytes(source, encoding)`: a str needs a str encoding and goes to
      `encode`; an int `n` gives `n` zero bytes (the host's `repeat` refuses a
      negative count); a bytes value is copied; any other object is refused
      as not iterable. An encoding given with a non-str source is a
      TypeError, and a unit above 0xFF a ValueError. */
  function BytesOf(source: Source, encoding: Option<Obj>): (r: Result<Built>)
    ensures r.Ok? && r.value.Built? ==> InByteRange(r.value.units)
  {
    if source.Given? && source.o.Text? then
      if encoding.None? || !encoding.value.Text? then Err(TypeError)
      else
        var _ :- EncodingCheck(encoding);
        Ok(Encoded(source.o.units))
    else
      var units :- Gathered(source);
      if encoding.Some? then Err(TypeError)
      else if !InByteRange(units) then Err(ValueError)
      else Ok(Built(units))
  }

  /** The units a non-str source stands for, before the checks that follow. */
  function Gathered(source: Source): Result<seq<Unit>>
    requires !(source.Given? && source.o.Text?)
  {
    match source
    case Absent => Ok([])
    case Items(xs) => ItemsUnits(xs)
    case Given(o) =>
      match o
      case Int(n) => if n < 0 then Err(RangeError) else Ok(Fill(0, n))
      case Byts(u) => Ok(u)
      case _ => Err(TypeError)
  }

  /** Without an encoding, the constructor accepts exactly: nothing, a
      non-negative int, bytes within range, and items that are all ints in
      0..255; the result holds those bytes. The range check at the end can
      only fail for a bytes source that already breaks the invariant. */
  lemma BytesAccepted(source: Source)
    ensures var r := BytesOf(source, None);
      && (r.Ok? <==> match source
                     case Absent => true
                     case Items(xs) => forall k :: 0 <= k < |xs| ==> xs[k].Int? && 0 <= xs[k].n <= 0xFF
                     case Given(o) => (o.Int? && o.n >= 0) || (o.Byts? && InByteRange(o.units)))
      && (r.Ok? ==> r.value.Built?)
      && (r.Ok? && source.Items? ==> r.value.units == seq(|source.items|, k requires 0 <= k < |source.items| => source.items[k].n))
      && (r.Ok? && source.Given? && source.o.Byts? ==> r.value.units == source.o.units)
      && (r.Ok? && source.Given? && source.o.Int? ==> r.value.units == Fill(0, source.o.n))
  {
  }

  /** An encoding is accepted only with a str source, and then only a UTF-8
      name; what `encode` does with it is outside this model. */
  lemma EncodingNeedsText(source: Source, e: Obj)
    ensures BytesOf(source, Some(e)).Ok? <==> source.Given? && source.o.Text? && e.Text? && IsUtf8Name(e.units)
    ensures !(source.Given? && source.o.Text?) && Gathered(source).Ok? ==> BytesOf(source, Some(e)) == Err(TypeError)
  {
  }

  // ---------------------------------------------------------------------
  // hex

  predicate IsLowerHex(u: Unit) {
    IsDigit(u) || 'a' as int <= u <= 'f' as int
  }

  /** The two hex digits of a unit: `("0" + code.toString(16)).substr(-2)`
      keeps the last two lower-case digits, which is `HexOf(code, 2)`. */
  function HexText(v: seq<Unit>): seq<Unit>
  {
    if v == [] then [] else HexOf(v[0], 2) + HexText(v[1..])
  }

  lemma {:induction false} HexTextAppend(a: seq<Unit>, b: seq<Unit>)
    ensures HexText(a + b) == HexText(a) + HexText(b)
    decreases |a|
  {
    if a != [] {
      assert (a + b)[1..] == a[1..] + b;
      HexTextAppend(a[1..], b);
    } else {
      assert a + b == b;
    }
  }

  /** `hex` (lines 1168-1176): the loop appends two digits per unit. */
  method Hex(self: Value) returns (r: Value)
    ensures r == Value(Str, HexText(self.v))
  {
    var out: seq<Unit> := [];
    var i := 0;
    while i < |self.v|
      invariant 0 <= i <= |self.v|
      invariant out == HexText(self.v[..i])
    {
      HexTextAppend(self.v[..i], [self.v[i]]);
      assert self.v[..i + 1] == self.v[..i] + [self.v[i]];
      out := out + HexOf(self.v[i], 2);
      i := i + 1;
    }
    assert self.v[..i] == self.v;
    r := Value(Str, out);
  }

  lemma {:induction false} HexDigitLower(d: nat)
    requires d < 16
    ensures IsLowerHex(HexDigit(d))
  {
  }

  lemma {:induction false} HexOfLower(n: nat, w: nat)
    ensures forall k :: 0 <= k < w ==> IsLowerHex(HexOf(n, w)[k])
  {
    if w > 0 {
      HexOfLower(n / 16, w - 1);
      HexDigitLower(n % 16);
    }
  }

  /** `hex` gives two lower-case hex digits per unit, unit `k` at offsets
      `2k` and `2k+1`. */
  lemma {:induction false} HexShape(v: seq<Unit>)
    ensures |HexText(v)| == 2 * |v|
    ensures forall k :: 0 <= k < |HexText(v)| ==> IsLowerHex(HexText(v)[k])
    ensures forall k :: 0 <= k < |v| ==> HexText(v)[2 * k..2 * k + 2] == HexOf(v[k], 2)
  {
    if v != [] {
      HexShape(v[1..]);
      HexOfLower(v[0], 2);
      var h := HexText(v);
      var t := HexText(v[1..]);
      assert h == HexOf(v[0], 2) + t;
      forall k | 0 <= k < |v|
        ensures h[2 * k..2 * k + 2] == HexOf(v[k], 2)
      {
        if k > 0 {
          assert h[2 * k..2 * k + 2] == t[2 * (k - 1)..2 * (k - 1) + 2];
        }
      }
    }
  }

  // ---------------------------------------------------------------------
  // fromhex

  /** The units left once every `\s` unit is removed, as the global
      replace of line 1156 does. */
  function Compact(h: seq<Unit>): (r: seq<Unit>)
    ensures |r| <= |h|
    ensures forall k :: 0 <= k < |r| ==> !IsSpace(r[k])
    ensures (forall k :: 0 <= k < |h| ==> !IsSpace(h[k])) ==> r == h
  {
    if h == [] then []
    else if IsSpace(h[0]) then Compact(h[1..])
    else [h[0]] + Compact(h[1..])
  }

  /** The byte a pair of hex digits stands for. */
  function PairValue(a: Unit, b: Unit): (n: Unit)
    requires IsHexDigit(a) && IsHexDigit(b)
    ensures n <= 0xFF
  {
    HexValue(a) * 16 + HexValue(b)
  }

  /** Reading whitespace-free hex text two digits at a time: a short last
      piece or a non-hex digit is a ValueError. */
  function Pairs(h: seq<Unit>): (r: Result<seq<Unit>>)
    ensures r.Ok? <==> |h| % 2 == 0 && forall k :: 0 <= k < |h| ==> IsHexDigit(h[k])
    ensures r.Err? ==> r.error == ValueError
    ensures r.Ok? ==> 2 * |r.value| == |h| && InByteRange(r.value)
    decreases |h|
  {
    if h == [] then Ok([])
    else if |h| < 2 || !IsHexDigit(h[0]) || !IsHexDigit(h[1]) then Err(ValueError)
    else
      var rest :- Pairs(h[2..]);
      Ok([PairValue(h[0], h[1])] + rest)
  }

  /** `bytes.fromhex(hex)` (lines 1150-1166): a str (else a TypeError),
      read without its whitespace. */
  function FromHexOf(hex: Obj): (r: Result<Value>)
    ensures r.Err? <==> !hex.Text? || Pairs(Compact(hex.units)).Err?
    ensures r.Err? ==> r.error == (if hex.Text? then ValueError else TypeError)
    ensures r.Ok? ==> r.value.kind == Bytes && InByteRange(r.value.v)
  {
    if !hex.Text? then Err(TypeError)
    else
      var units :- Pairs(Compact(hex.units));
      Ok(Value(Bytes, units))
  }

  /** `v` followed by what `r` holds, or `r`'s error. */
  function Then(v: seq<Unit>, r: Result<seq<Unit>>): Result<seq<Unit>> {
    if r.Ok? then Ok(v + r.value) else r
  }

  lemma ThenThen(v: seq<Unit>, w: seq<Unit>, r: Result<seq<Unit>>)
    ensures Then(v, Then(w, r)) == Then(v + w, r)
  {
    if r.Ok? {
      AppendAssoc(v, w, r.value);
    }
  }

  /** The loop of lines 1158-1165, two digits at a time. */
  method FromHex(hex: Obj) returns (r: Result<Value>)
    ensures r == FromHexOf(hex)
  {
    if !hex.Text? {
      return Err(TypeError);
    }
    var h := Compact(hex.units);
    var v: seq<Unit> := [];
    var i := 0;
    assert h[0..] == h;
    if Pairs(h).Ok? {
      assert [] + Pairs(h).value == Pairs(h).value;
    }
    while i < |h|
      invariant 0 <= i <= |h|
      invariant Pairs(h) == Then(v, Pairs(h[i..]))
      decreases |h| - i
    {
      if i + 2 > |h| || !IsHexDigit(h[i]) || !IsHexDigit(h[i + 1]) {
        assert Pairs(h[i..]) == Err(ValueError);
        return Err(ValueError);
      }
      var n := PairValue(h[i], h[i + 1]);
      assert h[i..][2..] == h[i + 2..];
      assert Pairs(h[i..]) == Then([n], Pairs(h[i + 2..]));
      ThenThen(v, [n], Pairs(h[i + 2..]));
      v := v + [n];
      i := i + 2;
    }
    assert h[i..] == [];
    assert v + [] == v;
    r := Ok(Value(Bytes, v));
  }

  /** Reading back the hex of a value within the bytes range gives the
      value. */
  lemma {:induction false} PairsOfHex(v: seq<Unit>)
    requires InByteRange(v)
    ensures Pairs(HexText(v)) == Ok(v)
  {
    if v != [] {
      var d := HexOf(v[0], 2);
      HexShape(v);
      HexShape(v[1..]);
      var h := HexText(v);
      assert h == d + HexText(v[1..]);
      assert h[2..] == HexText(v[1..]);
      ParseHexOf(v[0], 2);
      assert ParseHex(d) == ParseHex(d[..1]) * 16 + HexValue(d[1]);
      assert d[..1][..0] == [];
      assert IsHexDigit(h[0]) && IsHexDigit(h[1]);
      assert PairValue(h[0], h[1]) == v[0];
      PairsOfHex(v[1..]);
      assert Pairs(h) == Ok([v[0]] + v[1..]);
      assert [v[0]] + v[1..] == v;
    }
  }

  /** `bytes.fromhex(b.hex()) == b` for every bytes value. */
  lemma FromHexOfHex(b: seq<Unit>)
    requires InByteRange(b)
    ensures FromHexOf(Text(HexText(b))) == Ok(Value(Bytes, b))
  {
    HexShape(b);
    HexOfLower(0, 0);
    assert forall k :: 0 <= k < |HexText(b)| ==> !IsSpace(HexText(b)[k]);
    PairsOfHex(b);
  }

  /** A hex digit's value, written back, is the digit in lower case. */
  lemma DigitBack(u: Unit)
    requires IsHexDigit(u)
    ensures HexDigit(HexValue(u)) == ToLower(u)
  {
  }

  /** Two base-16 digits split back apart by `/ 16` and `% 16`. */
  lemma SplitByte(x: nat, y: nat)
    requires x < 16 && y < 16
    ensures (x * 16 + y) / 16 == x && (x * 16 + y) % 16 == y
  {
  }

  /** A hex pair read as a byte and written back is the pair lower-cased. */
  lemma PairBack(a: Unit, b: Unit)
    requires IsHexDigit(a) && IsHexDigit(b)
    ensures HexOf(PairValue(a, b), 2) == [ToLower(a), ToLower(b)]
  {
    var x, y := HexValue(a), HexValue(b);
    SplitByte(x, y);
    SplitByte(0, x);
    DigitBack(a);
    DigitBack(b);
    assert HexOf(x * 16 + y, 2) == HexOf(x, 1) + [HexDigit(y)];
    assert HexOf(x, 1) == HexOf(0, 0) + [HexDigit(x)];
  }


  /** The other way round: `bytes.fromhex(s).hex()` is `s` without its
      whitespace, lower-cased. */
  lemma {:induction false} HexOfPairs(h: seq<Unit>)
    requires Pairs(h).Ok?
    ensures HexText(Pairs(h).value) == Lowered(h)
    decreases |h|
  {
    if h != [] {
      var rest := Pairs(h[2..]).value;
      HexOfPairs(h[2..]);
      PairBack(h[0], h[1]);
      assert Pairs(h).value == [PairValue(h[0], h[1])] + rest;
      assert Pairs(h).value[1..] == rest;
      assert Lowered(h) == [ToLower(h[0]), ToLower(h[1])] + Lowered(h[2..]);
    }
  }

  lemma HexOfFromHex(s: seq<Unit>)
    requires FromHexOf(Text(s)).Ok?
    ensures HexText(FromHexOf(Text(s)).value.v) == Lowered(Compact(s))
  {
    HexOfPairs(Compact(s));
  }
}
