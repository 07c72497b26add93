/** Values shared by every part of the model: storage units, the two sequence
    kinds, the objects that operations receive as arguments, and the error
    taxonomy the runtime raises. */
module Base {

  /** One storage unit: a UTF-16 code unit of a str, or one byte of a bytes
      value (a bytes value keeps its bytes in the same 16-bit units). */
  type Unit = x: int | 0 <= x < 0x1_0000

  /** The two value types that share one JS-string representation. */
  datatype Kind = Str | Bytes

  /** A str or bytes value: its kind and its units (the JS field `v`). */
  datatype Value = Value(kind: Kind, v: seq<Unit>)

  /** The Python objects an operation may receive as an argument. `Int` is an
      `int_`, an int the host holds exactly (|n| < 2^53); larger ints are not
      modelled. An object of any other type, a float included, is `Opaque`, carrying the text its `__str__` and
      `__repr__` produce (computed by the surrounding runtime). */
  datatype Obj =
    | Text(units: seq<Unit>)
    | Byts(units: seq<Unit>)
    | Int(n: int)
    | Bool(b: bool)
    | NoneObj
    | Opaque(str: seq<Unit>, repr: seq<Unit>)

  /** The exceptions raised by the core. `TypeErrorAt` is the TypeError of
      `join` whose message names the position of the offending item; `RangeError`
      is the host's own exception for a negative repeat count. */
  datatype Error =
    | TypeError
    | TypeErrorAt(position: nat)
    | ValueError
    | IndexError
    | KeyError
    | AttributeError
    | RangeError

  datatype Option<+T> = None | Some(value: T)

  datatype Result<+T> = Ok(value: T) | Err(error: Error) {
    predicate IsFailure() { Err? }
    function PropagateFailure<U>(): Result<U>
      requires Err?
    {
      Err(error)
    }
    function Extract(): T
      requires Ok?
    {
      value
    }
  }

  /** True when `o` is a str or bytes object of the given kind (the check
      `checkStringish` and the `__class__` comparisons of str.js). */
  predicate IsKind(o: Obj, k: Kind) {
    (o.Text? && k == Str) || (o.Byts? && k == Bytes)
  }

  /** The units of a str or bytes object (empty for any other object; the
      operations look at them only after checking the kind). */
  function UnitsOf(o: Obj): seq<Unit>
  {
    if o.Text? || o.Byts? then o.units else []
  }

  /** The object that wraps a value. */
  function AsObj(val: Value): (o: Obj)
    ensures IsKind(o, val.kind) && UnitsOf(o) == val.v
  {
    match val.kind
    case Str => Text(val.v)
    case Bytes => Byts(val.v)
  }

  /** The units of a JS string literal made of ASCII characters. */
  function Ascii(s: string): (r: seq<Unit>)
    requires forall i :: 0 <= i < |s| ==> s[i] as int < 0x80
    ensures |r| == |s|
    ensures forall i :: 0 <= i < |s| ==> r[i] == s[i] as int
  {
    seq(|s|, i requires 0 <= i < |s| => s[i] as int)
  }

  /** `n` copies of the unit `u` (the JS idiom `u.repeat(n)` for one unit). */
  function Fill(u: Unit, n: int): (r: seq<Unit>)
    ensures |r| == if n > 0 then n else 0
    ensures forall i :: 0 <= i < |r| ==> r[i] == u
  {
    if n <= 0 then [] else seq(n, _ => u)
  }

  /** The concatenation of a list of unit sequences. */
  function Flatten(parts: seq<seq<Unit>>): seq<Unit>
  {
    if parts == [] then [] else Flatten(parts[..|parts| - 1]) + parts[|parts| - 1]
  }

  lemma AppendAssoc<T>(a: seq<T>, b: seq<T>, c: seq<T>)
    ensures (a + b) + c == a + (b + c)
  {
  }

  /** A slice cut in two at `b`. */
  lemma SliceSplit<T>(s: seq<T>, a: nat, b: nat, c: nat)
    requires a <= b <= c <= |s|
    ensures s[a..c] == s[a..b] + s[b..c]
  {
  }

  /** A suffix cut in two at `k`. */
  lemma SuffixAt<T>(s: seq<T>, i: nat, k: nat)
    requires i <= k <= |s|
    ensures s[i..] == s[i..k] + s[k..]
  {
  }

  /** A suffix cut in three at `k` and `m`. */
  lemma SuffixSplit3<T>(s: seq<T>, i: nat, k: nat, m: nat)
    requires i <= k <= m <= |s|
    ensures s[i..] == s[i..k] + s[k..m] + s[m..]
  {
    SliceSplit(s, i, k, |s|);
    SliceSplit(s, k, m, |s|);
    assert s[i..] == s[i..k] + (s[k..m] + s[m..]);
  }

  /** A suffix cut in four at `k`, `m` and `j`. */
  lemma SuffixSplit<T>(s: seq<T>, i: nat, k: nat, m: nat, j: nat)
    requires i <= k <= m <= j <= |s|
    ensures s[i..] == s[i..k] + s[k..m] + s[m..j] + s[j..]
  {
    SliceSplit(s, i, k, |s|);
    SliceSplit(s, k, m, |s|);
    SliceSplit(s, m, j, |s|);
    assert s[i..] == s[i..k] + (s[k..m] + (s[m..j] + s[j..]));
  }

  lemma FlattenSnoc(parts: seq<seq<Unit>>, x: seq<Unit>)
    ensures Flatten(parts + [x]) == Flatten(parts) + x
  {
    assert (parts + [x])[..|parts|] == parts;
  }

  lemma {:induction false} FlattenAppend(a: seq<seq<Unit>>, b: seq<seq<Unit>>)
    ensures Flatten(a + b) == Flatten(a) + Flatten(b)
    decreases |b|
  {
    if b == [] {
      assert a + b == a;
    } else {
      var init, last := b[..|b| - 1], b[|b| - 1];
      assert (a + b)[..|a + b| - 1] == a + init;
      assert (a + b)[|a + b| - 1] == last;
      FlattenAppend(a, init);
      assert Flatten(b) == Flatten(init) + last;
      AppendAssoc(Flatten(a), Flatten(init), last);
    }
  }

  /** JS `Array.prototype.join`: the parts separated by `sep`. */
  function JoinWith(parts: seq<seq<Unit>>, sep: seq<Unit>): seq<Unit>
  {
    if parts == [] then []
    else if |parts| == 1 then parts[0]
    else parts[0] + sep + JoinWith(parts[1..], sep)
  }

  function Min(a: int, b: int): int { if a <= b then a else b }
  function Max(a: int, b: int): int { if a >= b then a else b }

  /** `x` clamped to [lo, hi]. */
  function Clamp(x: int, lo: int, hi: int): (r: int)
    requires lo <= hi
    ensures lo <= r <= hi
    ensures lo <= x <= hi ==> r == x
  {
    if x < lo then lo else if x > hi then hi else x
  }

  /** JS `String.prototype.substring(start, end)`: both ends clamped to the
      string, `end` absent meaning the length, and swapped when reversed. */
  function Substring(v: seq<Unit>, start: int, end: Option<int>): seq<Unit>
  {
    var s := Clamp(start, 0, |v|);
    var e := if end.None? then |v| else Clamp(end.value, 0, |v|);
    if s <= e then v[s..e] else v[e..s]
  }

  /** One end of JS `String.prototype.slice`: absent means `dflt`, a negative
      offset counts from the end, and the result is clamped to the string. */
  function SliceEnd(n: int, end: Option<int>, dflt: int): (r: int)
    requires 0 <= dflt <= n
    ensures 0 <= r <= n
  {
    if end.None? then dflt
    else if end.value < 0 then Max(n + end.value, 0)
    else Min(end.value, n)
  }

  /** JS `String.prototype.slice(start, end)`: empty when the ends cross. */
  function JsSlice(v: seq<Unit>, start: Option<int>, end: Option<int>): seq<Unit>
  {
    var s := SliceEnd(|v|, start, 0);
    var e := SliceEnd(|v|, end, |v|);
    if s < e then v[s..e] else []
  }

  /** A codepoint-table lookup that yields `undefined` (None) out of range. */
  function Lookup(cp: seq<nat>, i: int): Option<nat>
  {
    if 0 <= i < |cp| then Some(cp[i]) else None
  }
}
