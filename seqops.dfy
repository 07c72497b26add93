/** Concatenation, repetition and rich comparison of str and bytes values
    (str.js lines 281-305 and 365-386). */
module SeqOps {
  import opened Base

  /** `sq$concat` (lines 281-288): the other operand must have the same kind. */
  function Concat(a: Value, other: Obj): (r: Result<Value>)
    ensures r.Ok? <==> IsKind(other, a.kind)
    ensures r.Err? ==> r.error == TypeError
    ensures r.Ok? ==> r.value.kind == a.kind && |r.value.v| == |a.v| + |UnitsOf(other)|
    ensures r.Ok? ==> r.value.v[..|a.v|] == a.v && r.value.v[|a.v|..] == UnitsOf(other)
  {
    if IsKind(other, a.kind) then Ok(Value(a.kind, a.v + UnitsOf(other)))
    else Err(TypeError)
  }

  /** `n` copies of `v`, one after another (what the loop of `sq$repeat`
      accumulates). */
  function Repeated(v: seq<Unit>, n: int): seq<Unit>
    decreases if n < 0 then 0 else n
  {
    if n <= 0 then [] else Repeated(v, n - 1) + v
  }

  /** Adding a copy at the front or at the back gives the same value. */
  lemma {:induction false} RepeatedCons(v: seq<Unit>, n: int)
    requires n > 0
    ensures Repeated(v, n) == v + Repeated(v, n - 1)
    decreases n
  {
    if n > 1 {
      RepeatedCons(v, n - 1);
      assert Repeated(v, n) == (v + Repeated(v, n - 2)) + v;
    }
  }

  /** `n` copies have length `max(n, 0) * |v|`, begin with `v`, and repeat
      with period `|v|`: together these determine every unit. */
  lemma {:induction false} RepeatedShape(v: seq<Unit>, n: int)
    ensures |Repeated(v, n)| == Max(n, 0) * |v|
    ensures n > 0 ==> Repeated(v, n)[..|v|] == v
    ensures forall k :: 0 <= k < |Repeated(v, n)| - |v| ==> Repeated(v, n)[k + |v|] == Repeated(v, n)[k]
    decreases if n < 0 then 0 else n
  {
    if n > 0 {
      RepeatedShape(v, n - 1);
      RepeatedCons(v, n);
      var r := Repeated(v, n);
      var p := Repeated(v, n - 1);
      assert |r| == (n - 1) * |v| + |v| == n * |v|;
      assert r == p + v;
      forall k | 0 <= k < |r| - |v|
        ensures r[k + |v|] == r[k]
      {
        assert r[k + |v|] == (v + p)[k + |v|] == p[k];
      }
    }
  }

  /** `sq$repeat` (lines 290-305): a count that is not an integer raises
      TypeError; otherwise the value is appended to an empty accumulator
      `n` times, so a count of zero or less gives the empty value. */
  method Repeat(val: Value, n: Obj) returns (r: Result<Value>)
    ensures r.Ok? <==> n.Int?
    ensures r.Err? ==> r.error == TypeError
    ensures r.Ok? ==> r.value == Value(val.kind, Repeated(val.v, n.n))
  {
    if !n.Int? {
      return Err(TypeError);
    }
    var ret: seq<Unit> := [];
    var i := 0;
    while i < n.n
      invariant n.n <= 0 ==> i == 0
      invariant n.n > 0 ==> 0 <= i <= n.n
      invariant ret == Repeated(val.v, i)
    {
      ret := ret + val.v;
      i := i + 1;
    }
    r := Ok(Value(val.kind, ret));
  }

  /** Repeating zero times and concatenating gives back the left operand. */
  lemma ConcatEmptyRepeat(a: Value, b: Value)
    requires a.kind == b.kind
    ensures Concat(a, AsObj(Value(b.kind, Repeated(b.v, 0)))) == Ok(a)
  {
    assert a.v + [] == a.v;
  }

  /** JS `<` on strings: code-unit lexicographic order. */
  predicate Less(a: seq<Unit>, b: seq<Unit>)
    decreases |a|
  {
    if a == [] then b != []
    else if b == [] then false
    else if a[0] != b[0] then a[0] < b[0]
    else Less(a[1..], b[1..])
  }

  /** The independent reading of the order: `a` is a proper prefix of `b`, or
      the first unit where they differ is smaller in `a`. */
  ghost predicate Precedes(a: seq<Unit>, b: seq<Unit>) {
    || (|a| < |b| && a == b[..|a|])
    || exists k :: 0 <= k < |a| && k < |b| && a[..k] == b[..k] && a[k] < b[k]
  }

  lemma {:induction false} LessIsPrecedes(a: seq<Unit>, b: seq<Unit>)
    ensures Less(a, b) <==> Precedes(a, b)
    decreases |a|
  {
    if a == [] {
    } else if b == [] {
    } else if a[0] != b[0] {
      if a[0] < b[0] {
        assert a[..0] == b[..0];
      }
    } else {
      LessIsPrecedes(a[1..], b[1..]);
      PrecedesFromTail(a, b);
      PrecedesToTail(a, b);
    }
  }

  /** Behind a common first unit, the order of the rests is the order. */
  lemma PrecedesFromTail(a: seq<Unit>, b: seq<Unit>)
    requires a != [] && b != [] && a[0] == b[0]
    ensures Precedes(a[1..], b[1..]) ==> Precedes(a, b)
  {
    if Precedes(a[1..], b[1..]) {
      if |a[1..]| < |b[1..]| && a[1..] == b[1..][..|a[1..]|] {
        assert a == [a[0]] + a[1..];
        assert b[..|a|] == [b[0]] + b[1..][..|a| - 1];
      } else {
        var k :| 0 <= k < |a| - 1 && k < |b| - 1 && a[1..][..k] == b[1..][..k] && a[1..][k] < b[1..][k];
        assert a[..k + 1] == [a[0]] + a[1..][..k];
        assert b[..k + 1] == [b[0]] + b[1..][..k];
      }
    }
  }

  lemma PrecedesToTail(a: seq<Unit>, b: seq<Unit>)
    requires a != [] && b != [] && a[0] == b[0]
    ensures Precedes(a, b) ==> Precedes(a[1..], b[1..])
  {
    if Precedes(a, b) {
      if |a| < |b| && a == b[..|a|] {
        assert a[1..] == b[1..][..|a| - 1];
      } else {
        var k :| 0 <= k < |a| && k < |b| && a[..k] == b[..k] && a[k] < b[k];
        assert k != 0;
        assert a[1..][..k - 1] == a[..k][1..];
        assert b[1..][..k - 1] == b[..k][1..];
      }
    }
  }

  /** Exactly one of `a < b`, `a == b`, `b < a` holds. */
  lemma {:induction false} LessTrichotomy(a: seq<Unit>, b: seq<Unit>)
    ensures Less(a, b) || a == b || Less(b, a)
    ensures !(Less(a, b) && Less(b, a))
    ensures !(Less(a, b) && a == b)
    decreases |a|
  {
    if a != [] && b != [] && a[0] == b[0] {
      LessTrichotomy(a[1..], b[1..]);
      if a[1..] == b[1..] {
        assert a == [a[0]] + a[1..] && b == [b[0]] + b[1..];
      }
    }
  }

  lemma {:induction false} LessTransitive(a: seq<Unit>, b: seq<Unit>, c: seq<Unit>)
    requires Less(a, b) && Less(b, c)
    ensures Less(a, c)
    decreases |a|
  {
    if a != [] && b != [] && c != [] && a[0] == b[0] && b[0] == c[0] {
      LessTransitive(a[1..], b[1..], c[1..]);
    }
  }

  datatype CompareOp = Lt | LtE | Eq | NotEq | Gt | GtE

  /** The answer of a rich comparison: a boolean, or the NotImplemented
      singleton that lets the runtime try the reflected operation. */
  datatype Comparison = NotImplemented | Answer(b: bool)

  /** `tp$richcompare` (lines 365-386): JS comparison of the unit sequences
      when the other operand has the same kind. */
  function RichCompare(a: Value, other: Obj, op: CompareOp): (r: Comparison)
    ensures r.NotImplemented? <==> !IsKind(other, a.kind)
  {
    if !IsKind(other, a.kind) then NotImplemented
    else
      var b := UnitsOf(other);
      match op
      case Lt => Answer(Less(a.v, b))
      case LtE => Answer(!Less(b, a.v))
      case Eq => Answer(a.v == b)
      case NotEq => Answer(a.v != b)
      case Gt => Answer(Less(b, a.v))
      case GtE => Answer(!Less(a.v, b))
  }

  /** The six operators agree with one total order: `<=` is `<` or `==`, and
      `>`/`>=` are the mirror images. */
  lemma RichCompareConsistent(a: Value, b: Value)
    requires a.kind == b.kind
    ensures RichCompare(a, AsObj(b), LtE).b
         == (RichCompare(a, AsObj(b), Lt).b || RichCompare(a, AsObj(b), Eq).b)
    ensures RichCompare(a, AsObj(b), Gt) == RichCompare(b, AsObj(a), Lt)
    ensures RichCompare(a, AsObj(b), GtE) == RichCompare(b, AsObj(a), LtE)
    ensures RichCompare(a, AsObj(b), NotEq).b == !RichCompare(a, AsObj(b), Eq).b
  {
    LessTrichotomy(a.v, b.v);
  }
}
