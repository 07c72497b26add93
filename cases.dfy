/** The ASCII-only case operations `swapcase` and `title` and the
    classification predicates (str.js lines 933-942, 974-985 and
    1040-1105). Every regex involved tests one unit at a time against an
    ASCII class, so each is a statement about the units of the value. */
module Cases {
  import opened Base
  import opened Chars

  /** The case of an ASCII letter swapped; any other unit unchanged. */
  function Swap(u: Unit): Unit {
    if IsLower(u) then ToUpper(u) else ToLower(u)
  }

  /** `swapcase` (lines 974-985). */
  function SwapCase(s: seq<Unit>): (r: seq<Unit>)
    ensures |r| == |s|
    ensures forall k :: 0 <= k < |s| ==> r[k] == Swap(s[k])
  {
    seq(|s|, k requires 0 <= k < |s| => Swap(s[k]))
  }

  /** Within `title`'s runs of letters (`[a-z][a-z]*` under the `i` flag) the
      first is upper-cased and the rest lower-cased. */
  function TitleUnit(s: seq<Unit>, k: nat): Unit
    requires k < |s|
  {
    if !IsLetter(s[k]) then s[k]
    else if k == 0 || !IsLetter(s[k - 1]) then ToUpper(s[k])
    else ToLower(s[k])
  }

  /** `title` (lines 1040-1050). */
  function TitleOf(s: seq<Unit>): (r: seq<Unit>)
    ensures |r| == |s|
    ensures forall k :: 0 <= k < |s| ==> r[k] == TitleUnit(s, k)
  {
    seq(|s|, k requires 0 <= k < |s| => TitleUnit(s, k))
  }

  /** `isdigit` (`/^\d+$/`) and `isnumeric` (`length && !/[^0-9]/`). */
  predicate AllDigits(s: seq<Unit>) {
    |s| > 0 && forall k :: 0 <= k < |s| ==> IsDigit(s[k])
  }

  /** `isspace` (`/^\s+$/`). */
  predicate AllSpace(s: seq<Unit>) {
    |s| > 0 && forall k :: 0 <= k < |s| ==> IsSpace(s[k])
  }

  /** `isalpha`. */
  predicate AllLetters(s: seq<Unit>) {
    |s| > 0 && forall k :: 0 <= k < |s| ==> IsLetter(s[k])
  }

  /** `isalnum`. */
  predicate AllAlnum(s: seq<Unit>) {
    |s| > 0 && forall k :: 0 <= k < |s| ==> IsAlnum(s[k])
  }

  /** `islower`: some lower-case letter and no upper-case one. */
  predicate LowerCased(s: seq<Unit>) {
    (exists k :: 0 <= k < |s| && IsLower(s[k])) && forall k :: 0 <= k < |s| ==> !IsUpper(s[k])
  }

  /** `isupper`: some upper-case letter and no lower-case one. */
  predicate UpperCased(s: seq<Unit>) {
    (exists k :: 0 <= k < |s| && IsUpper(s[k])) && forall k :: 0 <= k < |s| ==> !IsLower(s[k])
  }

  predicate HasLetter(s: seq<Unit>) {
    exists k :: 0 <= k < |s| && IsLetter(s[k])
  }

  /** What `istitle` decides: some letter, an upper-case letter only where no
      letter precedes it, a lower-case one only right after a letter. */
  predicate TitleCased(s: seq<Unit>) {
    && HasLetter(s)
    && (forall k :: 0 < k < |s| && IsUpper(s[k]) ==> !IsLetter(s[k - 1]))
    && (forall k :: 0 <= k < |s| && IsLower(s[k]) ==> k > 0 && IsLetter(s[k - 1]))
  }

  /** The state machine of lines 1081-1104: `previous_is_cased` holds
      exactly when the unit before `pos` is a letter. */
  method IsTitle(s: seq<Unit>) returns (b: bool)
    ensures b == TitleCased(s)
  {
    var cased := false;
    var previousIsCased := false;
    var pos := 0;
    while pos < |s|
      invariant 0 <= pos <= |s|
      invariant previousIsCased == (pos > 0 && IsLetter(s[pos - 1]))
      invariant cased == exists k :: 0 <= k < pos && IsLetter(s[k])
      invariant forall k :: 0 < k < pos && IsUpper(s[k]) ==> !IsLetter(s[k - 1])
      invariant forall k :: 0 <= k < pos && IsLower(s[k]) ==> k > 0 && IsLetter(s[k - 1])
    {
      var ch := s[pos];
      if !IsLower(ch) && IsUpper(ch) {
        if previousIsCased {
          return false;
        }
        previousIsCased := true;
        cased := true;
      } else if IsLower(ch) && !IsUpper(ch) {
        if !previousIsCased {
          return false;
        }
        cased := true;
      } else {
        previousIsCased := false;
      }
      pos := pos + 1;
    }
    return cased;
  }

  // ---------------------------------------------------------------------
  // properties

  /** Swapping case twice gives the original back. */
  lemma SwapCaseInvolution(s: seq<Unit>)
    ensures SwapCase(SwapCase(s)) == s
  {
    assert forall k :: 0 <= k < |s| ==> Swap(Swap(s[k])) == s[k];
  }

  /** A value is lower-cased exactly when its swapped value is upper-cased,
      and the other way round. */
  lemma SwapCaseFlipsCase(s: seq<Unit>)
    ensures LowerCased(s) <==> UpperCased(SwapCase(s))
    ensures UpperCased(s) <==> LowerCased(SwapCase(s))
  {
    var w := SwapCase(s);
    assert forall k :: 0 <= k < |s| ==> (IsLower(s[k]) <==> IsUpper(w[k]));
    assert forall k :: 0 <= k < |s| ==> (IsUpper(s[k]) <==> IsLower(w[k]));
  }

  /** Letters are alphanumeric; so are digits. */
  lemma ClassesNest(s: seq<Unit>)
    ensures AllLetters(s) ==> AllAlnum(s)
    ensures AllDigits(s) ==> AllAlnum(s)
    ensures AllAlnum(s) ==> !AllSpace(s)
  {
    if AllAlnum(s) {
      assert !IsSpace(s[0]);
    }
  }

  /** `title` keeps the letters where they are. */
  lemma TitleKeepsLetters(s: seq<Unit>, k: nat)
    requires k < |s|
    ensures IsLetter(TitleOf(s)[k]) <==> IsLetter(s[k])
    ensures !IsLetter(s[k]) ==> TitleOf(s)[k] == s[k]
  {
  }

  /** An upper-case unit of the result starts a word, a lower-case one
      follows a letter. */
  lemma TitleUnitCase(s: seq<Unit>, k: nat)
    requires k < |s|
    ensures IsUpper(TitleUnit(s, k)) ==> k == 0 || !IsLetter(s[k - 1])
    ensures IsLower(TitleUnit(s, k)) ==> k > 0 && IsLetter(s[k - 1])
  {
  }

  /** The result of `title` passes `istitle` exactly when it has a letter. */
  lemma TitleIsTitled(s: seq<Unit>)
    ensures TitleCased(TitleOf(s)) <==> HasLetter(s)
  {
    var t := TitleOf(s);
    forall k | 0 <= k < |s|
      ensures IsLetter(t[k]) <==> IsLetter(s[k])
    {
      TitleKeepsLetters(s, k);
    }
    forall k | 0 < k < |t| && IsUpper(t[k])
      ensures !IsLetter(t[k - 1])
    {
      TitleUnitCase(s, k);
    }
    forall k | 0 <= k < |t| && IsLower(t[k])
      ensures k > 0 && IsLetter(t[k - 1])
    {
      TitleUnitCase(s, k);
    }
    if HasLetter(s) {
      var k :| 0 <= k < |s| && IsLetter(s[k]);
      assert IsLetter(t[k]);
      assert TitleCased(t);
    }
  }

  /** Title-casing twice is title-casing once. */
  lemma TitleIdempotent(s: seq<Unit>)
    ensures TitleOf(TitleOf(s)) == TitleOf(s)
  {
    var t := TitleOf(s);
    forall k | 0 <= k < |s|
      ensures TitleUnit(t, k) == t[k]
    {
      TitleKeepsLetters(s, k);
      if k > 0 {
        TitleKeepsLetters(s, k - 1);
      }
    }
  }
}
