# Skulpt `str` and `bytes`: a verified model

This project models the value layer of Skulpt's `str` and `bytes` types
(`src/str.js`): how the runtime stores text, finds logical characters, and
implements the sequence protocol and the methods and operators of both
types.

## Storage

A `str` or `bytes` value is a JS string, that is, a sequence of UTF-16 code
units. The model writes it as `Value(kind, v)` with `v: seq<Unit>` and
`Unit` an integer in `[0, 0x10000)`. Dafny's `char` cannot hold a lone
surrogate, which the runtime allows.

A `str` holding surrogates addresses its characters through a lazily built
index (`codepoints`):
- the index is the list of unit offsets where each logical character
  begins;
- a high surrogate and the unit after it form one character;
- a `str` without surrogates, and every `bytes`, has no index and counts
  units.

The memoising object is the class `StrObject.Str`. Its `codepoints` field is
filled in by `HasAstralCodePoints`. Pure operations read the index through
`Codepoints.IndexFor`, which is what the memo holds once it is computed.

Python arguments are modelled as `Base.Obj`: a str, bytes, int, bool, `None`,
or an opaque object.

## Operations

- The sequence protocol: length, subscript, slice, concatenation,
  repetition, containment, rich comparison and iteration.
- `find`/`rfind`/`index`/`rindex`, `count`, `replace`, `startswith`,
  `endswith`, `partition`/`rpartition`.
- `join`, `split` and `splitlines`.
- `strip`/`lstrip`/`rstrip`.
- `ljust`/`rjust`/`center` and `zfill`.
- `expandtabs`.
- `swapcase`, `title` and the `is...` predicates.
- `repr`.
- The `bytes` constructor and the encoding-name check of `encode`/`decode`.
- `hex` and `fromhex`.
- The `%` formatting operator, with its format scanner, `formatNumber` and
  `handleWidth`.

## How behaviour is modelled

- Error paths are `Result` values. `None` is modelled as an `Option` or as
  the `NoneObj` object.
- Loops in the source are `method`s with loop invariants. Each is proved
  equal to a specification function, and the properties are proved about
  that function:
  - the codepoint scan;
  - `join`, `split` and `splitlines`;
  - the reverse lookup of `find`;
  - `zfill`, `repr`, `fromhex` and `hex`;
  - `formatNumber` and `handleWidth`;
  - `istitle`.
- JS library behaviour the code relies on is written out:
  - `indexOf` and `lastIndexOf`, with their clamping;
  - `slice` and `substring`;
  - the regexes, read as unit predicates or as searches.

Where the code departs from what it evidently means, the model keeps both
behaviours:
- an `...AsWritten` member follows the code;
- the corrected member is what the rest of the model uses;
- a lemma exhibits an input on which they differ (see "Findings").

## Model

| member | source | states |
|---|---|---|
| `Base.AsObj` | src/str.js:156-161 | the object wrapping a value has the value's kind and units |
| `Base.SliceEnd` | src/str.js:712-713 | one end of JS `slice`: absent means the default, negative counts from the end, the result lies in [0, n] |
| `Codepoints.StartsFromIsTable` | src/str.js:194-201 | the scan pushes a start table: strictly increasing offsets, each character one unit or a high surrogate with the unit after it |
| `Codepoints.StartTableUnique` | src/str.js:194-201 | any table with those properties is the one the scan builds, so the index is determined by the text |
| `Codepoints.ComputeFacts` | src/str.js:186-206 | no index exactly when no unit is a surrogate; otherwise a non-empty start table of the whole buffer from offset 0 |
| `Codepoints.IndexForValid` | src/str.js:173-209 | the index of every str and bytes value is valid for its units; bytes never have one |
| `Codepoints.StartBounds` | src/str.js:194-201 | consecutive character starts differ by 1 or 2, and by 2 only at a high surrogate; without an index by exactly 1 |
| `Codepoints.StartEnds` | src/str.js:194-201 | the first character starts at 0 and the position after the last is the buffer's end |
| `Codepoints.CharAtSpan` | src/str.js:226-227 | a character is the units between two consecutive starts and is exactly one logical character |
| `Codepoints.Chars` | src/str.js:234-238 | the characters i..j-1 are j-i values, in order |
| `Codepoints.CharsAt` | src/str.js:234-238 | the k-th of them is the character at i+k |
| `Codepoints.StartMono` | src/str.js:194-201 | character starts never decrease with the logical offset |
| `Codepoints.CharsSpan` | src/str.js:234-238 | concatenating the characters i..j-1 gives the units between their starts |
| `Codepoints.WholeBuffer` | src/str.js:186-206 | all characters together give back the whole buffer |
| `Codepoints.ScanCodepoints` | src/str.js:186-206 | the two nested loops compute exactly the index the specification function defines |
| `JsString.SearchForward` | src/str.js:817 | the first occurrence at or after k, or -1 when there is none |
| `JsString.SearchBackward` | src/str.js:817 | the last occurrence at or before k, or -1 when there is none |
| `JsString.JsIndexOf` | src/str.js:832 | `indexOf`: the first occurrence at or after the clamped position, or -1 |
| `JsString.JsLastIndexOf` | src/str.js:832 | `lastIndexOf`: the last occurrence at or before the clamped position (at most \|v\|-\|t\|), or -1 |
| `SeqOps.Concat` | src/str.js:281-288 | Ok exactly for an operand of the same kind, otherwise TypeError; the result is the left units followed by the right units |
| `SeqOps.RepeatedCons` | src/str.js:291-305 | appending one more copy at the back is the same as adding one at the front |
| `SeqOps.RepeatedShape` | src/str.js:291-305 | n copies have length max(n,0)·\|v\|, begin with v and repeat with period \|v\| |
| `SeqOps.Repeat` | src/str.js:291-305 | Ok exactly for an int count, otherwise TypeError; a count of zero or less gives the empty value |
| `SeqOps.ConcatEmptyRepeat` | src/str.js:281-305 | concatenating zero copies gives back the left operand |
| `SeqOps.LessIsPrecedes` | src/str.js:365-386 | JS `<` on strings is lexicographic order on the code units |
| `SeqOps.LessTrichotomy` | src/str.js:365-386 | exactly one of a<b, a==b, b<a holds |
| `SeqOps.LessTransitive` | src/str.js:365-386 | `<` is transitive |
| `SeqOps.RichCompare` | src/str.js:365-386 | NotImplemented exactly when the other operand has another kind |
| `SeqOps.RichCompareConsistent` | src/str.js:365-386 | the six operators agree with one total order: `<=` is `<` or `==`, `>`/`>=` mirror `<`/`<=`, `!=` negates `==` |
| `StrObject.LengthOf` | src/str.js:275-280 | bytes and a str without surrogates count units; otherwise the number of index entries, never more than the units |
| `StrObject.LengthCountsChars` | src/str.js:275-277 | the value is the concatenation of exactly `len` single characters |
| `StrObject.SubscriptOf` | src/str.js:215-273 | a non-int key gives TypeError; an int key counts negative from the end, in range gives the character, out of range IndexError; a slice gives a value of the same kind |
| `StrObject.GatherRange` | src/str.js:231-246 | a step-1 slice gathers exactly the units between the starts of its ends |
| `StrObject.SqSlice` | src/str.js:311-325 | `sq$slice` keeps the kind |
| `StrObject.SqSliceSpan` | src/str.js:311-325 | a slice between two logical offsets is the units between their starts, that is, the characters in between |
| `StrObject.SliceOfOneIsSubscript` | src/str.js:215-250 | `s[i:i+1] == s[i]` for every character of a str |
| `StrObject.Str.constructor` | src/str.js:156-161 | a new str holds its units and has no index yet |
| `StrObject.Str.HasAstralCodePoints` | src/str.js:173-207 | a memo already filled in is kept; otherwise the scan fills it in; the answer is whether the str holds a surrogate |
| `StrObject.Str.Length` | src/str.js:275-277 | the logical length, with the memo filled in |
| `StrObject.Str.Subscript` | src/str.js:215-250 | subscript through the memo equals the specification `SubscriptOf` |
| `StrObject.StrIter.constructor` | src/str.js:1468-1478 | the iterator copies the units and the index and starts at 0; the str's memo is filled in |
| `StrObject.StrIter.Next` | src/str.js:1479-1495 | below the length, the character at the cursor, advancing it by one; at the length, none and no move; the yielded sequence grows by exactly what is returned |
| `Search.StrContains` | src/str.js:327-332 | Ok exactly for a str needle, otherwise TypeError; true iff the needle occurs |
| `Search.BytesContains` | src/str.js:334-346 | a bytes needle, or an int in [0, 255]; an int out of range gives ValueError, other objects TypeError; true iff it occurs |
| `Search.FindNoneEndRefused` | src/str.js:774-779 | `find(t, 0, None)` is refused as written and accepted corrected; the corrected check refuses exactly the bounds that are neither ints nor None |
| `Search.FindArgsCheckedAsWritten` | src/str.js:774-779 | no contract: the body is the check as written (the `end` test looks at `start`); `FindNoneEndRefused` states where it refuses a valid call |
| `Search.FindArgsChecked` | src/str.js:774-779 | no contract: the body is the corrected check (each bound absent, None or an int); `FindNoneEndRefused` states it |
| `Search.LastPosition` | src/str.js:824-828 | the last table position before k holding the offset, or -1 |
| `Search.ReverseLookupAsWritten` | src/str.js:822-828 | the loop as written finds the last table entry equal to the unit offset, never the end of the buffer |
| `Search.PositionOf` | src/str.js:822-828 | the intended lookup: a table entry or the buffer's end equal to the unit offset, or -1 when there is none |
| `Search.ReverseLookup` | src/str.js:822-828 | the corrected loop computes `PositionOf` |
| `Search.FindOf` | src/str.js:767-838 | Err exactly for a target of another kind or a bound that is neither an int nor None (TypeError); otherwise in [-1, len] |
| `Search.Find` | src/str.js:767-838 | the method with the lookup loop equals `FindOf` |
| `Search.StartStrict` | src/str.js:810-811 | distinct logical offsets have distinct unit starts |
| `Search.FindInRange` | src/str.js:781-836 | the result lies in [-1, len] |
| `Search.FindInMeaning` | src/str.js:781-836 | a result other than -1 is a match inside the clamped window, and the first (find) or last (rfind) one; -1 means no character-aligned match in the window |
| `Search.PositionOfStart` | src/str.js:822-828 | the corrected lookup maps every character start, the buffer's end included, back to its logical offset |
| `Search.EmptyTargetFound` | src/str.js:785-836 | an empty target is found at the normalised start, and by `rfind` with no bounds at the length |
| `Search.EmptyTargetAtEndLost` | src/str.js:824-828 | on a str of one surrogate pair, `find("", 1)` and `rfind("")` give -1 as written and 1 corrected |
| `Search.IndexOrRaise` | src/str.js:842-862 | `index`/`rindex`: the errors of find, ValueError where find gives -1, else the same non-negative result |
| `Search.StartsWith` | src/str.js:864-868 | Ok exactly for a target of the same kind; true iff the target is a prefix |
| `Search.EndsWith` | src/str.js:871-875 | Ok exactly for a target of the same kind; true iff the target is a suffix |
| `Search.Partition` | src/str.js:640-672 | the three parts concatenate to the value; the middle is the separator or empty, empty iff the separator does not occur; it splits at the first (last) occurrence |
| `Occurrences.CountFitsLength` | src/str.js:710-718 | non-overlapping matches of a non-empty pattern use at most the units left |
| `Occurrences.CountZeroIffAbsent` | src/str.js:714-718 | a non-empty pattern counts zero exactly when it does not occur |
| `Occurrences.CountEmpty` | src/str.js:714-718 | the empty pattern matches at every offset, the end included |
| `Occurrences.CountAsWritten` | src/str.js:674-721 | TypeError exactly for a pattern of another kind or a non-int bound; a start past the length gives 0; with no bounds, the non-overlapping matches of the whole value |
| `Occurrences.CountOf` | src/str.js:674-721 | corrected: the same errors, 0 for a start past the length, and the whole-value count without bounds; otherwise the matches between the starts of the clamped bounds |
| `Occurrences.CountInSlice` | src/str.js:703-718 | for bounds `0 <= i <= j <= len`, `count` gives the matches in the slice `s[i:j]`, the characters `i .. j-1` laid end to end |
| `Occurrences.CountFromEnd` | src/str.js:694-708 | a negative bound `-k` within the length stands for `len - k`, for the start and the end |
| `Occurrences.CountAgrees` | src/str.js:692-714 | as written and corrected agree when both normalised bounds are non-negative and the start has an entry in the index |
| `Occurrences.NegativeStartWraps` | src/str.js:694-713 | `"abc".count("a", -5)` gives 0 as written and 1 corrected |
| `Occurrences.AstralStartAtEnd` | src/str.js:697-713 | `"\U0001D11Ea".count("a", 2)` gives 1 as written and 0 corrected |
| `Occurrences.ExpandPlain` | src/str.js:891 | a replacement without `$` is inserted unchanged by JS `replace` |
| `Occurrences.ReplaceOf` | src/str.js:877-905 | TypeError exactly for arguments of another kind or a non-int count; the kind is kept; the length changes by \|new\|-\|old\| for each match replaced within the count; replacing a pattern by itself is the identity |
| `Occurrences.ReplaceAsWritten` | src/str.js:877-905 | `replace` as written: Err exactly for arguments of another kind or a non-int count; `DollarPatternExpanded` shows where it differs from `ReplaceOf` |
| `Occurrences.ReplaceFrom` | src/str.js:890-904 | no contract: the body is the definition of the scan from an offset; `ReplaceAllIsSplitJoin`, `ReplaceSomeIsSplitJoin` and `ReplaceWithinBudget` state what it gives |
| `Occurrences.ReplaceLength` | src/str.js:877-905 | each replaced match changes the length by \|new\|-\|old\| |
| `Occurrences.ReplaceCountEnough` | src/str.js:890-904 | a count at least the number of matches gives the same result as no count |
| `Occurrences.ReplaceIdentity` | src/str.js:877-905 | replacing a pattern by itself changes nothing |
| `Occurrences.ReplaceIsSplitJoin` | src/str.js:877-905 | for a non-empty pattern the result is the value split at every match (or at the first `count` matches) and the pieces joined with the replacement; a count of 0 leaves the value as it is |
| `Occurrences.ReplaceAllIsSplitJoin` | src/str.js:890-892 | without a count every match is replaced: splitting at the pattern and joining with the replacement, from any position |
| `Occurrences.ReplaceSomeIsSplitJoin` | src/str.js:894-904 | with `n` ≥ 1 replacements left, splitting with that many cuts and joining with the replacement |
| `Occurrences.SpentKeeps` | src/str.js:896-902 | once `count` matches are replaced, each later match is returned as it was, so the rest of the value is unchanged |
| `Occurrences.ReplaceWithinBudget` | src/str.js:894-904 | a budget at least the number of matches replaces them all |
| `Occurrences.DollarPatternExpanded` | src/str.js:890-892 | `"a".replace("a", "$$")` gives `"$"` as written and `"$$"` corrected |
| `Occurrences.AsWrittenAgreesWithoutDollar` | src/str.js:890-904 | both paths agree when the replacement holds no `$` |
| `Splitting.FirstForeign` | src/str.js:497-509 | the first item not of the separator's kind, or the number of items |
| `Splitting.JoinOf` | src/str.js:497-509 | Err exactly when some item has another kind, naming the first; otherwise a value of the separator's kind |
| `Splitting.Join` | src/str.js:497-509 | the loop equals `JoinOf` |
| `Splitting.JoinWithCons` | src/str.js:497-509 | joining puts the separator between consecutive parts |
| `Splitting.SkipSpace` | src/str.js:539 | the leading run of whitespace removed before splitting |
| `Splitting.NextMatch` | src/str.js:535-552 | the next match of the escaped literal, or a maximal run of whitespace; never empty, so the empty-match exit is never taken |
| `Splitting.SplitFromStep` | src/str.js:552-567 | one cut: the fragment before the next match, then the tail or the cut after the match |
| `Splitting.SplitFrom` | src/str.js:552-567 | a literal separator always leaves at least one fragment; the body is the loop's definition, and `SplitFromStep`, `SplitJoinsBack` and `SplitCountBound` state what it gives |
| `Splitting.SplitArgs` | src/str.js:520-531 | TypeError for a separator of another kind or a non-int count, ValueError for an empty separator; None means whitespace |
| `Splitting.Limit` | src/str.js:560 | the corrected count: absent or zero (as written) and negative (as Python) mean no limit; a positive count limits, at exactly that number of cuts |
| `Splitting.SplitOf` | src/str.js:512-570 | Ok exactly when the arguments are accepted, with their error otherwise |
| `Splitting.SplitAsWritten` | src/str.js:512-570 | `split` as written: Ok exactly when the arguments are accepted; it differs from `SplitOf` only for a negative count (`NegativeCountStopsEarly`) |
| `Splitting.Split` | src/str.js:549-569 | the loop equals `SplitOf` |
| `Splitting.SplitJoinsBack` | src/str.js:552-567 | joining the fragments of a literal split with the separator gives the text back |
| `Splitting.LiteralFragmentsFree` | src/str.js:552-567 | the fragments before the last hold no separator, nor does the last when no limit stopped the loop |
| `Splitting.SplitCountBound` | src/str.js:560-562 | a positive count bounds the fragments by count+1 |
| `Splitting.WhitespaceFragments` | src/str.js:535-567 | whitespace mode makes no empty fragment, and the fragments hold no whitespace except the limited last one |
| `Splitting.SplitProperties` | src/str.js:512-570 | the properties of `split` itself, for both modes |
| `Splitting.SplitOfJoined` | src/str.js:552-567 | cutting text joined with a one-unit separator no part contains gives the parts back |
| `Splitting.JoinThenSplit` | src/str.js:497-570 | `split` undoes `join` for a one-unit separator no part contains |
| `Splitting.NegativeCountStopsEarly` | src/str.js:560-562 | `"a,b,c".split(",", -1)` is `["a", "b,c"]` as written and `["a", "b", "c"]` corrected |
| `Lines.BreakFrom` | src/str.js:1008-1026 | the first `\r` or `\n` at or after j, or the end |
| `Lines.LinesFrom` | src/str.js:1008-1036 | no contract: the body is the definition of the line scan; `LinesCover`, `LinesWellFormed` and `CrLfWhole` state what it gives |
| `Lines.RemoveBreaks` | src/str.js:1014 | the `\r\|\n` replace leaves no line break |
| `Lines.RemoveBreaksAppend` | src/str.js:1014 | removing breaks distributes over concatenation |
| `Lines.RemoveBreaksNone` | src/str.js:1014 | a text without breaks is unchanged |
| `Lines.SplitLinesAsWritten` | src/str.js:998-1000 | TypeError exactly for a keepends that is not a bool |
| `Lines.SplitLinesOf` | src/str.js:987-1038 | TypeError exactly for a non-bool keepends; every line has the receiver's kind |
| `Lines.SplitLines` | src/str.js:1008-1036 | the loop equals `SplitLinesOf` |
| `Lines.LinesCover` | src/str.js:1008-1036 | the lines with their terminators concatenate to the text |
| `Lines.LinesWellFormed` | src/str.js:1008-1036 | each line is break-free text followed by one terminator (`\r\n`, `\r` or `\n`), the last possibly unterminated |
| `Lines.SplitLinesProperties` | src/str.js:987-1038 | `splitlines(True)` concatenates to the text, and each line of `splitlines()` is the matching kept line without its breaks |
| `Lines.CrLfWhole` | src/str.js:1010-1018 | a `\r` ending one line is never followed by a `\n` opening the next: `\r\n` is one terminator |
| `Lines.SplitLinesTerminated` | src/str.js:1008-1036 | every line of `splitlines(True)` but the last is the matching line of `splitlines()` followed by one terminator, and neighbouring lines never cut a `\r\n` |
| `Lines.BytesLinesBecomeStr` | src/str.js:1016 | `b"a\n".splitlines()` yields a str as written and bytes corrected |
| `Strip.LeadEnd` | src/str.js:572-586 | the first unit at or after i not in the set |
| `Strip.TrailStart` | src/str.js:572-586 | the start of the run of set units ending at j |
| `Strip.Bounds` | src/str.js:572-618 | the kept slice lies inside the text, its start before its end; `StripShape` states that everything cut off is in the set |
| `Strip.StripAsWritten` | src/str.js:572-618 | TypeError exactly for a given argument of another kind, None included |
| `Strip.StripOf` | src/str.js:572-618 | TypeError exactly for an argument that is neither None nor of the value's kind; the kind is kept |
| `Strip.StripShape` | src/str.js:572-618 | the result is one slice, everything removed is in the set, and the kept part begins and ends outside the set |
| `Strip.StripIdempotent` | src/str.js:572-618 | stripping twice removes nothing more |
| `Strip.StripComposes` | src/str.js:572-618 | `strip` is `lstrip` then `rstrip`, and the other way round |
| `Strip.StripNoneRefused` | src/str.js:574-576 | `" a".strip(None)` is TypeError as written and `"a"` corrected |
| `Padding.FillOf` | src/str.js:731-738 | TypeError exactly for a fill of another kind or not one character; a space by default |
| `Padding.LeftCopies` | src/str.js:743-756 | the copies before the value are at most the padding |
| `Padding.JustOf` | src/str.js:724-758 | TypeError exactly for a non-int width or a bad fill |
| `Padding.JustShape` | src/str.js:740-757 | the value with copies of the fill around it, as many as the width exceeds the length; ljust all after, rjust all before, center half of them rounded down before and the rest, with the odd copy, after |
| `Padding.CenterOddCopy` | src/str.js:744-750 | `"ab".center(5)` gives `" ab  "`, the odd copy after the value |
| `Padding.ZFillOf` | src/str.js:907-931 | TypeError exactly for a non-int width |
| `Padding.ZFill` | src/str.js:919-928 | the loop equals `ZFillOf` |
| `Padding.ZFillShape` | src/str.js:919-928 | the result is max(width, length) units, keeps the kind, and is the value with zeros put after its sign |
| `Padding.ZFillIdempotent` | src/str.js:919-928 | filling to the same width twice changes nothing |
| `Cases.SwapCase` | src/str.js:974-985 | the same length, each ASCII letter with its case swapped |
| `Cases.TitleOf` | src/str.js:1040-1050 | the same length; the first letter of each run of letters upper-cased, the rest lower-cased |
| `Cases.IsTitle` | src/str.js:1078-1105 | the state machine decides `TitleCased`: some letter, upper case only after a non-letter, lower case only after a letter |
| `Cases.SwapCaseInvolution` | src/str.js:974-985 | swapping case twice gives the original |
| `Cases.SwapCaseFlipsCase` | src/str.js:1068-1076 | a value is lower-cased exactly when its swapped value is upper-cased, and the other way round |
| `Cases.ClassesNest` | src/str.js:933-941 | letters and digits are alphanumeric; an alphanumeric value is not whitespace |
| `Cases.TitleKeepsLetters` | src/str.js:1040-1050 | `title` keeps letters where they are and leaves every other unit unchanged |
| `Cases.TitleIsTitled` | src/str.js:1040-1105 | the result of `title` passes `istitle` exactly when it holds a letter |
| `Cases.TitleIdempotent` | src/str.js:1040-1050 | title-casing twice is title-casing once |
| `Tabs.NextTab` | src/str.js:968 | the first tab at or after i, or the end |
| `Tabs.SegmentStart` | src/str.js:968 | the captured text before a tab begins after the last line break |
| `Tabs.ExpandFrom` | src/str.js:967-970 | no contract: the body is the definition of the regex replace from an offset; `ExpandAgrees` and `ExpandColShape` state what it gives |
| `Tabs.TabFill` | src/str.js:967-969 | a tab after w captured units becomes size - w mod size spaces, between 1 and size; none for size 0 |
| `Tabs.ExpandTabsAsWritten` | src/str.js:958-967 | Err exactly for a non-int size or a size below -1 (the host's RangeError) |
| `Tabs.ExpandTabsOf` | src/str.js:944-972 | TypeError exactly for a non-int size; the kind is kept |
| `Tabs.ExpandAgrees` | src/str.js:967-970 | the regex replace equals the column-tracking expansion: each tab advances to the next multiple of the size |
| `Tabs.ExpandColShape` | src/str.js:967-970 | no tab survives, and a text without tabs is unchanged |
| `Tabs.NegativeTabSize` | src/str.js:967 | `"a\tb".expandtabs(-2)` is a RangeError as written and `"ab"` corrected |
| `Repr.HexOf` | src/str.js:417 | `("000"+n.toString(16)).slice(-w)`: w lower-case hex digits |
| `Repr.ParseHexOf` | src/str.js:417 | the digits read back as the number |
| `Repr.Combine` | src/str.js:420 | `codePointAt` of a surrogate pair is in [0x10000, 0x10FFFF] |
| `Repr.CombineSplits` | src/str.js:420-429 | the code point splits back into the same pair |
| `Repr.Escape` | src/str.js:405-441 | each step emits an escape and moves on by at least one unit |
| `Repr.Repr` | src/str.js:396-444 | the loop equals `ReprOf` |
| `Repr.ReprAsWritten` | src/str.js:388-445 | `repr` as written: a str literal, `b` first for bytes, then the body between two copies of the quote the text calls for (`Quoted`); `LoneSurrogateSwallowsNext` shows where it loses a unit |
| `Repr.ReprOf` | src/str.js:388-445 | `repr` corrected: the same literal shape (`Quoted`); `ReprRoundTrip` states that the body reads back as the units |
| `Repr.BodyRoundTrip` | src/str.js:404-442 | unescaping the body gives the units back |
| `Repr.ReprRoundTrip` | src/str.js:396-444 | the literal is the optional `b`, a quote, a body that reads back as the units, and the same quote; double quotes exactly when the text has a `'` and no `"` |
| `Repr.LegacyReprAscii` | src/str.js:415-438 | in legacy (not Python 3) mode every unit of the literal is ASCII |
| `Repr.LoneSurrogateSwallowsNext` | src/str.js:418-421 | a lone high surrogate followed by `a`: the `a` is lost as written and kept corrected |
| `HexCodec.Lowered` | src/str.js:1115 | ASCII lower-casing keeps the length and lowers each unit |
| `HexCodec.Utf8Names` | src/str.js:1115 | `/^utf-?8$/i` accepts exactly `utf8` and `utf-8` in any case |
| `HexCodec.EncodingCheck` | src/str.js:1113-1118 | Ok exactly for no encoding or a UTF-8 name; ValueError for another str, TypeError for a non-str |
| `HexCodec.ItemsUnits` | src/str.js:40-55 | Ok exactly when every item is an int in [0, 255], giving their values; otherwise the error is that of the first bad item |
| `HexCodec.BytesOf` | src/str.js:8-80 | whatever the constructor builds from a non-str source lies in byte range |
| `HexCodec.BytesAccepted` | src/str.js:21-72 | without an encoding: absent gives empty bytes, int n gives n zero bytes (RangeError below 0), bytes are copied, items give their values |
| `HexCodec.EncodingNeedsText` | src/str.js:24-28 | with an encoding, only a str source with a UTF-8 name is accepted; an accepted non-str source then raises TypeError |
| `HexCodec.HexTextAppend` | src/str.js:1176-1180 | the hex text of a concatenation is the concatenation of the hex texts |
| `HexCodec.Hex` | src/str.js:1176-1180 | the loop builds the hex text of the bytes |
| `HexCodec.HexShape` | src/str.js:1176-1180 | two lower-case hex digits per byte, byte k at [2k, 2k+2) |
| `HexCodec.Compact` | src/str.js:1157 | removing whitespace leaves none, and a text without whitespace is unchanged |
| `HexCodec.PairValue` | src/str.js:1161-1166 | two hex digits make a value at most 0xFF |
| `HexCodec.Pairs` | src/str.js:1160-1168 | Ok exactly for an even count of hex digits, ValueError otherwise; half as many bytes, in byte range |
| `HexCodec.FromHexOf` | src/str.js:1153-1170 | TypeError for a non-str, ValueError for bad digits; otherwise bytes in byte range |
| `HexCodec.FromHex` | src/str.js:1153-1170 | the loop equals `FromHexOf` |
| `HexCodec.PairsOfHex` | src/str.js:1160-1178 | the digit pairs of the hex text read back as the bytes |
| `HexCodec.FromHexOfHex` | src/str.js:1153-1181 | `bytes.fromhex(b.hex()) == b` |
| `HexCodec.HexOfFromHex` | src/str.js:1153-1181 | `bytes.fromhex(s).hex()` is s without whitespace, lower-cased |
| `Format.RunEnd` | src/str.js:1212 | the end of the run of units meeting a predicate |
| `Format.Scan` | src/str.js:1212 | a recognised specifier ends at its conversion letter, one of `diouxXeEfFgGcrs%`; what it means is stated by `MatchScanned`, `ScanIsMatch` and `ScanNoneNoMatch` |
| `Format.MatchScanned` | src/str.js:1212 | completeness: wherever the pattern `%`, `(key)`?, flags, `*` or digits?, `.` with `*` or digits?, `h`/`l`/`L`?, conversion letter (`Pieces`) matches, the scanner finds a specifier with the same end, key, precision and conversion, and the same flags and width when the flag run stops where the match's does |
| `Format.ScanIsMatch` | src/str.js:1212 | soundness: what the scanner finds is a match of that pattern, ending at its conversion letter, whose flag run cannot be extended |
| `Format.ScanNoneNoMatch` | src/str.js:1212 | no specifier found means the pattern matches at no choice of piece boundaries |
| `Format.PieceEnds` | src/str.js:1212 | the boundaries of the pieces the scanner reads, in order |
| `Format.FlagsOf` | src/str.js:1241-1260 | the five flags from the flag string, `-` beating `0` and `+` beating a blank |
| `Format.Digits` | src/str.js:1266-1300 | at least one digit, each below the base |
| `Format.DivMod` | src/str.js:1266-1300 | quotient and remainder recombine |
| `Format.DigitsRoundTrip` | src/str.js:1266-1300 | the digits parse back to the number, and begin with 0 exactly for 0 |
| `Format.PadZeros` | src/str.js:1301-1306 | the precision loop puts zeros in front up to the precision, and reports whether it added any |
| `Format.FormatNumber` | src/str.js:1266-1327 | the method returns the prefix and digits of `NumberOf` |
| `Format.NumberOf` | src/str.js:1266-1327 | the digit part has max(prec, number of digits of \|n\|) units; `NumberShape` states its contents and the prefix |
| `Format.NumberShape` | src/str.js:1266-1327 | max(prec, digits) units: zeros then the digits of \|n\|, reading back as \|n\|; the prefix is the sign then the alternate marker |
| `Format.AltShape` | src/str.js:1308-1322 | the alternate form: `0` for octal unless already zero-padded, `0x` for hex, nothing for decimal |
| `Format.LeadingZeros` | src/str.js:1301-1306 | leading zeros do not change the parsed value |
| `Format.HandleWidth` | src/str.js:1329-1353 | the three loops build `WidthOf` |
| `Format.WidthOf` | src/str.js:1329-1353 | without a width, prefix and text side by side; with one, max(width, their length) units; `WidthShape` states where the padding goes |
| `Format.WidthShape` | src/str.js:1329-1353 | the result has the width's length if longer; zero-padding goes between prefix and digits, left-adjust after, otherwise blanks before |
| `Format.Wrapped` | src/str.js:1205-1207 | a tuple, a dict, a list and a lone bytes value are left as they are; any other lone object (a str included) becomes a one-item tuple; only bytes stays a single object |
| `Format.ValueFor` | src/str.js:1356-1367 | a tuple gives its i-th item, or none past its end |
| `Format.Take` | src/str.js:1450 | `substr(0, p)`: the first min(p, len) units |
| `Format.Upper` | src/str.js:1376 | `toUpperCase` on ASCII units |
| `Format.CharConversion` | src/str.js:1426-1439 | `%c` gives at most one unit |
| `Format.FormatUnder` | src/str.js:1460-1461 | the result has the receiver's kind; a receiver without `%` is returned as it is |
| `Format.FormatAsWritten` | src/str.js:1183-1462 | `self % rhs` as written: the receiver's kind is kept, and text without `%` comes back unchanged |
| `Format.FormatOf` | src/str.js:1183-1462 | `self % rhs` corrected: the receiver's kind is kept, and text without `%` comes back unchanged |
| `Format.FormatFrom` | src/str.js:1212-1461 | no contract: the body is the definition (each specifier found by `Scan` is replaced by its conversion, every other unit is kept, the first error ends it); `PlainTextKept`, `PercentPercent` and `ArgumentsInOrder` state what it gives |
| `Format.Convert` | src/str.js:1368-1458 | `%%` gives `%`; an integer conversion (`d i o x X`, and `u` corrected) of a missing or non-int argument is a TypeError |
| `Format.IntegerConversion` | src/str.js:1266-1376 | Err (TypeError) exactly for a missing or non-int argument; otherwise at least as long as the width |
| `Format.StringConversion` | src/str.js:1440-1455 | a missing argument converts; with a precision the text is at most that long; without one it is at least as long as the width |
| `Format.PlainTextKept` | src/str.js:1460 | text without `%` is kept as it is |
| `Format.PercentPercent` | src/str.js:1456-1457 | `%%` gives `%` and consumes no argument |
| `Format.ArgumentsInOrder` | src/str.js:1233-1235 | `"%s%s" % (a, b)` is a followed by b |
| `Format.MissingStringArgument` | src/str.js:1357 | `"%s" % ()` gives the empty string |
| `Format.StringWidth` | src/str.js:1446-1455 | corrected `%Ns`: max(N, len) units, blanks before, or after under `-`, whether or not `0` is given |
| `Format.StrayBlank` | src/str.js:1453 | `"%2s" % "ab"` gives `" ab"` as written and `"ab"` corrected |
| `Format.ZeroFlagString` | src/str.js:1337-1340 | `"%05s" % "ab"` gives `" 00ab"` as written and `"   ab"` corrected |
| `Format.PercentU` | src/str.js:1369-1458 | `"%u" % 5` gives `"undefined"` as written and `"5"` corrected |

## Left out

- Floating point. `%e`, `%f` and `%g` take their text from a `Host` parameter (`floatText`); the model states only how the width is applied to it. The early return for `inf`, `-inf` and `nan` (lines 1382-1390) is not modelled: the model passes that text through the width as well.
- `%r` under `FormatAsWritten` uses the corrected `ReprOf`, so it does not show the lone-surrogate loss of `ReprAsWritten`.
- `center` follows the program and puts the odd fill copy after the value; CPython puts it before when the width is odd. That rule is not modelled.
- UTF-8 encoding and decoding. `encode`, `decode` and `bytes(str, enc)` check the encoding name; the conversion itself is not modelled.
- `%s` of a bytes value decodes through the host (`Host.decode`).
- Case mapping beyond ASCII. `lower`, `upper` and `capitalize` call the host's `toLowerCase`/`toUpperCase`, whose tables are not modelled.
- The `str` constructor's conversions of other objects (`tp$str`, `objectRepr`), and interning.
- `__format__` is not modelled. `re_escape_` is not modelled as text; the escaped pattern is modelled by its meaning, a literal search.
- `join` accepts any iterable; the model takes the items as a sequence.
- `bytes` from an object with `__bytes__`, or from a general iterable, is not modelled. An opaque source is treated as not iterable (TypeError).
- A bool passed where an int is expected is not treated as an int.
- Slices with a step other than 1 are not modelled.
- `%` with a mapping whose keys are not str, or with an object that has `__getitem__` but is not a dict or a list.
- A missing positional argument for conversions other than `%s` is a TypeError in the model; the runtime fails on `undefined` deeper in.
- Format.IntegerConversion: `%d`, `%i`, `%o`, `%x` and `%X` of an argument that is not a number (a str, a bool, any other object) is a TypeError in the model. In the program no branch of `formatNumber` sets its text, and the internal assertion at line 1296 fails instead of a Python exception being raised.
- Python floats are not modelled as arguments; a float reaches the model as an `Opaque` object. So the `float_` branch of `formatNumber` (lines 1282-1286), which formats a float from its own text under `%d`, and the `float_` branch of `%c` (lines 1431-1432) are not modelled: the model refuses both with a TypeError.
- `Int` models an `int_`, a Python int that fits the host's safe integer range (|n| < 2^53). The branches for larger ints (`Sk.builtin.lng`) are not modelled. `%c` of such an int takes the code of its first decimal digit (lines 1433-1434), and `bytes(n)` of one falls through to iteration and raises TypeError (lines 29-30 apply to `int_` only); the model treats both like an `int_`.
- `asnum$` of a field width or precision is taken to pass the digit string through, so `*` reads as 0.
- `b"%c" % 300` puts a unit above 0xFF into bytes; the model builds the value as the code does and does not restore the byte invariant.
- `expandtabs` with a huge size makes the host allocate a huge array; only the RangeError below -1 is modelled.
- The empty-match exit of `split` (line 553) cannot be taken, because neither regex matches the empty string; `Splitting.NextMatch` states this.
- The `\ufffd` branch of `repr` (lines 430-432) cannot be reached. In legacy mode every unit above 0xFF is taken by an earlier branch. In Python 3 mode every branch that tests for such units is off.
- `src/lib/struct.js` declares no operation.
- HexCodec.BytesOf: its own contract states only the byte range of the result. For a str source it returns `Encoded(text)` without encoding it; which source gives which value is stated by `BytesAccepted` and `ItemsUnits`.
- Format.CharConversion: states only that `%c` yields at most one unit; `String.fromCharCode` keeps the low 16 bits of an int, which the model computes with `% 0x10000`.
- StrObject.SqSlice: its own contract only keeps the kind; its meaning is `SqSliceSpan`.
- StrObject.SubscriptOf: for a slice with a step other than 1 it states only that the kind is kept.
- Format.ValueFor: states the tuple case only; the dict, list and single-object cases are in its body.

## Findings

| source | as written | input that shows it | evidently intended | confidence | as-written member | corrected member |
|---|---|---|---|---|---|---|
| src/str.js:777 | the end bound is checked against `start !== None` instead of `end !== None` | `"abc".find("a", 0, None)` raises TypeError (`Search.FindNoneEndRefused`) | an `end` of None accepted as no bound | not executed | `Search.FindArgsCheckedAsWritten` | `Search.FindArgsChecked` |
| src/str.js:824-828 | the reverse lookup searches only the index entries, never the buffer's end | `s = "\U0001D11E"`: `s.find("", 1)` and `s.rfind("")` give -1 (`Search.EmptyTargetAtEndLost`) | 1, the position after the last character | not executed | `Search.ReverseLookupAsWritten` | `Search.ReverseLookup` |
| src/str.js:891 | without a count the replacement goes to JS `replace` as a string, which expands `$` patterns | `"a".replace("a", "$$")` gives `"$"` (`Occurrences.DollarPatternExpanded`) | `"$$"`: the replacement taken literally | not executed | `Occurrences.ReplaceAsWritten` | `Occurrences.ReplaceOf` |
| src/str.js:560 | `howmany && splits >= howmany` stops at once for a negative count | `"a,b,c".split(",", -1)` gives `["a", "b,c"]` (`Splitting.NegativeCountStopsEarly`) | a negative count means no limit | not executed | `Splitting.SplitAsWritten` | `Splitting.SplitOf` |
| src/str.js:694-713 | a start below `-len` stays negative and `slice` counts it from the end a second time (the end likewise) | `"abc".count("a", -5)` gives 0 (`Occurrences.NegativeStartWraps`) | 1: the bound clamped to 0 | not executed | `Occurrences.CountAsWritten` | `Occurrences.CountOf` |
| src/str.js:697-713 | a start equal to the length of a str with surrogates reads `codepoints[len]`, undefined, and `slice` starts at 0 | `"\U0001D11Ea".count("a", 2)` gives 1 (`Occurrences.AstralStartAtEnd`) | 0: nothing after the end | not executed | `Occurrences.CountAsWritten` | `Occurrences.CountOf` |
| src/str.js:574-576 | `None` as the characters to strip is refused | `" a".strip(None)` raises TypeError (`Strip.StripNoneRefused`) | None strips whitespace | not executed | `Strip.StripAsWritten` | `Strip.StripOf` |
| src/str.js:967 | `new Array(tabsize + 1)` throws for a size below -1 | `"a\tb".expandtabs(-2)` raises RangeError (`Tabs.NegativeTabSize`) | `"ab"`: a size of 0 or less removes tabs | not executed | `Tabs.ExpandTabsAsWritten` | `Tabs.ExpandTabsOf` |
| src/str.js:1016 | each terminated line is made a str, whatever the receiver | `b"a\n".splitlines()` gives `["a"]` as str (`Lines.BytesLinesBecomeStr`) | `[b"a"]` | not executed | `Lines.SplitLinesAsWritten` | `Lines.SplitLinesOf` |
| src/str.js:418-421 | the surrogate branch steps over the next unit even after a lone surrogate | legacy `repr("\ud800a")` loses the `a` (`Repr.LoneSurrogateSwallowsNext`) | `'\ud800a'` | not executed | `Repr.ReprAsWritten` | `Repr.ReprOf` |
| src/str.js:1453 | `%s` with a width passes a blank as the prefix to `handleWidth` | `"%2s" % "ab"` gives `" ab"` (`Format.StrayBlank`) | `"ab"` | not executed | `Format.FormatAsWritten` | `Format.FormatOf` |
| src/str.js:1337-1340 | the `0` flag zero-fills `%s` as it does numbers | `"%05s" % "ab"` gives `" 00ab"` (`Format.ZeroFlagString`) | `"   ab"`: `0` pads numbers only | not executed | `Format.FormatAsWritten` | `Format.FormatOf` |
| src/str.js:1369-1458 | `%u` has no branch, so the replacement function returns `undefined` | `"%u" % 5` gives `"undefined"` (`Format.PercentU`) | `"5"`, as `%d` gives | not executed | `Format.FormatAsWritten` | `Format.FormatOf` |

The corrected members carry the intended properties:
- `Search.FindInMeaning` and `Search.PositionOfStart` for find;
- `Occurrences.CountAgrees` and `Occurrences.CountFitsLength` for count;
- `Occurrences.ReplaceIdentity` and `Occurrences.ReplaceLength` for replace;
- `Splitting.SplitProperties` and `Splitting.JoinThenSplit` for split;
- `Strip.StripShape` for strip;
- `Tabs.ExpandColShape` for expandtabs;
- `Lines.SplitLinesOf` for splitlines;
- `Repr.ReprRoundTrip` for repr;
- `Format.StringWidth` and `Format.NumberShape` for `%`.
