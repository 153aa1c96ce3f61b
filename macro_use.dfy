/**
 * The newer macro-occurrence engine (src/MacroUse.py).  It walks the raw text
 * of a LaTeX file with an index (the "turtle"), finds each use of a named
 * macro that is not in a comment, extracts its brace arguments by tracking
 * the nesting depth, skips definitions such as `\newcommand{\Foo}`, and keeps
 * the exact slice of text each use occupies.  Optionally it also returns the
 * text between consecutive uses (the "configuration").
 */
module MacroUse {
  import opened PyStr
  import CommentStripper
  import opened OccurrenceModel

  /** `paires`: the closing character of each opening one. */
  function Closer(opening: char): (r: Option<char>)
    ensures r.Some? ==> r.value != opening
  {
    if opening == '{' then Some('}')
    else if opening == '[' then Some(']')
    else if opening == '`' then Some('\'')
    else None
  }

  /** `accepted_between_arguments`; its last entry is four spaces, not a tab. */
  const AcceptedBetweenArguments: seq<string> := ["%", "\n", " ", "    "]

  /** `s[turtle] in accepted_between_arguments` for one character. */
  predicate IsAccepted(c: char)
  {
    [c] in AcceptedBetweenArguments
  }

  lemma AcceptedChars(c: char)
    ensures IsAccepted(c) <==> c == '%' || c == '\n' || c == ' '
  {
    if IsAccepted(c) {
      assert [c] != "    ";
    }
  }

  // ---------------------------------------------------------------------
  // compactization

  /** `compactization`: every accepted string removed from `text`, in list order. */
  function Compactization(text: string, accepted: seq<string>): string
    decreases |accepted|
  {
    if |accepted| == 0 then text else Compactization(Replace(text, accepted[0], ""), accepted[1..])
  }

  /** `compactization`, as the loop that reassigns `text`. */
  method CompactizationLoop(text: string, accepted: seq<string>) returns (r: string)
    ensures r == Compactization(text, accepted)
  {
    r := text;
    for i := 0 to |accepted|
      invariant Compactization(text, accepted) == Compactization(r, accepted[i..])
    {
      assert accepted[i..][1..] == accepted[i + 1..];
      r := Replace(r, accepted[i], "");
    }
  }

  /** The characters of `s` other than `c`, in order. */
  function Without(s: string, c: char): (r: string)
    ensures |r| <= |s|
    ensures Free(r, c)
  {
    if |s| == 0 then "" else (if s[0] == c then "" else [s[0]]) + Without(s[1..], c)
  }

  lemma {:induction false} WithoutConcat(a: string, b: string, c: char)
    ensures Without(a + b, c) == Without(a, c) + Without(b, c)
    decreases |a|
  {
    if |a| > 0 {
      var head := if a[0] == c then "" else [a[0]];
      assert (a + b)[0] == a[0] && (a + b)[1..] == a[1..] + b;
      WithoutConcat(a[1..], b, c);
      assert Without(a + b, c) == head + (Without(a[1..], c) + Without(b, c));
    } else {
      assert a + b == b;
    }
  }

  lemma {:induction false} WithoutFree(s: string, c: char)
    requires Free(s, c)
    ensures Without(s, c) == s
    decreases |s|
  {
    if |s| > 0 {
      WithoutFree(s[1..], c);
    }
  }

  /** A string free of `x` contains no pattern starting with `x`. */
  lemma FreeNoPattern(s: string, pat: string, x: char)
    requires Free(s, x) && |pat| > 0 && pat[0] == x
    ensures !Contains(s, pat)
  {
  }

  lemma FreeBeforeFind(s: string, c: char)
    ensures var i := Find(s, [c]); i >= 0 ==> Free(s[..i], c) && s[i] == c
    ensures Find(s, [c]) < 0 ==> Free(s, c)
  {
    var i := Find(s, [c]);
    var n := if i < 0 then |s| else i;
    forall k | 0 <= k < n ensures s[k] != c {
      assert !OccursAt(s, [c], k);
      assert s[k..k + 1] == [s[k]];
    }
    if i >= 0 {
      assert s[i..i + 1] == [c];
    }
  }

  /** Replacing one character by nothing keeps the other characters in order. */
  lemma {:induction false} ReplaceCharByNothing(s: string, c: char)
    ensures Replace(s, [c], "") == Without(s, c)
    decreases |s|
  {
    var i := Find(s, [c]);
    FreeBeforeFind(s, c);
    if i < 0 {
      WithoutFree(s, c);
    } else {
      var rest := s[i + 1..];
      ReplaceCharByNothing(rest, c);
      assert Split(s, [c]) == [s[..i]] + Split(rest, [c]);
      JoinCons(s[..i], Split(rest, [c]), "");
      assert s[..i] + "" == s[..i];
      WithoutAtFirst(s, i, c);
    }
  }

  /** Removing `c` from `s` whose first `c` is at `i`. */
  lemma WithoutAtFirst(s: string, i: nat, c: char)
    requires i < |s| && s[i] == c && Free(s[..i], c)
    ensures Without(s, c) == s[..i] + Without(s[i + 1..], c)
  {
    assert s == s[..i] + [c] + s[i + 1..];
    WithoutConcat(s[..i] + [c], s[i + 1..], c);
    WithoutConcat(s[..i], [c], c);
    WithoutFree(s[..i], c);
  }

  /** `s` with every '%', newline and space removed, in order. */
  function Compact(s: string): string
  {
    Without(Without(Without(s, '%'), '\n'), ' ')
  }

  /**
   * With this module's list, `compactization` removes exactly the '%',
   * newline and space characters and keeps the others in order; the
   * four-space entry finds nothing left to remove.
   */
  lemma CompactizationRemovesSeparators(text: string)
    ensures Compactization(text, AcceptedBetweenArguments) == Compact(text)
    ensures Free(Compact(text), '%') && Free(Compact(text), '\n') && Free(Compact(text), ' ')
  {
    var acc := AcceptedBetweenArguments;
    ReplaceCharByNothing(text, '%');
    var a := Without(text, '%');
    ReplaceCharByNothing(a, '\n');
    var b := Without(a, '\n');
    ReplaceCharByNothing(b, ' ');
    var c := Without(b, ' ');
    assert acc[1..][1..][1..][1..] == [];
    FreeNoPattern(c, "    ", ' ');
    ReplaceAbsent(c, "    ", "");
    FreeKept(a, '%', '\n');
    FreeKept(b, '%', ' ');
    FreeKept(b, '\n', ' ');
  }

  lemma {:induction false} FreeKept(s: string, c: char, d: char)
    requires Free(s, c)
    ensures Free(Without(s, d), c)
    decreases |s|
  {
    if |s| > 0 {
      FreeKept(s[1..], c, d);
    }
  }

  // ---------------------------------------------------------------------
  // SearchFitBrace

  /** The three values `SearchFitBrace` returns: inner text, opening index, closing index. */
  datatype Fit = Fit(inner: string, start: int, end: int)

  /** The depth counter after one more character. */
  function Step(level: int, c: char, opening: char, close: char): int
  {
    level + (if c == opening then 1 else 0) - (if c == close then 1 else 0)
  }

  /**
   * The `for i in range(start, len(text))` loop of `SearchFitBrace` from index
   * `i` on, with Python's reading of index -1 as the last character.
   */
  function WalkFrom(text: string, i: int, level: int, start: int, opening: char, close: char): (r: Result<Option<Fit>>)
    requires i >= -1
    ensures r.Ok? && r.value.Some? ==> r.value.value.start == start && i <= r.value.value.end < |text|
    decreases |text| - i
  {
    if i >= |text| then Ok(None)
    else if i < 0 && |text| == 0 then Err(IndexError)
    else
      var c := if i < 0 then text[|text| + i] else text[i];
      var l := Step(level, c, opening, close);
      if l == 0 then Ok(Some(Fit(Slice(text, start + 1, i), start, i)))
      else WalkFrom(text, i + 1, l, start, opening, close)
  }

  /** The index where the walk starts: the first `opening` at or after `position`, or `position - 1`. */
  function StartPosition(text: string, position: nat, opening: char): (r: int)
    ensures r >= -1
  {
    position + Find(Slice(text, position, |text|), [opening])
  }

  /** `SearchFitBrace(text, position, opening)` with the given closing character. */
  function MatchBrace(text: string, position: nat, opening: char, close: char): (r: Result<Option<Fit>>)
    ensures r.Ok? && r.value.Some? ==> -1 <= r.value.value.end < |text|
  {
    var start := StartPosition(text, position, opening);
    WalkFrom(text, start, 0, start, opening, close)
  }

  /** `SearchFitBrace`: `None` when the depth never gets back to 0. */
  function FitBrace(text: string, position: nat, opening: char): (r: Result<Option<Fit>>)
    ensures r.Ok? && r.value.Some? ==> -1 <= r.value.value.end < |text|
  {
    match Closer(opening)
    case None => Err(KeyError)
    case Some(close) => MatchBrace(text, position, opening, close)
  }

  /** One step of the walk. */
  lemma WalkStep(text: string, i: int, level: int, start: int, opening: char, close: char)
    requires -1 <= i < |text| && (i < 0 ==> |text| > 0)
    ensures var c := if i < 0 then text[|text| + i] else text[i];
      var l := Step(level, c, opening, close);
      WalkFrom(text, i, level, start, opening, close)
      == if l == 0 then Ok(Some(Fit(Slice(text, start + 1, i), start, i))) else WalkFrom(text, i + 1, l, start, opening, close)
  {
  }

  /** The depth loop of `SearchFitBrace`, shared by both engines. */
  method MatchBraceLoop(text: string, position: nat, opening: char, close: char) returns (r: Result<Option<Fit>>)
    ensures r == MatchBrace(text, position, opening, close)
  {
    var level := 0;
    // position + text[position:].find(opening)
    var startPosition := StartPosition(text, position, opening);
    var i := startPosition;
    while i < |text|
      invariant i >= -1
      invariant MatchBrace(text, position, opening, close) == WalkFrom(text, i, level, startPosition, opening, close)
      decreases |text| - i
    {
      if i < 0 && |text| == 0 {
        return Err(IndexError);
      }
      var c := if i < 0 then text[|text| + i] else text[i];
      WalkStep(text, i, level, startPosition, opening, close);
      if c == opening {
        level := level + 1;
      }
      if c == close {
        level := level - 1;
      }
      if level == 0 {
        return Ok(Some(Fit(Slice(text, startPosition + 1, i), startPosition, i)));
      }
      i := i + 1;
    }
    return Ok(None);
  }

  /** `SearchFitBrace(text, position, opening)`. */
  method SearchFitBrace(text: string, position: nat, opening: char) returns (r: Result<Option<Fit>>)
    ensures r == FitBrace(text, position, opening)
  {
    var close := Closer(opening);
    if close.None? {
      return Err(KeyError);
    }
    r := MatchBraceLoop(text, position, opening, close.value);
  }

  /** Number of `opening` minus number of `close` characters. */
  function Depth(s: string, opening: char, close: char): int
  {
    if |s| == 0 then 0 else Step(Depth(s[..|s| - 1], opening, close), s[|s| - 1], opening, close)
  }

  /** The depth of `text[start:k]`. */
  function Nesting(text: string, start: nat, k: int, opening: char, close: char): int
    requires start <= k <= |text|
  {
    Depth(text[start..k], opening, close)
  }

  /** The walk from inside a group ends at the first index where the depth is back to 0. */
  lemma {:induction false} WalkFinds(text: string, i: int, level: int, start: nat, opening: char, close: char)
    requires opening != close
    requires start < i <= |text| && level == Nesting(text, start, i, opening, close)
    requires forall k :: start < k <= i ==> Nesting(text, start, k, opening, close) > 0
    ensures match WalkFrom(text, i, level, start, opening, close)
      case Ok(Some(f)) =>
        && f.start == start && i <= f.end < |text| && text[f.end] == close
        && f.inner == text[start + 1..f.end]
        && Nesting(text, start, f.end + 1, opening, close) == 0
        && forall k :: start < k <= f.end ==> Nesting(text, start, k, opening, close) > 0
      case Ok(None) => forall k :: start < k <= |text| ==> Nesting(text, start, k, opening, close) > 0
      case Err(_) => false
    decreases |text| - i
  {
    if i < |text| {
      DepthStep(text, start, i, opening, close);
      var l := Step(level, text[i], opening, close);
      if l != 0 {
        WalkFinds(text, i + 1, l, start, opening, close);
      } else {
        assert text[i] == close;
        assert WalkFrom(text, i, level, start, opening, close) == Ok(Some(Fit(text[start + 1..i], start, i)));
      }
    }
  }

  /** One more character moves the depth by one `Step`. */
  lemma DepthStep(text: string, start: nat, i: nat, opening: char, close: char)
    requires start <= i < |text|
    ensures Nesting(text, start, i + 1, opening, close) == Step(Nesting(text, start, i, opening, close), text[i], opening, close)
  {
    assert text[start..i + 1][..i - start] == text[start..i];
    assert text[start..i + 1][i - start] == text[i];
  }

  /**
   * When an `opening` character follows `position`, the matcher starts at the
   * first one; on success the closer sits at `end`, the inner text lies
   * strictly between, and the depth stays positive strictly inside; otherwise
   * the depth never gets back to 0.
   */
  lemma MatchBraceSpec(text: string, position: nat, opening: char, close: char)
    requires opening != close
    requires Find(Slice(text, position, |text|), [opening]) >= 0
    ensures var start := StartPosition(text, position, opening);
      && position <= start < |text| && text[start] == opening
      && (forall j :: position <= j < start ==> text[j] != opening)
      && match MatchBrace(text, position, opening, close)
        case Ok(Some(f)) =>
          && f.start == start && start < f.end < |text| && text[f.end] == close
          && f.inner == text[start + 1..f.end]
          && Nesting(text, start, f.end + 1, opening, close) == 0
          && forall k :: start < k <= f.end ==> Nesting(text, start, k, opening, close) > 0
        case Ok(None) => forall k :: start < k <= |text| ==> Nesting(text, start, k, opening, close) > 0
        case Err(_) => false
  {
    var start := StartPosition(text, position, opening);
    StartPositionSpec(text, position, opening);
    MatchBraceEnters(text, position, opening, close);
    DepthStep(text, start, start, opening, close);
    assert text[start..start] == [];
    WalkFinds(text, start + 1, 1, start, opening, close);
  }

  /** The walk starts at the first `opening` at or after `position`. */
  lemma StartPositionSpec(text: string, position: nat, opening: char)
    requires Find(Slice(text, position, |text|), [opening]) >= 0
    ensures var start := StartPosition(text, position, opening);
      && position <= start < |text| && text[start] == opening
      && (forall j :: position <= j < start ==> text[j] != opening)
  {
    var g := Slice(text, position, |text|);
    var f := Find(g, [opening]);
    var start := position + f;
    assert g == text[position..];
    assert g[f..f + 1] == [opening];
    assert text[start] == g[f];
    forall j | position <= j < start ensures text[j] != opening {
      assert !OccursAt(g, [opening], j - position);
      assert g[j - position..j - position + 1] == [text[j]];
    }
  }

  /** From its first `opening`, the walk goes on at depth 1 from the next index. */
  lemma MatchBraceEnters(text: string, position: nat, opening: char, close: char)
    requires opening != close
    requires var start := StartPosition(text, position, opening); 0 <= start < |text| && text[start] == opening
    ensures var start := StartPosition(text, position, opening);
      MatchBrace(text, position, opening, close) == WalkFrom(text, start + 1, 1, start, opening, close)
  {
  }

  /** `FitBrace` is the matcher above for the three pairs of the table. */
  lemma FitBraceSpec(text: string, position: nat, opening: char)
    requires Closer(opening).Some?
    ensures FitBrace(text, position, opening) == MatchBrace(text, position, opening, Closer(opening).value)
  {
  }

  /**
   * With no `opening` anywhere and `position` 0, the walk starts at index -1,
   * which Python reads as the last character: unless that character is the
   * closer, the "argument" is the whole text but its last character.
   */
  lemma FitBraceWithoutOpening(text: string, opening: char, close: char)
    requires opening != close && |text| > 0 && text[|text| - 1] != close
    requires forall j :: 0 <= j < |text| ==> text[j] != opening
    ensures MatchBrace(text, 0, opening, close) == Ok(Some(Fit(text[..|text| - 1], -1, -1)))
  {
    var g := Slice(text, 0, |text|);
    assert g == text;
    forall j ensures !OccursAt(g, [opening], j) {
      if 0 <= j < |g| {
        assert g[j..j + 1] == [g[j]];
      }
    }
    assert Find(g, [opening]) == -1;
  }

  // ---------------------------------------------------------------------
  // ContinueSearch

  /**
   * The `while turtle < len(s)` loop of `ContinueSearch` from `turtle` on: a
   * '%' sends the turtle to the next newline (or ends the search when there
   * is none), then the character is checked.
   */
  function ContinueFrom(s: string, turtle: nat, opening: char): (bool, int)
    requires turtle <= |s|
    decreases |s| - turtle, 1
  {
    if turtle == |s| then (false, -1)
    else if s[turtle] == '%' then
      var pos := Find(s[turtle..], "\n");
      if pos < 0 then (false, -1) else Inspect(s, turtle + pos, opening)
    else Inspect(s, turtle, opening)
  }

  /** The two tests made on the character under the turtle. */
  function Inspect(s: string, t: nat, opening: char): (bool, int)
    requires t < |s|
    decreases |s| - t, 0
  {
    if s[t] == opening then (true, t)
    else if !IsAccepted(s[t]) then (false, -1)
    else ContinueFrom(s, t + 1, opening)
  }

  /** `ContinueSearch(s, opening)`; an opening character without a closer raises `KeyError`. */
  function ContinueSearchOf(s: string, opening: char): Result<(bool, int)>
  {
    if Closer(opening).None? then Err(KeyError) else Ok(ContinueFrom(s, 0, opening))
  }

  method ContinueSearch(s: string, opening: char) returns (r: Result<(bool, int)>)
    ensures r == ContinueSearchOf(s, opening)
  {
    var close := Closer(opening);
    if close.None? {
      return Err(KeyError);
    }
    var turtle := 0;
    while turtle < |s|
      invariant turtle <= |s|
      invariant ContinueFrom(s, 0, opening) == ContinueFrom(s, turtle, opening)
      decreases |s| - turtle
    {
      if s[turtle] == '%' {
        var a := s[turtle..];
        var pos := Find(a, "\n");
        if pos == -1 {
          return Ok((false, -1));
        }
        turtle := turtle + pos;
      }
      if s[turtle] == opening {
        return Ok((true, turtle));
      }
      if !IsAccepted(s[turtle]) {
        return Ok((false, -1));
      }
      turtle := turtle + 1;
    }
    return Ok((false, -1));
  }

  /** Index `j` lies after a '%' with no newline in between (the newline itself included). */
  predicate InCommentSpan(s: string, j: int)
    requires 0 <= j < |s|
  {
    exists i :: 0 <= i <= j && s[i] == '%' && Free(s[i..j], '\n')
  }

  /** Every character of `s[..k]` is a space, a newline or part of a `%` comment. */
  predicate SeparatedUpTo(s: string, k: int)
    requires 0 <= k <= |s|
  {
    forall j :: 0 <= j < k ==> s[j] == ' ' || s[j] == '\n' || InCommentSpan(s, j)
  }

  lemma {:induction false} ContinueFromSound(s: string, turtle: nat, opening: char)
    requires turtle <= |s| && SeparatedUpTo(s, turtle)
    ensures var r := ContinueFrom(s, turtle, opening);
      if r.0 then turtle <= r.1 < |s| && s[r.1] == opening && SeparatedUpTo(s, r.1) else r.1 == -1
    decreases |s| - turtle, 1
  {
    if turtle < |s| {
      var r := ContinueFrom(s, turtle, opening);
      if s[turtle] == '%' {
        var pos := Find(s[turtle..], "\n");
        if pos >= 0 {
          var t := turtle + pos;
          assert r == Inspect(s, t, opening);
          CommentSkipped(s, turtle);
          InspectSound(s, t, opening);
        }
      } else {
        assert r == Inspect(s, turtle, opening);
        InspectSound(s, turtle, opening);
      }
    }
  }

  /** Skipping from a '%' to the next newline keeps everything passed over separated. */
  lemma CommentSkipped(s: string, turtle: nat)
    requires turtle < |s| && s[turtle] == '%' && SeparatedUpTo(s, turtle)
    requires Find(s[turtle..], "\n") >= 0
    ensures var t := turtle + Find(s[turtle..], "\n"); t < |s| && SeparatedUpTo(s, t)
  {
    var a := s[turtle..];
    var pos := Find(a, "\n");
    var t := turtle + pos;
    FreeBeforeFind(a, '\n');
    assert Free(a[..pos], '\n');
    forall j | turtle <= j < t ensures InCommentSpan(s, j) {
      assert s[turtle..j] == a[..pos][..j - turtle];
      assert Free(s[turtle..j], '\n');
    }
  }

  lemma {:induction false} InspectSound(s: string, t: nat, opening: char)
    requires t < |s| && SeparatedUpTo(s, t)
    ensures var r := Inspect(s, t, opening);
      if r.0 then t <= r.1 < |s| && s[r.1] == opening && SeparatedUpTo(s, r.1) else r.1 == -1
    decreases |s| - t, 0
  {
    if s[t] != opening && IsAccepted(s[t]) {
      AcceptedChars(s[t]);
      if s[t] == '%' {
        assert s[t..t] == [];
        assert InCommentSpan(s, t);
      }
      ContinueFromSound(s, t + 1, opening);
    }
  }

  /** The index part of `ContinueFromSound`, without the separator condition. */
  lemma ContinueFromFound(s: string, opening: char)
    ensures var r := ContinueFrom(s, 0, opening);
      if r.0 then 0 <= r.1 < |s| && s[r.1] == opening else r.1 == -1
  {
    ContinueFromSound(s, 0, opening);
  }

  /**
   * `ContinueSearch` answers `(True, k)` only when `s[k]` is the opening
   * character and everything before it is spaces, newlines and `%` comments;
   * otherwise the offset is -1.
   */
  lemma ContinueSearchSound(s: string, opening: char)
    requires Closer(opening).Some?
    ensures var r := ContinueSearchOf(s, opening).value;
      if r.0 then 0 <= r.1 < |s| && s[r.1] == opening && SeparatedUpTo(s, r.1) else r.1 == -1
  {
    ContinueFromSound(s, 0, opening);
  }

  /** Spaces and newlines followed by the opening character: the search finds it. */
  lemma {:induction false} ContinueSearchFinds(s: string, k: nat, opening: char)
    requires Closer(opening).Some? && k < |s| && s[k] == opening
    requires forall j :: 0 <= j < k ==> s[j] == ' ' || s[j] == '\n'
    ensures ContinueSearchOf(s, opening) == Ok((true, k))
  {
    var t := 0;
    while t < k
      invariant t <= k
      invariant ContinueFrom(s, 0, opening) == ContinueFrom(s, t, opening)
    {
      AcceptedChars(s[t]);
      t := t + 1;
    }
  }

  /** A '%' with no newline after it ends the search with `(False, -1)`. */
  lemma ContinueSearchUnterminatedComment(s: string, opening: char)
    requires Closer(opening).Some? && |s| > 0 && s[0] == '%' && Free(s, '\n')
    ensures ContinueSearchOf(s, opening) == Ok((false, -1))
  {
    assert s[0..] == s;
    forall j ensures !OccursAt(s, "\n", j) {
      if 0 <= j < |s| {
        assert s[j..j + 1] == [s[j]];
      }
    }
  }

  // ---------------------------------------------------------------------
  // SearchArguments

  /**
   * What `SearchArguments` does: return the arguments and `as_written`, fall
   * off the end of its loop (an implicit `None`), or raise.
   */
  datatype ArgsOutcome = Found(arguments: seq<string>, asWritten: string) | NoneReturned | Raised(error: PyError)

  /** The end of one pass of the loop body: leave with an outcome, or go round again. */
  datatype Pass = Done(outcome: ArgsOutcome) | Again(turtle: nat, found: seq<string>)

  /**
   * One pass of the `while len(arguments) < number_of_arguments` loop of
   * `SearchArguments`: fit the next brace group, then look past it.
   */
  function ArgumentPass(s: string, n: nat, turtle: nat, args: seq<string>): (p: Pass)
    requires |args| < n
    ensures p.Again? ==> |p.found| == |args| + 1 && p.found[..|args|] == args
    ensures p.Done? && p.outcome.Found? ==> |p.outcome.arguments| == |args| + 1
  {
    match FitBrace(s, turtle, '{')
    case Err(e) => Done(Raised(e))
    // unpacking the `None` of an unmatched brace
    case Ok(None) => Done(Raised(TypeError))
    case Ok(Some(f)) =>
      var found := args + [f.inner];
      assert found[..|args|] == args;
      AfterArgument(s, n, f.end + 1, found)
  }

  /**
   * The rest of a pass once an argument closed just before `t`: stop at the
   * end of the text, look past separators for another `{`, and stop when
   * there is none or the count is reached.
   */
  function AfterArgument(s: string, n: nat, t: nat, found: seq<string>): (p: Pass)
    ensures p.Again? ==> p.found == found
    ensures p.Done? ==> p.outcome.Found? && p.outcome.arguments == found
  {
    if t >= |s| then Done(Found(found, s))
    else if s[t] != '{' then
      var next := ContinueFrom(s[t..], 0, '{');
      ContinueFromFound(s[t..], '{');
      var t2: nat := if next.0 then t + next.1 - 1 else t;
      if !next.0 || |found| == n then Done(Found(found, Slice(s, 0, t2)))
      else Again(t2, found)
    else Again(t, found)
  }

  /** The loop of `SearchArguments` from `turtle` with the arguments found so far. */
  function ArgumentsFrom(s: string, n: nat, turtle: nat, args: seq<string>): ArgsOutcome
    decreases n - |args|
  {
    if |args| >= n then NoneReturned
    else match ArgumentPass(s, n, turtle, args)
      case Done(o) => o
      case Again(t, found) => ArgumentsFrom(s, n, t, found)
  }

  /** `SearchArguments(s, number_of_arguments)`. */
  function SearchArgumentsOf(s: string, n: nat): ArgsOutcome
  {
    ArgumentsFrom(s, n, 0, [])
  }

  method SearchArguments(s: string, n: nat) returns (r: ArgsOutcome)
    ensures r == SearchArgumentsOf(s, n)
  {
    var turtle: nat := 0;
    var arguments: seq<string> := [];
    while |arguments| < n
      invariant SearchArgumentsOf(s, n) == ArgumentsFrom(s, n, turtle, arguments)
      decreases n - |arguments|
    {
      var pass := NextPass(s, n, turtle, arguments);
      if pass.Done? {
        return pass.outcome;
      }
      turtle, arguments := pass.turtle, pass.found;
    }
    return NoneReturned;
  }

  /** The body of the loop of `SearchArguments`. */
  method NextPass(s: string, n: nat, turtle: nat, args: seq<string>) returns (p: Pass)
    requires |args| < n
    ensures p == ArgumentPass(s, n, turtle, args)
  {
    var fit := SearchFitBrace(s, turtle, '{');
    if fit.Err? {
      return Done(Raised(fit.error));
    }
    if fit.value.None? {
      return Done(Raised(TypeError));
    }
    var f := fit.value.value;
    p := NextAfterArgument(s, n, f.end + 1, args + [f.inner]);
  }

  /** The part of the loop body after an argument was appended. */
  method NextAfterArgument(s: string, n: nat, t: nat, found: seq<string>) returns (p: Pass)
    ensures p == AfterArgument(s, n, t, found)
  {
    if t >= |s| {
      return Done(Found(found, s));
    }
    if s[t] != '{' {
      var next := ContinueSearch(s[t..], '{');
      ContinueFromFound(s[t..], '{');
      var boo := next.value.0;
      var t2 := t;
      if boo {
        t2 := t + next.value.1 - 1;
      }
      if !boo || |found| == n {
        return Done(Found(found, Slice(s, 0, t2)));
      }
      return Again(t2, found);
    }
    p := Again(t, found);
  }

  lemma {:induction false} ArgumentsFromBounds(s: string, n: nat, turtle: nat, args: seq<string>)
    ensures var r := ArgumentsFrom(s, n, turtle, args);
      r.Found? ==> |args| < |r.arguments| <= n && r.arguments[..|args|] == args && StartsWith(s, r.asWritten)
    decreases n - |args|
  {
    if |args| < n {
      var p := ArgumentPass(s, n, turtle, args);
      if p.Done? && p.outcome.Found? {
        assert p.outcome.arguments[..|args|] == args;
        assert StartsWith(s, p.outcome.asWritten);
      }
      if p.Again? {
        ArgumentsFromBounds(s, n, p.turtle, p.found);
        var r := ArgumentsFrom(s, n, p.turtle, p.found);
        if r.Found? {
          assert r.arguments[..|args|] == r.arguments[..|args| + 1][..|args|];
        }
      }
    }
  }

  /**
   * `SearchArguments` returns at least one and at most `number_of_arguments`
   * arguments, and its `as_written` is a prefix of `s`.
   */
  lemma SearchArgumentsBounds(s: string, n: nat)
    ensures var r := SearchArgumentsOf(s, n);
      r.Found? ==> 1 <= |r.arguments| <= n && StartsWith(s, r.asWritten)
  {
    ArgumentsFromBounds(s, n, 0, []);
  }

  /**
   * When the first argument closes before a character that is neither `{` nor
   * a separator, the search stops there without error, whatever the count.
   */
  lemma SearchArgumentsStopsEarly(s: string, n: nat, f: Fit)
    requires n >= 1 && FitBrace(s, 0, '{') == Ok(Some(f))
    requires f.end + 1 < |s| && s[f.end + 1] != '{' && !IsAccepted(s[f.end + 1])
    ensures SearchArgumentsOf(s, n) == Found([f.inner], s[..f.end + 1])
  {
    var t := f.end + 1;
    assert s[t..][0] == s[t];
    assert ContinueFrom(s[t..], 0, '{') == (false, -1) by {
      AcceptedChars(s[t]);
    }
    assert [] + [f.inner] == [f.inner];
  }

  /**
   * Once the requested count is reached, a `{` right after the last closing
   * brace makes the loop end without a `return`: the function returns `None`.
   */
  lemma SearchArgumentsFallsOff(s: string, f: Fit)
    requires FitBrace(s, 0, '{') == Ok(Some(f))
    requires f.end + 1 < |s| && s[f.end + 1] == '{'
    ensures SearchArgumentsOf(s, 1) == NoneReturned
  {
    assert [] + [f.inner] == [f.inner];
  }

  /**
   * The rest of a pass as `SearchArguments` evidently intends it: once the
   * count is reached, a `{` right after the last closing brace ends the
   * search with the arguments and the text up to that brace.
   */
  function AfterArgumentIntended(s: string, n: nat, t: nat, found: seq<string>): Pass
  {
    if t < |s| && s[t] == '{' && |found| == n then Done(Found(found, s[..t]))
    else AfterArgument(s, n, t, found)
  }

  /** One pass of the intended loop. */
  function ArgumentPassIntended(s: string, n: nat, turtle: nat, args: seq<string>): (p: Pass)
    requires |args| < n
    ensures p.Again? ==> |p.found| == |args| + 1 && |p.found| < n
  {
    match FitBrace(s, turtle, '{')
    case Err(e) => Done(Raised(e))
    case Ok(None) => Done(Raised(TypeError))
    case Ok(Some(f)) => AfterArgumentIntended(s, n, f.end + 1, args + [f.inner])
  }

  /** The intended loop: leaving it returns what was found rather than `None`. */
  function ArgumentsFromIntended(s: string, n: nat, turtle: nat, args: seq<string>): ArgsOutcome
    decreases n - |args|
  {
    if |args| >= n then Found(args, Slice(s, 0, turtle))
    else match ArgumentPassIntended(s, n, turtle, args)
      case Done(o) => o
      case Again(t, found) => ArgumentsFromIntended(s, n, t, found)
  }

  /**
   * The intended search never returns `None`; it returns what
   * `SearchArguments` returns whenever that is not `None`, and where
   * `SearchArguments` falls off its loop it returns the requested number
   * of arguments.
   */
  lemma {:induction false} ArgumentsFromIntendedSpec(s: string, n: nat, turtle: nat, args: seq<string>)
    ensures ArgumentsFromIntended(s, n, turtle, args) != NoneReturned
    ensures ArgumentsFrom(s, n, turtle, args) != NoneReturned ==>
      ArgumentsFromIntended(s, n, turtle, args) == ArgumentsFrom(s, n, turtle, args)
    ensures ArgumentsFrom(s, n, turtle, args) == NoneReturned && |args| < n ==>
      ArgumentsFromIntended(s, n, turtle, args).Found? && |ArgumentsFromIntended(s, n, turtle, args).arguments| == n
    decreases n - |args|
  {
    if |args| < n {
      match FitBrace(s, turtle, '{')
      case Err(_) =>
      case Ok(None) =>
      case Ok(Some(f)) =>
        var t := f.end + 1;
        var found := args + [f.inner];
        if t < |s| && s[t] == '{' && |found| == n {
          assert ArgumentPass(s, n, turtle, args) == Again(t, found);
        } else {
          var p := AfterArgument(s, n, t, found);
          assert ArgumentPassIntended(s, n, turtle, args) == p == ArgumentPass(s, n, turtle, args);
          if p.Again? {
            ArgumentsFromIntendedSpec(s, n, p.turtle, p.found);
          }
        }
    }
  }

  /** `SearchArguments` as intended: never `None`, and otherwise the same result. */
  lemma SearchArgumentsIntended(s: string, n: nat)
    ensures ArgumentsFromIntended(s, n, 0, []) != NoneReturned
    ensures SearchArgumentsOf(s, n) != NoneReturned ==> ArgumentsFromIntended(s, n, 0, []) == SearchArgumentsOf(s, n)
    ensures n >= 1 && SearchArgumentsOf(s, n) == NoneReturned ==>
      ArgumentsFromIntended(s, n, 0, []).Found? && |ArgumentsFromIntended(s, n, 0, []).arguments| == n
  {
    ArgumentsFromIntendedSpec(s, n, 0, []);
  }

  // ---------------------------------------------------------------------
  // NextMacroCandidate

  /** A character that may continue a macro name: `[A-Za-z@]`. */
  predicate IsNameChar(c: char)
  {
    IsAsciiLetter(c) || c == '@'
  }

  /** The search `name[^A-Za-z@]` matches at `k`: the name, then one more character that cannot continue it. */
  predicate CandidateAt(s: string, name: string, k: int)
  {
    OccursAt(s, name, k) && k + |name| < |s| && !IsNameChar(s[k + |name|])
  }

  /** Leftmost match at or after `i`, or -1. */
  function CandidateFrom(s: string, name: string, i: nat): (r: int)
    ensures r == -1 || (i <= r && r + |name| < |s|)
    decreases |s| - i
  {
    if i >= |s| then -1
    else if CandidateAt(s, name, i) then i
    else CandidateFrom(s, name, i + 1)
  }

  lemma {:induction false} CandidateFromSpec(s: string, name: string, i: nat)
    ensures var r := CandidateFrom(s, name, i);
      && (r >= 0 ==> CandidateAt(s, name, r) && forall j :: i <= j < r ==> !CandidateAt(s, name, j))
      && (r == -1 ==> forall j :: i <= j ==> !CandidateAt(s, name, j))
    decreases |s| - i
  {
    if i < |s| && !CandidateAt(s, name, i) {
      CandidateFromSpec(s, name, i + 1);
    }
  }

  /** `init_line`: the index of the last newline before `k`, or 0 when there is none. */
  function LineStart(s: string, k: nat): (r: nat)
    requires k <= |s|
    ensures r <= k
  {
    var p := RFind(s[..k], '\n');
    if p == -1 then 0 else p
  }

  lemma PatternShift(s: string, a: nat, b: nat)
    requires a <= b <= |s|
    ensures (exists m :: CommentStripper.PatternAt(s[a..b], m))
        <==> exists j :: a <= j && j + 1 < b && CommentStripper.PatternAt(s, j)
  {
    var c := s[a..b];
    if exists m :: CommentStripper.PatternAt(c, m) {
      var m :| CommentStripper.PatternAt(c, m);
      assert c[m] == s[a + m] && c[m + 1] == s[a + m + 1];
      assert CommentStripper.PatternAt(s, a + m);
    }
    if exists j :: a <= j && j + 1 < b && CommentStripper.PatternAt(s, j) {
      var j :| a <= j && j + 1 < b && CommentStripper.PatternAt(s, j);
      assert c[j - a] == s[j] && c[j - a + 1] == s[j + 1];
      assert CommentStripper.PatternAt(c, j - a);
    }
  }

  /** `NextMacroCandidate(s, macro_name)`: found, where, and whether in a comment. */
  function NextMacroCandidate(s: string, name: string): (r: (bool, int, bool))
    ensures r.0 ==> 0 <= r.1 && r.1 + |name| < |s|
  {
    var k := CandidateFrom(s, name, 0);
    if k < 0 then (false, -1, false)
    else
      var initLine := LineStart(s, k);
      var candidate := s[initLine..k];
      (true, k, CommentStripper.SearchPattern(candidate) >= 0)
  }

  /**
   * `NextMacroCandidate` reports the leftmost index where the name occurs
   * followed by a character that cannot continue it, or `(False, -1, False)`
   * when there is none; the use is flagged as in a comment iff the text from
   * the last newline up to it holds a '%' preceded by a character other than
   * a backslash (the newline itself counts as such a character).
   */
  lemma NextMacroCandidateSpec(s: string, name: string)
    ensures var r := NextMacroCandidate(s, name);
      && (!r.0 <==> forall j :: !CandidateAt(s, name, j))
      && (!r.0 ==> r == (false, -1, false))
      && (r.0 ==> CandidateAt(s, name, r.1) && forall j :: 0 <= j < r.1 ==> !CandidateAt(s, name, j))
      && (r.0 ==> (r.2 <==> exists j :: LineStart(s, r.1) <= j && j + 1 < r.1 && CommentStripper.PatternAt(s, j)))
  {
    var k := CandidateFrom(s, name, 0);
    CandidateFromSpec(s, name, 0);
    if k >= 0 {
      PatternShift(s, LineStart(s, k), k);
    }
  }

  // ---------------------------------------------------------------------
  // SearchUseOfMacro

  /** The uses kept and, one more than them, the configuration segments. */
  datatype Scan = Scan(uses: seq<OccurrenceValue>, configuration: seq<string>)

  /** What one turn of the `while boo` loop of `SearchUseOfMacro` meets from `turtle`. */
  datatype Turn =
    | NoCandidate
    | InComment(next: nat)
    | Failed(error: PyError)
    | Candidate(occ: OccurrenceValue, definition: bool)

  /** `test[len(macro_name)] == '}'` on the compactized `as_written`; `IndexError` when too short. */
  function IsDefinition(name: string, asWritten: string): Result<bool>
  {
    var test := Compactization(asWritten, AcceptedBetweenArguments);
    if |test| <= |name| then Err(IndexError) else Ok(test[|name|] == '}')
  }

  /**
   * One turn: the next candidate in `s[turtle:]`; when it is not in a
   * comment, the arguments after the name (unpacking `None` raises
   * `TypeError`) and the definition test.
   */
  function TurnAt(s: string, name: string, n: nat, turtle: nat): (p: Turn)
    requires |name| > 0 && turtle <= |s|
    ensures p.InComment? ==> turtle < p.next <= |s|
    ensures p.Candidate? ==> turtle <= p.occ.position && p.occ.position + |name| <= |s|
    ensures p.Candidate? ==> |name| <= |p.occ.asWritten| && p.occ.position + |p.occ.asWritten| <= |s|
  {
    var c := NextMacroCandidate(s[turtle..], name);
    if !c.0 then NoCandidate
    else
      var t := CandidateEnd(s, name, turtle);
      if c.2 then InComment(t)
      else
        SearchArgumentsBounds(s[t..], n);
        TurnWith(name, t, SearchArgumentsOf(s[t..], n))
  }

  /** `turtle + k + len(macro_name)`: where the name of the candidate found from `turtle` ends. */
  function CandidateEnd(s: string, name: string, turtle: nat): (t: nat)
    requires turtle <= |s| && NextMacroCandidate(s[turtle..], name).0
    ensures turtle + |name| <= t < |s|
  {
    turtle + NextMacroCandidate(s[turtle..], name).1 + |name|
  }

  /** The turn once the arguments after the name at `t` were searched. */
  function TurnWith(name: string, t: nat, outcome: ArgsOutcome): Turn
  {
    match outcome
    case NoneReturned => Failed(TypeError)
    case Raised(e) => Failed(e)
    case Found(args, aw) =>
      var occ := OccurrenceValue(name, args, name + aw, t - |name|);
      match IsDefinition(name, occ.asWritten)
      case Err(e) => Failed(e)
      case Ok(definition) => Candidate(occ, definition)
  }

  /** A kept use, with the text before it, in front of the rest of the scan. */
  function Keep(occ: OccurrenceValue, segment: string, rest: Result<Scan>): Result<Scan>
  {
    match rest
    case Ok(sc) => Ok(Scan([occ] + sc.uses, [segment] + sc.configuration))
    case Err(e) => Err(e)
  }

  /** A turn found from `turtle` moves forward and stays within the text. */
  predicate Advances(s: string, name: string, turtle: nat, p: Turn)
  {
    && (p.InComment? ==> turtle < p.next <= |s|)
    && (p.Candidate? ==> turtle <= p.occ.position && p.occ.position + |name| <= |s|)
  }

  /**
   * The `while boo` loop of `SearchUseOfMacro` from `turtle`, with the
   * configuration cursor at `configTurtle`.
   */
  function ScanFrom(s: string, name: string, n: nat, turtle: nat, configTurtle: nat): Result<Scan>
    requires |name| > 0 && turtle <= |s|
    decreases |s| - turtle, 1
  {
    ScanAfter(s, name, n, turtle, configTurtle, TurnAt(s, name, n, turtle))
  }

  /** The rest of the loop once the turn from `turtle` is known. */
  function ScanAfter(s: string, name: string, n: nat, turtle: nat, configTurtle: nat, p: Turn): Result<Scan>
    requires |name| > 0 && turtle <= |s| && Advances(s, name, turtle, p)
    decreases |s| - turtle, 0
  {
    match p
    case NoCandidate => Ok(Scan([], [Slice(s, configTurtle, |s|)]))
    case InComment(t) => ScanFrom(s, name, n, t, configTurtle)
    case Failed(e) => Err(e)
    case Candidate(occ, definition) =>
      var rest := ScanFrom(s, name, n, occ.position + |name|, occ.position + |occ.asWritten|);
      if definition then rest else Keep(occ, Slice(s, configTurtle, occ.position), rest)
  }

  /** The scan from `turtle` goes on from the turn found there. */
  lemma ScanTurn(s: string, name: string, n: nat, turtle: nat, configTurtle: nat, p: Turn)
    requires |name| > 0 && turtle <= |s| && p == TurnAt(s, name, n, turtle)
    ensures Advances(s, name, turtle, p)
    ensures ScanFrom(s, name, n, turtle, configTurtle) == ScanAfter(s, name, n, turtle, configTurtle, p)
  {
  }

  /** A candidate in a comment: the scan goes on after it, with nothing collected. */
  lemma ScanStepComment(s: string, name: string, n: nat, turtle: nat, configTurtle: nat, p: Turn)
    requires |name| > 0 && turtle <= |s| && Advances(s, name, turtle, p) && p.InComment?
    ensures ScanAfter(s, name, n, turtle, configTurtle, p) == ScanFrom(s, name, n, p.next, configTurtle)
  {
  }

  /**
   * A use outside comments: what the scan owes after it, behind what was
   * collected, is what it owes from the end of the name and the end of
   * `as_written`, behind what was collected with the use kept unless it
   * is a definition.
   */
  lemma ScanStepUse(s: string, name: string, n: nat, turtle: nat, configTurtle: nat, p: Turn, nextTurtle: nat, nextConfigTurtle: nat,
                    uses: seq<OccurrenceValue>, configuration: seq<string>, nextUses: seq<OccurrenceValue>, nextConfiguration: seq<string>)
    requires |name| > 0 && turtle <= |s| && Advances(s, name, turtle, p) && p.Candidate?
    requires nextTurtle == p.occ.position + |name| && nextConfigTurtle == p.occ.position + |p.occ.asWritten|
    requires !p.definition ==> nextUses == uses + [p.occ] && nextConfiguration == configuration + [Slice(s, configTurtle, p.occ.position)]
    requires p.definition ==> nextUses == uses && nextConfiguration == configuration
    ensures nextTurtle <= |s|
    ensures Behind(uses, configuration, ScanAfter(s, name, n, turtle, configTurtle, p))
      == Behind(nextUses, nextConfiguration, ScanFrom(s, name, n, nextTurtle, nextConfigTurtle))
  {
    if !p.definition {
      var rest := ScanFrom(s, name, n, nextTurtle, nextConfigTurtle);
      BehindKeep(uses, configuration, p.occ, Slice(s, configTurtle, p.occ.position), rest);
    }
  }

  /** One turn of the loop, up to the definition test. */
  method NextTurn(s: string, name: string, n: nat, turtle: nat) returns (p: Turn)
    requires |name| > 0 && turtle <= |s|
    ensures p == TurnAt(s, name, n, turtle)
  {
    var c := NextMacroCandidate(s[turtle..], name);
    if !c.0 {
      return NoCandidate;
    }
    var t := CandidateEnd(s, name, turtle);
    if c.2 {
      return InComment(t);
    }
    var outcome := SearchArguments(s[t..], n);
    p := ClassifyUse(s, name, n, turtle, outcome);
  }

  /**
   * For a candidate outside comments: unpacking the arguments found after
   * its name, and the definition test.
   */
  method ClassifyUse(s: string, name: string, n: nat, turtle: nat, outcome: ArgsOutcome) returns (p: Turn)
    requires |name| > 0 && turtle <= |s|
    requires var c := NextMacroCandidate(s[turtle..], name); c.0 && !c.2
    requires outcome == SearchArgumentsOf(s[CandidateEnd(s, name, turtle)..], n)
    ensures p == TurnAt(s, name, n, turtle)
  {
    var t := CandidateEnd(s, name, turtle);
    if outcome.NoneReturned? {
      return Failed(TypeError);
    }
    if outcome.Raised? {
      return Failed(outcome.error);
    }
    var asWritten := name + outcome.asWritten;
    var test := CompactizationLoop(asWritten, AcceptedBetweenArguments);
    if |test| <= |name| {
      return Failed(IndexError);
    }
    p := Candidate(OccurrenceValue(name, outcome.arguments, asWritten, t - |name|), test[|name|] == '}');
  }

  /** What `SearchUseOfMacro` returns: the list of uses, or the pair with the configuration. */
  datatype Uses = Uses(uses: seq<Occurrence>) | UsesAndConfiguration(uses: seq<Occurrence>, configuration: seq<string>)

  /** `ScanFrom` from a later point, behind what was already collected. */
  function Behind(uses: seq<OccurrenceValue>, configuration: seq<string>, rest: Result<Scan>): Result<Scan>
  {
    match rest
    case Ok(sc) => Ok(Scan(uses + sc.uses, configuration + sc.configuration))
    case Err(e) => Err(e)
  }

  lemma BehindNothing(rest: Result<Scan>)
    ensures Behind([], [], rest) == rest
  {
    if rest.Ok? {
      assert [] + rest.value.uses == rest.value.uses;
      assert [] + rest.value.configuration == rest.value.configuration;
    }
  }

  lemma BehindKeep(uses: seq<OccurrenceValue>, configuration: seq<string>, occ: OccurrenceValue, segment: string, rest: Result<Scan>)
    ensures Behind(uses + [occ], configuration + [segment], rest) == Behind(uses, configuration, Keep(occ, segment, rest))
  {
    if rest.Ok? {
      assert uses + [occ] + rest.value.uses == uses + ([occ] + rest.value.uses);
      assert configuration + [segment] + rest.value.configuration == configuration + ([segment] + rest.value.configuration);
    }
  }

  /** A fresh array holding `items`, as Python's list of the arguments. */
  method ArrayOf(items: seq<string>) returns (a: array<string>)
    ensures fresh(a) && a[..] == items
  {
    a := new string[|items|](i requires 0 <= i < |items| => items[i]);
  }

  /** The `Occurrence` object built for a use found by the scan. */
  method NewOccurrence(occ: OccurrenceValue) returns (o: Occurrence)
    ensures fresh(o) && fresh(o.arguments) && o.Valid() && o.Value() == occ
  {
    var arguments := ArrayOf(occ.arguments);
    o := new Occurrence(occ.name, arguments, occ.asWritten, occ.position);
  }

  /** The objects built so far hold the occurrences found so far, in order. */
  ghost predicate Built(use: seq<Occurrence>, values: seq<OccurrenceValue>)
    reads set i | 0 <= i < |use| :: use[i].arguments
  {
    |use| == |values| && forall i :: 0 <= i < |use| ==> use[i].Valid() && use[i].Value() == values[i]
  }

  /** Appending the object built for the next occurrence keeps `Built`. */
  lemma BuiltAppend(use: seq<Occurrence>, values: seq<OccurrenceValue>, o: Occurrence, occ: OccurrenceValue)
    requires Built(use, values) && o.Valid() && o.Value() == occ
    ensures Built(use + [o], values + [occ])
  {
  }

  /**
   * `r` is what `SearchUseOfMacro` returns for the scan `scan`: the error, or
   * one object per use with its value, and the separators when asked for.
   */
  ghost predicate Answers(r: Result<Uses>, scan: Result<Scan>, giveConfiguration: bool)
    reads if r.Ok? then set i | 0 <= i < |r.value.uses| :: r.value.uses[i].arguments else {}
  {
    match scan
    case Err(e) => r == Err(e)
    case Ok(sc) =>
      && r.Ok? && (r.value.UsesAndConfiguration? <==> giveConfiguration)
      && (giveConfiguration ==> r.value.configuration == sc.configuration)
      && |r.value.uses| == |sc.uses|
      && forall i :: 0 <= i < |sc.uses| ==> r.value.uses[i].Valid() && r.value.uses[i].Value() == sc.uses[i]
  }

  /** The answer built when no candidate is left. */
  lemma Delivered(goal: Result<Scan>, use: seq<Occurrence>, values: seq<OccurrenceValue>, configuration: seq<string>,
                  giveConfiguration: bool, r: Result<Uses>)
    requires Built(use, values) && goal == Ok(Scan(values, configuration))
    requires r == if giveConfiguration then Ok(UsesAndConfiguration(use, configuration)) else Ok(Uses(use))
    ensures Answers(r, goal, giveConfiguration)
  {
  }

  /** `SearchUseOfMacro(code, macro_name, number_of_arguments, give_configuration)` on the text `s` of `code`. */
  method SearchUseOfMacro(s: string, name: string, n: nat, giveConfiguration: bool) returns (r: Result<Uses>)
    requires |name| > 0
    ensures !Contains(s, name) ==> r == Ok(Uses([]))
    ensures Contains(s, name) ==> Answers(r, ScanFrom(s, name, n, 0, 0), giveConfiguration)
    ensures r.Ok? ==> forall o :: o in r.value.uses ==> fresh(o) && fresh(o.arguments)
  {
    if !Contains(s, name) {
      return Ok(Uses([]));
    }
    var turtle: nat := 0;
    var configTurtle: nat := 0;
    var use: seq<Occurrence> := [];
    var configuration: seq<string> := [];
    ghost var values: seq<OccurrenceValue> := [];
    ghost var goal := ScanFrom(s, name, n, 0, 0);
    BehindNothing(goal);
    while true
      invariant turtle <= |s|
      invariant goal == Behind(values, configuration, ScanFrom(s, name, n, turtle, configTurtle))
      invariant Built(use, values)
      invariant forall o :: o in use ==> fresh(o) && fresh(o.arguments)
      decreases |s| - turtle
    {
      var p := NextTurn(s, name, n, turtle);
      if p.NoCandidate? {
        ScanTurn(s, name, n, turtle, configTurtle, p);
        ghost var last := Slice(s, configTurtle, |s|);
        assert goal == Ok(Scan(values + [], configuration + [last]));
        assert values + [] == values;
        configuration := configuration + [Slice(s, configTurtle, |s|)];
        if giveConfiguration {
          r := Ok(UsesAndConfiguration(use, configuration));
        } else {
          r := Ok(Uses(use));
        }
        Delivered(goal, use, values, configuration, giveConfiguration, r);
        return;
      }
      if p.Failed? {
        ScanTurn(s, name, n, turtle, configTurtle, p);
        return Err(p.error);
      }
      ScanTurn(s, name, n, turtle, configTurtle, p);
      if p.InComment? {
        ScanStepComment(s, name, n, turtle, configTurtle, p);
        turtle := p.next;
      } else {
        ghost var (turtle0, configTurtle0, values0, configuration0) := (turtle, configTurtle, values, configuration);
        var occ := p.occ;
        if !p.definition {
          configuration := configuration + [Slice(s, configTurtle, occ.position)];
          var occurrence := NewOccurrence(occ);
          BuiltAppend(use, values, occurrence, occ);
          use := use + [occurrence];
          values := values + [occ];
        }
        turtle := occ.position + |name|;
        configTurtle := occ.position + |occ.asWritten|;
        ScanStepUse(s, name, n, turtle0, configTurtle0, p, turtle, configTurtle, values0, configuration0, values, configuration);
      }
    }
  }

}
