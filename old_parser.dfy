/**
 * The older LaTeX parser (LaTeXparser.py).  It finds the uses of a macro with
 * a plain `find` on the comment-stripped text, extracts the brace and bracket
 * groups that follow by first removing the separators between them
 * (`compactization`), and keeps each argument as a pair of its text and its
 * kind, `{}` or `[]`.  `CodeLaTeX` holds a source text with its comments
 * removed, replaces text outside comments, builds a first-wins table of
 * `\newcommand`/`\renewcommand` definitions, and substitutes `\input`.
 */
module OldParser {
  import opened PyStr
  import MacroUse
  import CommentStripper

  /** `accepted_between_arguments`; here the last entry is a real tab. */
  const OldAccepted: seq<string> := ["%", "\n", " ", "\t"]

  /** The characters that `compactization` removes. */
  const Separators: set<char> := {'%', '\n', ' ', '\t'}

  // ---------------------------------------------------------------------
  // compactization

  /** The characters of `s` that are not in `cs`, in order. */
  function KeptOut(s: string, cs: set<char>): (r: string)
    ensures |r| <= |s|
    decreases |s|
  {
    if |s| == 0 then "" else (if s[0] in cs then "" else [s[0]]) + KeptOut(s[1..], cs)
  }

  /** Filtering keeps only characters of `s` that are not in `cs`. */
  lemma {:induction false} KeptOutChars(s: string, cs: set<char>)
    ensures forall x :: x in KeptOut(s, cs) ==> x in s && x !in cs
    decreases |s|
  {
    if |s| > 0 {
      KeptOutChars(s[1..], cs);
      var head := if s[0] in cs then "" else [s[0]];
      assert KeptOut(s, cs) == head + KeptOut(s[1..], cs);
      forall x | x in KeptOut(s, cs) ensures x in s && x !in cs {
        if x !in head {
          assert x in KeptOut(s[1..], cs);
          assert x in s[1..];
        }
      }
    }
  }

  /** `s` without its separators. */
  function Compact(s: string): string
  {
    KeptOut(s, Separators)
  }

  /** `a` can be read off `b` by dropping characters, keeping the order. */
  predicate IsSubsequence(a: string, b: string)
    decreases |b|
  {
    if |a| == 0 then true
    else if |b| == 0 then false
    else (a[0] == b[0] && IsSubsequence(a[1..], b[1..])) || IsSubsequence(a, b[1..])
  }

  lemma {:induction false} KeptOutNothing(s: string)
    ensures KeptOut(s, {}) == s
    decreases |s|
  {
    if |s| > 0 {
      KeptOutNothing(s[1..]);
      assert s == [s[0]] + s[1..];
    }
  }

  /** Dropping one more character from a filtered string filters with one more character. */
  lemma {:induction false} KeptOutWithout(s: string, cs: set<char>, c: char)
    ensures MacroUse.Without(KeptOut(s, cs), c) == KeptOut(s, cs + {c})
    decreases |s|
  {
    if |s| > 0 {
      var head := if s[0] in cs then "" else [s[0]];
      var tail := KeptOut(s[1..], cs);
      MacroUse.WithoutConcat(head, tail, c);
      KeptOutWithout(s[1..], cs, c);
      if head != "" {
        assert head[1..] == [];
      }
      assert MacroUse.Without(head, c) == if s[0] in cs + {c} then "" else [s[0]];
    }
  }

  /**
   * `compactization` with the list of this parser removes exactly the '%',
   * newline, space and tab characters and keeps the others in order.
   */
  lemma {:induction false} CompactizationSpec(text: string)
    ensures MacroUse.Compactization(text, OldAccepted) == Compact(text)
    ensures forall x :: x in Compact(text) ==> x !in Separators && x in text
    ensures IsSubsequence(Compact(text), text)
  {
    CompactizationOld(text);
    KeptOutSubsequence(text, Separators);
    KeptOutChars(text, Separators);
  }

  /** The characters of a list of one-character strings. */
  function Heads(acc: seq<string>): set<char>
    requires forall k :: 0 <= k < |acc| ==> |acc[k]| == 1
  {
    if |acc| == 0 then {} else Heads(acc[..|acc| - 1]) + {acc[|acc| - 1][0]}
  }

  /** `compactization`: the loop that removes each accepted string from the text in turn. */
  method CompactLoop(text: string) returns (r: string)
    ensures r == Compact(text)
  {
    r := text;
    KeptOutNothing(text);
    for i := 0 to |OldAccepted|
      invariant r == KeptOut(text, Heads(OldAccepted[..i]))
    {
      assert OldAccepted[..i + 1][..i] == OldAccepted[..i];
      assert OldAccepted[i] == [OldAccepted[i][0]];
      ReplaceStep(text, Heads(OldAccepted[..i]), OldAccepted[i][0]);
      r := Replace(r, OldAccepted[i], "");
    }
    assert OldAccepted[..|OldAccepted|] == OldAccepted;
    HeadsOfAccepted();
  }

  lemma {:induction false} HeadsOfAccepted()
    ensures Heads(OldAccepted) == Separators
  {
    var a := OldAccepted;
    assert a[..1][..0] == [] && a[..2][..1] == a[..1] && a[..3][..2] == a[..2] && a[..3] == a[..|a| - 1];
    assert Heads(a[..1]) == {'%'};
    assert Heads(a[..2]) == {'%', '\n'};
    assert Heads(a[..3]) == {'%', '\n', ' '};
  }

  /** Removing one character from a filtered string by `replace`. */
  lemma {:induction false} ReplaceStep(text: string, cs: set<char>, c: char)
    ensures Replace(KeptOut(text, cs), [c], "") == KeptOut(text, cs + {c})
  {
    MacroUse.ReplaceCharByNothing(KeptOut(text, cs), c);
    KeptOutWithout(text, cs, c);
  }

  lemma {:induction false} CompactizationOld(text: string)
    ensures MacroUse.Compactization(text, OldAccepted) == Compact(text)
  {
    var acc := OldAccepted;
    var s1, s2, s3 := {'%'}, {'%', '\n'}, {'%', '\n', ' '};
    KeptOutNothing(text);
    ReplaceStep(text, {}, '%');
    assert {} + {'%'} == s1;
    ReplaceStep(text, s1, '\n');
    assert s1 + {'\n'} == s2;
    ReplaceStep(text, s2, ' ');
    assert s2 + {' '} == s3;
    ReplaceStep(text, s3, '\t');
    assert s3 + {'\t'} == Separators;
    assert acc[1..] == ["\n", " ", "\t"] && acc[1..][1..] == [" ", "\t"];
    assert acc[1..][1..][1..] == ["\t"] && acc[1..][1..][1..][1..] == [];
    calc {
      MacroUse.Compactization(text, acc);
      MacroUse.Compactization(KeptOut(text, s1), acc[1..]);
      MacroUse.Compactization(KeptOut(text, s2), acc[1..][1..]);
      MacroUse.Compactization(KeptOut(text, s3), acc[1..][1..][1..]);
      MacroUse.Compactization(KeptOut(text, Separators), []);
    }
  }

  lemma {:induction false} KeptOutSubsequence(s: string, cs: set<char>)
    ensures IsSubsequence(KeptOut(s, cs), s)
    decreases |s|
  {
    if |s| > 0 {
      var r := KeptOut(s, cs);
      KeptOutSubsequence(s[1..], cs);
      if s[0] in cs {
        assert r == KeptOut(s[1..], cs);
      } else {
        assert r[0] == s[0] && r[1..] == KeptOut(s[1..], cs);
      }
    }
  }

  // ---------------------------------------------------------------------
  // SearchFitBrace

  /** `paires`: the closing character of each opening one. */
  function OldCloser(opening: char): (r: Option<char>)
    ensures r.Some? <==> opening == '{' || opening == '['
  {
    if opening == '{' then Some('}')
    else if opening == '[' then Some(']')
    else None
  }

  /** `SearchFitBrace(text, position, open)`: `None` when the depth never gets back to 0. */
  function OldFitBrace(text: string, position: nat, opening: char): (r: Result<Option<MacroUse.Fit>>)
  {
    match OldCloser(opening)
    case None => Err(KeyError)
    case Some(close) => MacroUse.MatchBrace(text, position, opening, close)
  }

  method SearchFitBrace(text: string, position: nat, opening: char) returns (r: Result<Option<MacroUse.Fit>>)
    ensures r == OldFitBrace(text, position, opening)
  {
    var close := OldCloser(opening);
    if close.None? {
      return Err(KeyError);
    }
    r := MacroUse.MatchBraceLoop(text, position, opening, close.value);
  }

  /**
   * The depth walk is the one of the newer engine; the table of pairs lacks
   * only the backquote, which raises KeyError here.
   */
  lemma {:induction false} OldFitBraceSpec(text: string, position: nat, opening: char)
    ensures opening == '{' || opening == '[' ==> OldFitBrace(text, position, opening) == MacroUse.FitBrace(text, position, opening)
    ensures opening != '{' && opening != '[' ==> OldFitBrace(text, position, opening) == Err(KeyError)
  {
  }

  // ---------------------------------------------------------------------
  // SearchArguments

  /** One argument: its text and the pair of characters around it, `{}` or `[]`. */
  datatype Arg = Arg(text: string, kind: string)

  /** The kind of a group opened by `opening`. */
  function Kind(opening: char): string
    requires OldCloser(opening).Some?
  {
    [opening, OldCloser(opening).value]
  }

  /** The first character left once the separators are removed, if any. */
  function NextOpen(remaining: string): Option<char>
  {
    var compact := Compact(remaining);
    if |compact| >= 1 then Some(compact[0]) else None
  }

  /**
   * The loop of `SearchArguments` with `next_can_be_open` (or `None` once
   * `still_to_be_done` is false), the arguments and `as_written` so far.
   */
  function ArgumentsLoop(remaining: string, next: Option<char>, n: nat, args: seq<Arg>, aw: string): Result<(seq<Arg>, string)>
    decreases n - |args|
  {
    if next.None? || OldCloser(next.value).None? || |args| >= n then Ok((args, aw))
    else
      var c := next.value;
      match OldFitBrace(remaining, 0, c)
      case Err(e) => Err(e)
      // unpacking the `None` of an unmatched group
      case Ok(None) => Err(TypeError)
      case Ok(Some(f)) =>
        var rest := Slice(remaining, f.end + 1, |remaining|);
        ArgumentsLoop(rest, NextOpen(rest), n, args + [Arg(f.inner, Kind(c))], aw + Slice(remaining, 0, f.end) + "}")
  }

  /** `SearchArguments(remaining, number_of_arguments)`. */
  function SearchArgumentsOf(remaining: string, n: nat): Result<(seq<Arg>, string)>
  {
    var compact := Compact(remaining);
    if |compact| == 0 then Err(IndexError) else ArgumentsLoop(remaining, Some(compact[0]), n, [], "")
  }

  method SearchArguments(remaining0: string, n: nat) returns (r: Result<(seq<Arg>, string)>)
    ensures r == SearchArgumentsOf(remaining0, n)
  {
    var remaining := remaining0;
    var compact0 := CompactLoop(remaining);
    if |compact0| == 0 {
      return Err(IndexError);
    }
    var nextCanBeOpen := compact0[0];
    var stillToBeDone := true;
    var arguments: seq<Arg> := [];
    var asWritten := "";
    while OldCloser(nextCanBeOpen).Some? && stillToBeDone && |arguments| < n
      invariant SearchArgumentsOf(remaining0, n)
        == ArgumentsLoop(remaining, if stillToBeDone then Some(nextCanBeOpen) else None, n, arguments, asWritten)
      decreases n - |arguments|
    {
      var fit := SearchFitBrace(remaining, 0, nextCanBeOpen);
      if fit.Err? {
        return Err(fit.error);
      }
      if fit.value.None? {
        return Err(TypeError);
      }
      var f := fit.value.value;
      asWritten := asWritten + Slice(remaining, 0, f.end) + "}";
      arguments := arguments + [Arg(f.inner, Kind(nextCanBeOpen))];
      remaining := Slice(remaining, f.end + 1, |remaining|);
      var compact := CompactLoop(remaining);
      if |compact| >= 1 {
        nextCanBeOpen := compact[0];
      } else {
        stillToBeDone := false;
      }
    }
    return Ok((arguments, asWritten));
  }

  /** A character of `s` is found by `find`. */
  lemma {:induction false} FoundWhenIn(s: string, c: char)
    requires c in s
    ensures Find(s, [c]) >= 0
  {
    MacroUse.FreeBeforeFind(s, c);
    var i :| 0 <= i < |s| && s[i] == c;
  }

  /** The first non-separator character of `s` occurs in `s`. */
  lemma {:induction false} NextOpenIn(s: string)
    ensures NextOpen(s).Some? ==> NextOpen(s).value in s
  {
    CompactizationSpec(s);
    if NextOpen(s).Some? {
      assert Compact(s)[0] in Compact(s);
    }
  }

  /** One group of `remaining` matched from its first `c`. */
  lemma {:induction false} GroupFit(remaining: string, c: char, f: MacroUse.Fit)
    requires c in remaining && OldCloser(c).Some?
    requires OldFitBrace(remaining, 0, c) == Ok(Some(f))
    ensures 0 <= f.start < f.end < |remaining| && remaining[f.start] == c
    ensures remaining[f.end] == OldCloser(c).value && f.inner == remaining[f.start + 1..f.end]
  {
    FoundWhenIn(remaining, c);
    assert Slice(remaining, 0, |remaining|) == remaining;
    MacroUse.MatchBraceSpec(remaining, 0, c, OldCloser(c).value);
  }

  /**
   * What the loop may return from a state with `args` and `aw`: the only
   * error is the TypeError of an unmatched group; on success the loop has
   * added at most up to `n` arguments, each of kind `{}` or `[]`, and every
   * added argument has added a piece ending with "}" to `as_written`.
   */
  ghost predicate LoopShape(args: seq<Arg>, aw: string, n: nat, r: Result<(seq<Arg>, string)>)
  {
    match r
    case Err(e) => e == TypeError
    case Ok((a, w)) =>
      && |args| <= |a| && a[..|args|] == args && (|a| > |args| ==> |a| <= n)
      && (forall i :: |args| <= i < |a| ==> a[i].kind == "{}" || a[i].kind == "[]")
      && StartsWith(w, aw)
      && (|a| == |args| <==> w == aw)
      && (|a| > |args| ==> w[|w| - 1] == '}')
  }

  /** The shape from the state after one more argument gives the shape from the state before it. */
  lemma {:induction false} LoopShapeStep(args: seq<Arg>, aw: string, n: nat, x: Arg, piece: string, r: Result<(seq<Arg>, string)>)
    requires |args| < n && (x.kind == "{}" || x.kind == "[]")
    requires LoopShape(args + [x], aw + piece + "}", n, r)
    ensures LoopShape(args, aw, n, r)
  {
    var args', aw' := args + [x], aw + piece + "}";
    if r.Ok? {
      var (a, w) := r.value;
      assert a[..|args|] == a[..|args'|][..|args|];
      assert a[|args|] == args'[|args|];
      assert w[..|aw|] == w[..|aw'|][..|aw|];
      if w == aw' {
        assert w[|w| - 1] == '}';
      }
    }
  }

  /** From a state whose next character occurs in the text, the loop keeps to `LoopShape`. */
  lemma {:induction false} ArgumentsLoopShape(remaining: string, next: Option<char>, n: nat, args: seq<Arg>, aw: string)
    requires next.Some? ==> next.value in remaining
    ensures LoopShape(args, aw, n, ArgumentsLoop(remaining, next, n, args, aw))
    decreases n - |args|
  {
    if next.None? || OldCloser(next.value).None? || |args| >= n {
      assert ArgumentsLoop(remaining, next, n, args, aw) == Ok((args, aw));
      assert StartsWith(aw, aw);
    } else {
      var c := next.value;
      var fit := OldFitBrace(remaining, 0, c);
      NoIndexError(remaining, c);
      if fit.Ok? && fit.value.Some? {
        var f := fit.value.value;
        var rest := Slice(remaining, f.end + 1, |remaining|);
        var x := Arg(f.inner, Kind(c));
        var piece := Slice(remaining, 0, f.end);
        NextOpenIn(rest);
        ArgumentsLoopShape(rest, NextOpen(rest), n, args + [x], aw + piece + "}");
        var after := ArgumentsLoop(rest, NextOpen(rest), n, args + [x], aw + piece + "}");
        LoopShapeStep(args, aw, n, x, piece, after);
        assert ArgumentsLoop(remaining, next, n, args, aw) == after;
      } else {
        assert ArgumentsLoop(remaining, next, n, args, aw) == Err(TypeError);
      }
    }
  }

  /** Matching from a character that occurs in the text never raises. */
  lemma {:induction false} NoIndexError(remaining: string, c: char)
    requires c in remaining && OldCloser(c).Some?
    ensures OldFitBrace(remaining, 0, c).Ok?
  {
    FoundWhenIn(remaining, c);
    assert Slice(remaining, 0, |remaining|) == remaining;
    MacroUse.MatchBraceSpec(remaining, 0, c, OldCloser(c).value);
  }

  /**
   * `SearchArguments` raises IndexError exactly when nothing but separators
   * follows, and otherwise only the TypeError of an unmatched group.  On
   * success it holds at most `number_of_arguments` arguments, each of kind
   * `{}` or `[]`, and `as_written` is empty exactly when no argument was
   * taken; otherwise it ends with "}", whatever the kind of the last group.
   */
  lemma {:induction false} SearchArgumentsShape(remaining: string, n: nat)
    ensures SearchArgumentsOf(remaining, n) == Err(IndexError) <==> Compact(remaining) == ""
    ensures SearchArgumentsOf(remaining, n).Err? ==> SearchArgumentsOf(remaining, n).error in {IndexError, TypeError}
    ensures match SearchArgumentsOf(remaining, n)
      case Err(_) => true
      case Ok((a, w)) =>
        && |a| <= n
        && (forall i :: 0 <= i < |a| ==> a[i].kind == "{}" || a[i].kind == "[]")
        && (|a| == 0 <==> w == "")
        && (|a| > 0 ==> w[|w| - 1] == '}')
  {
    CompactizationSpec(remaining);
    if Compact(remaining) != "" {
      NextOpenIn(remaining);
      ArgumentsLoopShape(remaining, NextOpen(remaining), n, [], "");
    }
  }

  /**
   * An argument is taken only when the first character after the separators
   * opens a group: with any other character, or with a count of 0, the
   * result is no argument and an empty `as_written`.
   */
  lemma {:induction false} SearchArgumentsStart(remaining: string, n: nat)
    requires Compact(remaining) != ""
    ensures OldCloser(Compact(remaining)[0]).None? || n == 0 ==> SearchArgumentsOf(remaining, n) == Ok(([], ""))
    ensures OldCloser(Compact(remaining)[0]).Some? && n > 0 ==>
      var r := SearchArgumentsOf(remaining, n); r == Err(TypeError) || (r.Ok? && |r.value.0| >= 1)
  {
    CompactizationSpec(remaining);
    NextOpenIn(remaining);
    var c := Compact(remaining)[0];
    if OldCloser(c).Some? && n > 0 {
      NoIndexError(remaining, c);
      var fit := OldFitBrace(remaining, 0, c);
      if fit.value.Some? {
        FirstGroupKept(remaining, n, c, fit.value.value);
      }
    }
  }

  /** Once the first group is matched, the loop keeps it. */
  lemma {:induction false} FirstGroupKept(remaining: string, n: nat, c: char, f: MacroUse.Fit)
    requires Compact(remaining) != "" && c == Compact(remaining)[0] && OldCloser(c).Some? && n > 0
    requires OldFitBrace(remaining, 0, c) == Ok(Some(f))
    ensures var r := SearchArgumentsOf(remaining, n); r == Err(TypeError) || (r.Ok? && |r.value.0| >= 1)
  {
    var rest := Slice(remaining, f.end + 1, |remaining|);
    var a1, aw1 := [Arg(f.inner, Kind(c))], Slice(remaining, 0, f.end) + "}";
    NextOpenIn(rest);
    ArgumentsLoopShape(rest, NextOpen(rest), n, a1, aw1);
    assert SearchArgumentsOf(remaining, n) == ArgumentsLoop(remaining, Some(c), n, [], "");
    LoopFirst(remaining, c, n, f);
  }

  lemma LoopFirst(remaining: string, c: char, n: nat, f: MacroUse.Fit)
    requires OldCloser(c).Some? && n > 0 && OldFitBrace(remaining, 0, c) == Ok(Some(f))
    ensures var rest := Slice(remaining, f.end + 1, |remaining|);
      ArgumentsLoop(remaining, Some(c), n, [], "")
      == ArgumentsLoop(rest, NextOpen(rest), n, [Arg(f.inner, Kind(c))], Slice(remaining, 0, f.end) + "}")
  {
    assert [] + [Arg(f.inner, Kind(c))] == [Arg(f.inner, Kind(c))];
    assert "" + Slice(remaining, 0, f.end) + "}" == Slice(remaining, 0, f.end) + "}";
  }

  /**
   * When every argument the loop adds from `args` and `aw` on is a `{}`
   * group, what it adds to `as_written` is a prefix of the text it started
   * from.
   */
  ghost predicate WrittenFrom(remaining: string, args: seq<Arg>, aw: string, r: Result<(seq<Arg>, string)>)
  {
    match r
    case Err(_) => true
    case Ok((a, w)) =>
      |aw| <= |w| && ((forall i :: |args| <= i < |a| ==> a[i].kind == "{}") ==> StartsWith(remaining, w[|aw|..]))
  }

  lemma {:induction false} ArgumentsLoopWritten(remaining: string, next: Option<char>, n: nat, args: seq<Arg>, aw: string)
    requires next.Some? ==> next.value in remaining
    ensures WrittenFrom(remaining, args, aw, ArgumentsLoop(remaining, next, n, args, aw))
    decreases n - |args|
  {
    if !(next.None? || OldCloser(next.value).None? || |args| >= n) {
      var c := next.value;
      NoIndexError(remaining, c);
      var fit := OldFitBrace(remaining, 0, c);
      if fit.value.Some? {
        var f := fit.value.value;
        GroupFit(remaining, c, f);
        var rest := remaining[f.end + 1..];
        NextOpenIn(rest);
        ArgumentsLoopWritten(rest, NextOpen(rest), n, args + [Arg(f.inner, Kind(c))], aw + remaining[..f.end] + "}");
        WrittenAfterGroup(remaining, c, n, args, aw, f);
      }
    }
  }

  /** The prefix property after the group opened by `c` gives it before that group. */
  lemma {:induction false} WrittenAfterGroup(remaining: string, c: char, n: nat, args: seq<Arg>, aw: string, f: MacroUse.Fit)
    requires OldCloser(c).Some? && |args| < n && OldFitBrace(remaining, 0, c) == Ok(Some(f))
    requires 0 <= f.end < |remaining| && remaining[f.end] == OldCloser(c).value
    requires var rest := remaining[f.end + 1..];
      WrittenFrom(rest, args + [Arg(f.inner, Kind(c))], aw + remaining[..f.end] + "}",
        ArgumentsLoop(rest, NextOpen(rest), n, args + [Arg(f.inner, Kind(c))], aw + remaining[..f.end] + "}"))
    ensures WrittenFrom(remaining, args, aw, ArgumentsLoop(remaining, Some(c), n, args, aw))
  {
    var rest := remaining[f.end + 1..];
    var x := Arg(f.inner, Kind(c));
    var aw' := aw + remaining[..f.end] + "}";
    var r := ArgumentsLoop(rest, NextOpen(rest), n, args + [x], aw');
    LoopUnfold(remaining, c, n, args, aw, f);
    NextOpenIn(rest);
    ArgumentsLoopShape(rest, NextOpen(rest), n, args + [x], aw');
    KindBrace(c);
    WrittenFromStep(remaining, n, args, aw, x, f.end + 1, r);
  }

  lemma {:induction false} KindBrace(c: char)
    requires OldCloser(c).Some?
    ensures Kind(c) == "{}" ==> OldCloser(c).value == '}'
  {
    if Kind(c) == "{}" {
      assert c == Kind(c)[0];
    }
  }

  /** One pass of the loop, once the group opened by `c` is matched. */
  lemma {:induction false} LoopUnfold(remaining: string, c: char, n: nat, args: seq<Arg>, aw: string, f: MacroUse.Fit)
    requires OldCloser(c).Some? && |args| < n && OldFitBrace(remaining, 0, c) == Ok(Some(f))
    requires 0 <= f.end < |remaining|
    ensures ArgumentsLoop(remaining, Some(c), n, args, aw)
      == ArgumentsLoop(remaining[f.end + 1..], NextOpen(remaining[f.end + 1..]), n, args + [Arg(f.inner, Kind(c))], aw + remaining[..f.end] + "}")
  {
    assert Slice(remaining, f.end + 1, |remaining|) == remaining[f.end + 1..];
    assert Slice(remaining, 0, f.end) == remaining[..f.end];
  }

  /** The prefix property from the state after one more argument gives it for the state before. */
  lemma {:induction false} WrittenFromStep(remaining: string, n: nat, args: seq<Arg>, aw: string, x: Arg, k: nat, r: Result<(seq<Arg>, string)>)
    requires 1 <= k <= |remaining|
    requires x.kind == "{}" ==> remaining[k - 1] == '}'
    requires var aw' := aw + remaining[..k - 1] + "}";
      WrittenFrom(remaining[k..], args + [x], aw', r) && LoopShape(args + [x], aw', n, r)
    ensures WrittenFrom(remaining, args, aw, r)
  {
    if r.Ok? {
      var (a, w) := r.value;
      var aw' := aw + remaining[..k - 1] + "}";
      assert a[|args|] == (args + [x])[|args|];
      if forall i :: |args| <= i < |a| ==> a[i].kind == "{}" {
        assert x.kind == "{}";
        assert remaining[..k - 1] + "}" == remaining[..k];
        var tail := w[|aw'|..];
        assert w[|aw|..] == remaining[..k] + tail;
        assert remaining[..k + |tail|] == remaining[..k] + remaining[k..][..|tail|];
      }
    }
  }

  /** `SearchArguments` with only `{}` groups: `as_written` is the text that they and the separators between them occupy. */
  lemma {:induction false} SearchArgumentsWritten(remaining: string, n: nat)
    ensures match SearchArgumentsOf(remaining, n)
      case Err(_) => true
      case Ok((a, w)) => (forall i :: 0 <= i < |a| ==> a[i].kind == "{}") ==> StartsWith(remaining, w)
  {
    CompactizationSpec(remaining);
    if Compact(remaining) != "" {
      NextOpenIn(remaining);
      ArgumentsLoopWritten(remaining, NextOpen(remaining), n, [], "");
    }
  }

  /** Every argument text in `args` occurs in `aw`. */
  ghost predicate TextsIn(args: seq<Arg>, aw: string)
  {
    forall i :: 0 <= i < |args| ==> Occurs(aw, args[i].text)
  }

  /**
   * Each pass appends the text up to the closing character of a group to
   * `as_written`, so the text of every argument taken occurs in the
   * `as_written` the loop returns.
   */
  lemma {:induction false} ArgumentsLoopTexts(remaining: string, next: Option<char>, n: nat, args: seq<Arg>, aw: string)
    requires next.Some? ==> next.value in remaining
    requires TextsIn(args, aw)
    ensures match ArgumentsLoop(remaining, next, n, args, aw)
      case Err(_) => true
      case Ok((a, w)) => TextsIn(a, w)
    decreases n - |args|
  {
    if !(next.None? || OldCloser(next.value).None? || |args| >= n) {
      var c := next.value;
      NoIndexError(remaining, c);
      var fit := OldFitBrace(remaining, 0, c);
      if fit.value.Some? {
        var f := fit.value.value;
        GroupFit(remaining, c, f);
        var rest := remaining[f.end + 1..];
        var x := Arg(f.inner, Kind(c));
        var aw' := aw + remaining[..f.end] + "}";
        forall i | 0 <= i < |args| + 1 ensures Occurs(aw', (args + [x])[i].text) {
          var t := (args + [x])[i].text;
          if i < |args| {
            var j :| OccursAt(aw, t, j);
            assert aw'[j..j + |t|] == aw[j..j + |t|];
            assert OccursAt(aw', t, j);
          } else {
            var k := |aw| + f.start + 1;
            assert aw'[k..k + |t|] == remaining[f.start + 1..f.end];
            assert OccursAt(aw', t, k);
          }
        }
        NextOpenIn(rest);
        ArgumentsLoopTexts(rest, NextOpen(rest), n, args + [x], aw');
        LoopUnfold(remaining, c, n, args, aw, f);
      }
    }
  }

  /** Every argument text `SearchArguments` returns occurs in the `as_written` it returns. */
  lemma {:induction false} SearchArgumentsTexts(remaining: string, n: nat)
    ensures match SearchArgumentsOf(remaining, n)
      case Err(_) => true
      case Ok((a, w)) => TextsIn(a, w)
  {
    CompactizationSpec(remaining);
    if Compact(remaining) != "" {
      NextOpenIn(remaining);
      ArgumentsLoopTexts(remaining, NextOpen(remaining), n, [], "");
    }
  }

  // ---------------------------------------------------------------------
  // SearchUseOfMacro

  /** `definition_commands`. */
  const DefinitionCommands: seq<string> := ["\\newcommand", "\\renewcommand"]

  /** `[defs+"{" for defs in definition_commands]`. */
  const DefinitionOpenings: seq<string> := ["\\newcommand{", "\\renewcommand{"]

  /** One use found by `SearchUseOfMacro`: the name, the argument pairs and `as_written`. */
  datatype OldOccurrence = OldOccurrence(name: string, arguments: seq<Arg>, asWritten: string)

  /** `test_newcommand`: a backslash and what follows the last backslash of the compacted text before the use. */
  function TestNewcommand(before: string): string
  {
    "\\" + LastPiece(Compact(before))
  }

  /** The use is taken for a definition and skipped. */
  predicate IsDefinitionContext(before: string)
  {
    TestNewcommand(before) in DefinitionOpenings
  }

  /**
   * What one turn of the loop of `SearchUseOfMacro` keeps of the name found
   * at `p`: nothing when the text before it reads as a definition, otherwise
   * one occurrence whose `as_written` is `lead`, the name and the consumed
   * text; or the error `SearchArguments` raised.
   */
  function UseAt(rt: string, p: nat, name: string, n: nat, lead: string): Result<seq<OldOccurrence>>
    requires p + |name| <= |rt|
  {
    if IsDefinitionContext(rt[..p]) then Ok([])
    else match SearchArgumentsOf(rt[p + |name|..], n)
      case Err(e) => Err(e)
      case Ok((args, aw)) => Ok([OldOccurrence(name, args, lead + name + aw)])
  }

  /** The loop of `SearchUseOfMacro` on what is left of the text, with a plain `find` of the name. */
  function UsesFrom(rt: string, name: string, n: nat, lead: string): Result<seq<OldOccurrence>>
    requires |name| > 0
    decreases |rt|, 1
  {
    var p := Find(rt, name);
    if p < 0 then Ok([]) else UsesAt(rt, p, name, n, lead)
  }

  /** The turn of the loop that finds the name at `p`, followed by the next turns. */
  function UsesAt(rt: string, p: nat, name: string, n: nat, lead: string): Result<seq<OldOccurrence>>
    requires |name| > 0 && p + |name| <= |rt|
    decreases |rt|, 0
  {
    AndThen(UseAt(rt, p, name, n, lead), UsesFrom(rt[p + |name|..], name, n, lead))
  }

  /** The uses found in one turn put in front of those of the following turns; the first error wins. */
  function AndThen(found: Result<seq<OldOccurrence>>, more: Result<seq<OldOccurrence>>): Result<seq<OldOccurrence>>
  {
    match found
    case Err(e) => Err(e)
    case Ok(f) => Prepend(f, more)
  }

  /**
   * `SearchUseOfMacro(code, name, number_of_arguments)` on the text
   * `code.text_without_comments`; `lead` is what precedes the name in
   * `as_written` ("" in this file).
   */
  method SearchUseOfMacro(text: string, name: string, n: nat, lead: string) returns (r: Result<seq<OldOccurrence>>)
    requires |name| > 0
    ensures r == UsesFrom(text, name, n, lead)
  {
    var remainingText := text;
    var position := Find(remainingText, name);
    var use: seq<OldOccurrence> := [];
    PrependNothing(UsesFrom(text, name, n, lead));
    while position != -1
      invariant position == Find(remainingText, name)
      invariant UsesFrom(text, name, n, lead) == Prepend(use, UsesFrom(remainingText, name, n, lead))
      decreases |remainingText|
    {
      var found := NextUse(remainingText, position, name, n, lead);
      if found.Err? {
        return Err(found.error);
      }
      PrependTwice(use, found.value, UsesFrom(remainingText[position + |name|..], name, n, lead));
      use := use + found.value;
      remainingText := remainingText[position + |name|..];
      position := Find(remainingText, name);
    }
    assert use + [] == use;
    return Ok(use);
  }

  /** Whether `test_newcommand` is one of the definition commands. */
  method TestDefinition(before: string) returns (b: bool)
    ensures b == IsDefinitionContext(before)
  {
    var compact := CompactLoop(before);
    var pieces := Split(compact, "\\");
    var testNewcommand := "\\" + pieces[|pieces| - 1];
    SplitLastIsLastPiece(compact);
    b := testNewcommand in DefinitionOpenings;
  }

  /** The body of the loop of `SearchUseOfMacro`. */
  method NextUse(rt: string, p: nat, name: string, n: nat, lead: string) returns (r: Result<seq<OldOccurrence>>)
    requires p + |name| <= |rt|
    ensures r == UseAt(rt, p, name, n, lead)
  {
    var definition := TestDefinition(rt[..p]);
    var remainingText := rt[p + |name|..];
    if definition {
      return Ok([]);
    }
    var found := SearchArguments(remainingText, n);
    if found.Err? {
      return Err(found.error);
    }
    var (arguments, asWritten) := found.value;
    return Ok([OldOccurrence(name, arguments, lead + name + asWritten)]);
  }

  /** A use with the searched name, at most `n` arguments of kind `{}` or `[]`, and `as_written` led by `lead` and the name. */
  ghost predicate UseShaped(u: OldOccurrence, name: string, n: nat, lead: string)
  {
    && u.name == name && |u.arguments| <= n
    && (forall j :: 0 <= j < |u.arguments| ==> u.arguments[j].kind in ["{}", "[]"])
    && StartsWith(u.asWritten, lead + name)
  }

  /** What `SearchUseOfMacro` may return: IndexError, TypeError, or uses of the searched name. */
  ghost predicate UsesShaped(r: Result<seq<OldOccurrence>>, name: string, n: nat, lead: string)
  {
    match r
    case Err(e) => e == IndexError || e == TypeError
    case Ok(uses) => forall i :: 0 <= i < |uses| ==> UseShaped(uses[i], name, n, lead)
  }

  lemma {:induction false} UseAtShape(rt: string, p: nat, name: string, n: nat, lead: string)
    requires p + |name| <= |rt|
    ensures UsesShaped(UseAt(rt, p, name, n, lead), name, n, lead)
  {
    var rest := rt[p + |name|..];
    SearchArgumentsShape(rest, n);
    if !IsDefinitionContext(rt[..p]) && SearchArgumentsOf(rest, n).Ok? {
      var (args, aw) := SearchArgumentsOf(rest, n).value;
      var u := OldOccurrence(name, args, lead + name + aw);
      assert UseAt(rt, p, name, n, lead) == Ok([u]);
      assert |args| <= n;
      assert forall j :: 0 <= j < |args| ==> args[j].kind in ["{}", "[]"];
      assert (lead + name + aw)[..|lead + name|] == lead + name;
      assert UseShaped(u, name, n, lead);
    }
  }

  lemma {:induction false} PrependShaped(found: Result<seq<OldOccurrence>>, more: Result<seq<OldOccurrence>>, name: string, n: nat, lead: string)
    requires UsesShaped(found, name, n, lead) && UsesShaped(more, name, n, lead)
    ensures UsesShaped(AndThen(found, more), name, n, lead)
  {
    if found.Ok? && more.Ok? {
      var uses := found.value + more.value;
      assert forall i :: |found.value| <= i < |uses| ==> uses[i] == more.value[i - |found.value|];
    }
  }

  /**
   * Every use `SearchUseOfMacro` returns has the searched name, at most
   * `number_of_arguments` arguments of kind `{}` or `[]`, and an
   * `as_written` that starts with `lead` and the name; the only errors are
   * those of `SearchArguments`.
   */
  lemma {:induction false} UsesShape(rt: string, name: string, n: nat, lead: string)
    requires |name| > 0
    ensures UsesShaped(UsesFrom(rt, name, n, lead), name, n, lead)
    decreases |rt|
  {
    var p := Find(rt, name);
    if p >= 0 {
      var rest := rt[p + |name|..];
      UsesShape(rest, name, n, lead);
      UseAtShape(rt, p, name, n, lead);
      PrependShaped(UseAt(rt, p, name, n, lead), UsesFrom(rest, name, n, lead), name, n, lead);
    }
  }

  /** `w` occurs somewhere in `s`. */
  ghost predicate Occurs(s: string, w: string)
  {
    exists j :: OccursAt(s, w, j)
  }

  /** An occurrence in a suffix is an occurrence in the whole text. */
  lemma {:induction false} OccursInSuffix(s: string, k: nat, x: string)
    requires k <= |s| && Occurs(s[k..], x)
    ensures Occurs(s, x)
  {
    var j :| OccursAt(s[k..], x, j);
    assert s[k..][j..j + |x|] == s[j + k..j + k + |x|];
    assert OccursAt(s, x, j + k);
  }

  /** The name at `p` followed by a prefix of what comes after it occurs at `p`. */
  lemma {:induction false} OccursAtJoin(rt: string, p: nat, name: string, aw: string)
    requires OccursAt(rt, name, p) && StartsWith(rt[p + |name|..], aw)
    ensures Occurs(rt, name + aw)
  {
    var w := name + aw;
    assert rt[p..p + |w|] == rt[p..p + |name|] + rt[p + |name|..][..|aw|];
    assert OccursAt(rt, w, p);
  }

  /** A use whose arguments are all `{}` groups. */
  predicate AllBraces(u: OldOccurrence)
  {
    forall j :: 0 <= j < |u.arguments| ==> u.arguments[j].kind == "{}"
  }

  /** Every brace-only use in `uses` has an `as_written` that occurs in `rt`. */
  ghost predicate WrittenIn(r: Result<seq<OldOccurrence>>, rt: string)
  {
    match r
    case Err(_) => true
    case Ok(uses) => forall i :: 0 <= i < |uses| ==> AllBraces(uses[i]) ==> Occurs(rt, uses[i].asWritten)
  }

  /**
   * The use found at `p` with only `{}` groups occupies the text from `p`
   * on: its `as_written`, the name followed by what `SearchArguments`
   * consumed, occurs in the text.
   */
  lemma {:induction false} UseAtWritten(rt: string, p: nat, name: string, n: nat)
    requires OccursAt(rt, name, p)
    ensures WrittenIn(UseAt(rt, p, name, n, ""), rt)
  {
    var rest := rt[p + |name|..];
    if !IsDefinitionContext(rt[..p]) && SearchArgumentsOf(rest, n).Ok? {
      UseFoundWritten(rt, p, name, n, SearchArgumentsOf(rest, n).value);
    }
  }

  lemma {:induction false} UseFoundWritten(rt: string, p: nat, name: string, n: nat, found: (seq<Arg>, string))
    requires OccursAt(rt, name, p) && !IsDefinitionContext(rt[..p])
    requires SearchArgumentsOf(rt[p + |name|..], n) == Ok(found)
    ensures WrittenIn(UseAt(rt, p, name, n, ""), rt)
  {
    var (args, aw) := found;
    SearchArgumentsWritten(rt[p + |name|..], n);
    UseAtFound(rt, p, name, n, args, aw);
    if AllBraces(OldOccurrence(name, args, name + aw)) {
      OccursAtJoin(rt, p, name, aw);
    }
  }

  /** A use that is not a definition, whose arguments were found, is kept with them. */
  lemma UseAtFound(rt: string, p: nat, name: string, n: nat, args: seq<Arg>, aw: string)
    requires p + |name| <= |rt| && !IsDefinitionContext(rt[..p])
    requires SearchArgumentsOf(rt[p + |name|..], n) == Ok((args, aw))
    ensures UseAt(rt, p, name, n, "") == Ok([OldOccurrence(name, args, name + aw)])
  {
    assert "" + name + aw == name + aw;
  }

  lemma {:induction false} PrependWritten(found: Result<seq<OldOccurrence>>, more: Result<seq<OldOccurrence>>, rt: string, k: nat)
    requires k <= |rt| && WrittenIn(found, rt) && WrittenIn(more, rt[k..])
    ensures WrittenIn(AndThen(found, more), rt)
  {
    if found.Ok? && more.Ok? {
      var uses := found.value + more.value;
      forall i | 0 <= i < |uses| && AllBraces(uses[i])
        ensures Occurs(rt, uses[i].asWritten)
      {
        if i >= |found.value| {
          assert uses[i] == more.value[i - |found.value|];
          OccursInSuffix(rt, k, uses[i].asWritten);
        }
      }
    }
  }

  /**
   * With `as_written` made of the name and the consumed text, as in this
   * file, every use whose arguments are all `{}` groups has an
   * `as_written` that occurs in the scanned text.
   */
  lemma {:induction false} UsesWrittenInText(rt: string, name: string, n: nat)
    requires |name| > 0
    ensures WrittenIn(UsesFrom(rt, name, n, ""), rt)
    decreases |rt|
  {
    var p := Find(rt, name);
    if p >= 0 {
      UsesWrittenInText(rt[p + |name|..], name, n);
      UsesAtWritten(rt, p, name, n);
    }
  }

  lemma {:induction false} UsesAtWritten(rt: string, p: nat, name: string, n: nat)
    requires |name| > 0 && OccursAt(rt, name, p)
    requires WrittenIn(UsesFrom(rt[p + |name|..], name, n, ""), rt[p + |name|..])
    ensures WrittenIn(UsesAt(rt, p, name, n, ""), rt)
  {
    UseAtWritten(rt, p, name, n);
    PrependWritten(UseAt(rt, p, name, n, ""), UsesFrom(rt[p + |name|..], name, n, ""), rt, p + |name|);
  }



  /** The last piece `split` returns holds no separator; it is the whole text or follows the last separator. */
  lemma {:induction false} SplitLastPiece(c: string, b: char)
    ensures var parts := Split(c, [b]); var last := parts[|parts| - 1];
      && Free(last, b)
      && (|parts| == 1 ==> last == c)
      && (|parts| > 1 ==> EndsWith(c, [b] + last))
    decreases |c|
  {
    var i := Find(c, [b]);
    MacroUse.FreeBeforeFind(c, b);
    if i >= 0 {
      var rest := c[i + 1..];
      SplitLastPiece(rest, b);
      var parts := Split(rest, [b]);
      assert Split(c, [b]) == [c[..i]] + parts;
      var last := parts[|parts| - 1];
      var tail := [b] + last;
      assert OccursAt(c, [b], i) && c[i] == b;
      if |parts| == 1 {
        assert last == rest && |tail| == |c| - i;
        assert c[i..] == [c[i]] + rest;
      } else {
        assert EndsWith(rest, tail);
        assert |tail| <= |rest| < |c|;
        assert c[|c| - |tail|..] == rest[|rest| - |tail|..];
      }
    }
  }

  /** What follows the last backslash of a text, or the whole text when it has none. */
  function LastPiece(c: string): string
    decreases |c|
  {
    if |c| == 0 then c
    else if c[|c| - 1] == '\\' then ""
    else LastPiece(c[..|c| - 1]) + [c[|c| - 1]]
  }

  lemma {:induction false} LastPieceForm(c: string)
    ensures Free(LastPiece(c), '\\')
    ensures LastPiece(c) == c || EndsWith(c, "\\" + LastPiece(c))
    decreases |c|
  {
    if |c| > 0 && c[|c| - 1] != '\\' {
      var init := c[..|c| - 1];
      LastPieceForm(init);
      var w := LastPiece(init);
      assert c == init + [c[|c| - 1]];
      if w != init {
        assert c[|c| - |"\\" + w| - 1..] == init[|init| - |"\\" + w|..] + [c[|c| - 1]];
      }
    }
  }

  /** A backslash-free text that is the whole text, or follows a backslash at its end, is the last piece. */
  lemma {:induction false} LastPieceIs(c: string, w: string)
    requires Free(w, '\\') && (EndsWith(c, "\\" + w) || c == w)
    ensures LastPiece(c) == w
    decreases |w|
  {
    if |w| > 0 {
      var init, winit := c[..|c| - 1], w[..|w| - 1];
      assert c[|c| - 1] == w[|w| - 1];
      if EndsWith(c, "\\" + w) {
        assert init[|init| - |"\\" + winit|..] == "\\" + winit;
      }
      LastPieceIs(init, winit);
      assert w == winit + [w[|w| - 1]];
    } else if c != w {
      assert c[|c| - 1] == '\\';
    }
  }

  /** The last piece `split` on backslashes returns is `LastPiece`. */
  lemma {:induction false} SplitLastIsLastPiece(c: string)
    ensures var parts := Split(c, "\\"); parts[|parts| - 1] == LastPiece(c)
  {
    assert "\\" == ['\\'];
    SplitLastPiece(c, '\\');
    var parts := Split(c, "\\");
    LastPieceIs(c, parts[|parts| - 1]);
  }

  lemma {:induction false} OpeningsWithoutBackslash()
    ensures Free("newcommand{", '\\') && Free("renewcommand{", '\\')
    ensures "\\" + "newcommand{" == "\\newcommand{" && "\\" + "renewcommand{" == "\\renewcommand{"
  {
    var w, v := "newcommand{", "renewcommand{";
    forall k | 0 <= k < |w| ensures w[k] != '\\' {
      assert w[k] in "newcomad{";
    }
    forall k | 0 <= k < |v| ensures v[k] != '\\' {
      assert v[k] in "newcomad{r";
    }
  }

  lemma {:induction false} TestIsOpening(last: string)
    ensures "\\" + last in DefinitionOpenings <==> last == "newcommand{" || last == "renewcommand{"
  {
    OpeningsWithoutBackslash();
    var t := "\\" + last;
    assert t[1..] == last;
    if t == "\\newcommand{" {
      assert last == "\\newcommand{"[1..];
    }
    if t == "\\renewcommand{" {
      assert last == "\\renewcommand{"[1..];
    }
  }

  /**
   * A use is skipped exactly when its compacted preceding text ends with
   * `\newcommand{` or `\renewcommand{`, or is `newcommand{` or
   * `renewcommand{` with no backslash at all.
   */
  lemma {:induction false} DefinitionContextIff(before: string)
    ensures var c := Compact(before);
      IsDefinitionContext(before) <==>
        (EndsWith(c, "\\newcommand{") || EndsWith(c, "\\renewcommand{") || c == "newcommand{" || c == "renewcommand{")
  {
    var c := Compact(before);
    var last := LastPiece(c);
    assert TestNewcommand(before) == "\\" + last;
    OpeningsWithoutBackslash();
    TestIsOpening(last);
    LastPieceForm(c);
    if EndsWith(c, "\\newcommand{") || c == "newcommand{" {
      LastPieceIs(c, "newcommand{");
    }
    if EndsWith(c, "\\renewcommand{") || c == "renewcommand{" {
      LastPieceIs(c, "renewcommand{");
    }
  }

  /**
   * There is no word boundary after the name: whatever follows it, even a
   * letter, the name found at the start of the text is a use.
   */
  lemma {:induction false} NoWordBoundary(name: string, rest: string, lead: string)
    requires |name| > 0 && !Contains(rest, name) && Compact(rest) != ""
    ensures UsesFrom(name + rest, name, 0, lead) == Ok([OldOccurrence(name, [], lead + name)])
  {
    var s := name + rest;
    var u := OldOccurrence(name, [], lead + name);
    assert s[0..|name|] == name;
    FindIs(s, name, 0);
    assert s[..0] == "" && s[|name|..] == rest;
    assert Compact("") == "";
    assert TestNewcommand("") == "\\";
    SearchArgumentsStart(rest, 0);
    assert lead + name + "" == lead + name;
    assert UseAt(s, 0, name, 0, lead) == Ok([u]);
    assert UsesFrom(rest, name, 0, lead) == Ok([]);
    assert [u] + [] == [u];
  }
}
