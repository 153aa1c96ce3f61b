/**
 * Comment removal on LaTeX sources (`RemoveComments` and `is_empty_line` of
 * src/utilities.py; src/Utilities.py holds an identical copy of
 * `RemoveComments`).  A `%` starts a comment unless a backslash precedes it;
 * the comment is cut right after that `%`, which is kept.  Everything after
 * the first `\end{document}` goes too.
 */
module CommentStripper {
  import opened PyStr

  const EndDocument: string := "\\end{document}"

  /** The `%` at index `i` of a line starts a comment: it is not escaped by a backslash. */
  predicate ActivePercent(line: string, i: int)
  {
    0 <= i < |line| && line[i] == '%' && (i == 0 || line[i - 1] != '\\')
  }

  /** The pattern `[^\\]%` matches at index `j`: a non-backslash, then `%`. */
  predicate PatternAt(line: string, j: int)
  {
    0 <= j && j + 1 < |line| && line[j] != '\\' && line[j + 1] == '%'
  }

  /** Leftmost match of `[^\\]%` in a line (the regular-expression search), or -1. */
  function SearchPattern(line: string): (j: int)
    ensures -1 <= j < |line|
    ensures j >= 0 ==> PatternAt(line, j)
    ensures j >= 0 ==> forall k :: 0 <= k < j ==> !PatternAt(line, k)
    ensures j == -1 ==> forall k :: !PatternAt(line, k)
    decreases |line|
  {
    if |line| < 2 then -1
    else if line[0] != '\\' && line[1] == '%' then 0
    else
      var k := SearchPattern(line[1..]);
      forall m | 0 <= m ensures PatternAt(line[1..], m) <==> PatternAt(line, m + 1) {
        if 0 <= m && m + 1 < |line| - 1 {
          assert line[1..][m] == line[m + 1] && line[1..][m + 1] == line[m + 2];
        }
      }
      forall m | 0 < m ensures PatternAt(line, m) <==> PatternAt(line[1..], m - 1) {
        if m + 1 < |line| {
          assert line[1..][m - 1] == line[m] && line[1..][m] == line[m + 1];
        }
      }
      if k == -1 then -1 else k + 1
  }

  /**
   * What one line keeps: the line up to and including its first unescaped `%`,
   * or the whole line when it has none.
   */
  function StripLine(line: string): (r: string)
    ensures |r| <= |line| && r == line[..|r|]
    ensures forall i :: 0 <= i < |r| - 1 ==> !ActivePercent(line, i)
    ensures |r| < |line| ==> |r| >= 1 && ActivePercent(line, |r| - 1)
  {
    var j := SearchPattern(line);
    var kept := if j >= 0 then line[..j + 2] else line;
    assert forall i :: 1 <= i ==> (ActivePercent(line, i) <==> PatternAt(line, i - 1));
    if StartsWith(kept, "%") then "%" else kept
  }

  /** The whole transformation, line by line, then the cut after `\end{document}`. */
  function WithoutComments(text: string): string
  {
    CutAtEnd(LineStage(text))
  }

  /** Every line stripped, the lines joined back. */
  function LineStage(text: string): string
  {
    Join(StripAll(Split(text, "\n")), "\n")
  }

  /** The text up to the first `\end{document}` included, when there is one. */
  function CutAtEnd(code: string): string
  {
    if Contains(code, EndDocument) then Split(code, EndDocument)[0] + EndDocument else code
  }

  function StripAll(lines: seq<string>): (r: seq<string>)
    ensures |r| == |lines|
    ensures forall k :: 0 <= k < |lines| ==> r[k] == StripLine(lines[k])
  {
    seq(|lines|, k requires 0 <= k < |lines| => StripLine(lines[k]))
  }

  /** `RemoveComments`: strips every line of its comment, then drops what follows `\end{document}`. */
  method RemoveComments(text: string) returns (finalCode: string)
    ensures finalCode == WithoutComments(text)
  {
    var lines := Split(text, "\n");
    var lineWithoutPC: seq<string> := [];
    var i := 0;
    while i < |lines|
      invariant 0 <= i <= |lines|
      invariant |lineWithoutPC| == i
      invariant forall k :: 0 <= k < i ==> lineWithoutPC[k] == StripLine(lines[k])
    {
      var lineC := lines[i];
      var s := SearchPattern(lineC);
      var ligne := if s >= 0 then lineC[..s + 2] else lineC;
      if StartsWith(ligne, "%") {
        ligne := "%";
      }
      lineWithoutPC := lineWithoutPC + [ligne];
      i := i + 1;
    }
    assert lineWithoutPC == StripAll(lines);
    var codeWithoutPC := Join(lineWithoutPC, "\n");
    finalCode := codeWithoutPC;
    if Contains(codeWithoutPC, EndDocument) {
      finalCode := Split(codeWithoutPC, EndDocument)[0] + EndDocument;
    }
  }

  /** An escaped `\%` never starts a comment: a line whose every `%` is escaped is kept whole. */
  lemma EscapedPercentKept(line: string)
    requires forall i :: 0 <= i < |line| && line[i] == '%' ==> i > 0 && line[i - 1] == '\\'
    ensures StripLine(line) == line
  {
  }

  /** A line that starts with `%` is reduced to that `%`. */
  lemma LeadingPercent(line: string)
    requires |line| > 0 && line[0] == '%'
    ensures StripLine(line) == "%"
  {
  }

  /** Every prefix of a stripped line is left as it is by stripping. */
  lemma StripPrefixFixed(line: string, m: nat)
    requires m <= |StripLine(line)|
    ensures StripLine(StripLine(line)[..m]) == StripLine(line)[..m]
  {
    var r := StripLine(line);
    var p := r[..m];
    assert p == line[..m];
    forall i | 0 <= i < |p| ensures ActivePercent(p, i) == ActivePercent(line, i) {
    }
    StripLineUnique(p, p);
  }

  /** The three properties of `StripLine` single out its result. */
  lemma StripLineUnique(line: string, r': string)
    requires |r'| <= |line| && r' == line[..|r'|]
    requires forall i :: 0 <= i < |r'| - 1 ==> !ActivePercent(line, i)
    requires |r'| < |line| ==> |r'| >= 1 && ActivePercent(line, |r'| - 1)
    ensures StripLine(line) == r'
  {
    var r := StripLine(line);
    if |r| < |r'| {
      assert false;
    }
    if |r'| < |r| {
      assert false;
    }
  }

  /** A stripped line holds no newline when the original held none. */
  lemma StripAllFree(lines: seq<string>)
    requires forall k :: 0 <= k < |lines| ==> Free(lines[k], '\n')
    ensures forall k :: 0 <= k < |lines| ==> Free(StripAll(lines)[k], '\n')
  {
    forall k | 0 <= k < |lines| ensures Free(StripAll(lines)[k], '\n') {
      var r := StripLine(lines[k]);
      assert forall i :: 0 <= i < |r| ==> r[i] == lines[k][i];
    }
  }

  lemma SplitPartsFree(s: string)
    ensures forall k :: 0 <= k < |Split(s, "\n")| ==> Free(Split(s, "\n")[k], '\n')
    decreases |s|
  {
    var i := Find(s, "\n");
    if i >= 0 {
      forall m | 0 <= m < i ensures s[m] != '\n' {
        assert !OccursAt(s, "\n", m);
        assert s[m..m + 1] == [s[m]];
      }
      SplitPartsFree(s[i + 1..]);
    } else {
      forall m | 0 <= m < |s| ensures s[m] != '\n' {
        assert !OccursAt(s, "\n", m);
        assert s[m..m + 1] == [s[m]];
      }
    }
  }

  /** Without `\end{document}`, the result has as many lines as the input and line k is line k stripped. */
  lemma {:induction false} LineByLine(text: string)
    requires !Contains(LineStage(text), EndDocument)
    ensures var out := Split(WithoutComments(text), "\n");
      var lines := Split(text, "\n");
      |out| == |lines| && forall k :: 0 <= k < |lines| ==> out[k] == StripLine(lines[k])
  {
    var lines := Split(text, "\n");
    SplitPartsFree(text);
    StripAllFree(lines);
    SplitJoin(StripAll(lines), '\n');
  }

  /** A prefix of a joined text is the join of whole leading parts and a prefix of the next part. */
  lemma {:induction false} JoinPrefix(parts: seq<string>, q: nat)
    requires |parts| >= 1 && q <= |Join(parts, "\n")|
    ensures exists k, m :: (0 <= k < |parts| && 0 <= m <= |parts[k]|
      && Join(parts, "\n")[..q] == Join(parts[..k] + [parts[k][..m]], "\n"))
    decreases |parts|
  {
    var p := parts[0];
    if q <= |p| {
      assert Join(parts, "\n")[..q] == p[..q];
      assert parts[..0] + [parts[0][..q]] == [p[..q]];
    } else {
      assert |parts| >= 2;
      var rest := parts[1..];
      assert Join(parts, "\n") == p + "\n" + Join(rest, "\n");
      JoinPrefix(rest, q - |p| - 1);
      var k, m :| 0 <= k < |rest| && 0 <= m <= |rest[k]|
        && Join(rest, "\n")[..q - |p| - 1] == Join(rest[..k] + [rest[k][..m]], "\n");
      var tail := rest[..k] + [rest[k][..m]];
      assert parts[..k + 1] + [parts[k + 1][..m]] == [p] + tail;
      assert Join([p] + tail, "\n") == p + "\n" + Join(tail, "\n");
      assert Join(parts, "\n")[..q] == p + "\n" + Join(rest, "\n")[..q - |p| - 1];
    }
  }

  /** Stripping leaves already stripped lines, and a prefix of the next one, as they are. */
  lemma StripAllFixed(lines: seq<string>, k: nat, m: nat)
    requires k < |lines| && m <= |StripLine(lines[k])|
    ensures var parts := StripAll(lines)[..k] + [StripLine(lines[k])[..m]];
      StripAll(parts) == parts
  {
    var parts := StripAll(lines)[..k] + [StripLine(lines[k])[..m]];
    forall i | 0 <= i < |parts| ensures StripLine(parts[i]) == parts[i] {
      if i < k {
        StripPrefixFixed(lines[i], |StripLine(lines[i])|);
        assert StripLine(lines[i])[..|StripLine(lines[i])|] == StripLine(lines[i]);
      } else {
        StripPrefixFixed(lines[k], m);
      }
    }
  }

  lemma OccursInPrefix(s: string, pat: string, q: nat, j: int)
    requires 0 <= j && j + |pat| <= q <= |s|
    ensures OccursAt(s[..q], pat, j) <==> OccursAt(s, pat, j)
  {
    assert s[..q][j..j + |pat|] == s[j..j + |pat|];
  }

  /** The first occurrence of a pattern in a string is also the first in any prefix that holds it. */
  lemma FindInPrefix(s: string, pat: string, q: nat)
    requires Find(s, pat) >= 0 && Find(s, pat) + |pat| <= q <= |s|
    ensures Find(s[..q], pat) == Find(s, pat)
  {
    var p := Find(s, pat);
    forall j | 0 <= j < p ensures !OccursAt(s[..q], pat, j) {
      OccursInPrefix(s, pat, q, j);
    }
    OccursInPrefix(s, pat, q, p);
    FindIs(s[..q], pat, p);
  }

  /** Lines that stripping leaves alone, joined, are left alone by the line stage. */
  lemma LinesFixed(cut: seq<string>)
    requires |cut| >= 1
    requires forall i :: 0 <= i < |cut| ==> Free(cut[i], '\n')
    requires StripAll(cut) == cut
    ensures LineStage(Join(cut, "\n")) == Join(cut, "\n")
  {
    SplitJoin(cut, '\n');
  }

  /** Cutting keeps the prefix that ends with the first `\end{document}`. */
  lemma CutPrefix(code: string)
    requires Contains(code, EndDocument)
    ensures CutAtEnd(code) == code[..Find(code, EndDocument) + |EndDocument|]
  {
    SplitHeadPlus(code, EndDocument);
  }

  /** The first piece of a split, with the separator put back, is the prefix up to the separator's end. */
  lemma SplitHeadPlus(code: string, pat: string)
    requires |pat| > 0 && Contains(code, pat)
    ensures Split(code, pat)[0] + pat == code[..Find(code, pat) + |pat|]
  {
    var p := Find(code, pat);
    assert OccursAt(code, pat, p);
    assert code[..p + |pat|] == code[..p] + code[p..p + |pat|];
  }

  /** Cutting keeps a prefix ending with the first `\end{document}`, and cutting again changes nothing. */
  lemma CutFixed(code: string)
    requires Contains(code, EndDocument)
    ensures CutAtEnd(code) == code[..Find(code, EndDocument) + |EndDocument|]
    ensures CutAtEnd(CutAtEnd(code)) == CutAtEnd(code)
  {
    var q := Find(code, EndDocument) + |EndDocument|;
    CutPrefix(code);
    var r := CutAtEnd(code);
    FindInPrefix(code, EndDocument, q);
    assert Find(r, EndDocument) + |EndDocument| == |r|;
    CutPrefix(r);
    assert r[..|r|] == r;
  }

  /** Removing comments twice is removing them once. */
  lemma RemoveCommentsIdempotent(text: string)
    ensures WithoutComments(WithoutComments(text)) == WithoutComments(text)
  {
    var lines := Split(text, "\n");
    var parts := StripAll(lines);
    var code := Join(parts, "\n");
    SplitPartsFree(text);
    StripAllFree(lines);
    if !Contains(code, EndDocument) {
      forall i | 0 <= i < |parts| ensures StripLine(parts[i]) == parts[i] {
        StripPrefixFixed(lines[i], |parts[i]|);
        assert parts[i][..|parts[i]|] == parts[i];
      }
      assert StripAll(parts) == parts;
      LinesFixed(parts);
    } else {
      var q := Find(code, EndDocument) + |EndDocument|;
      CutFixed(code);
      var r := CutAtEnd(code);
      assert r == code[..q];
      LineStageOfPrefix(lines, q);
      assert LineStage(r) == r;
    }
  }

  /** The line stage leaves any prefix of its own output as it is. */
  lemma LineStageOfPrefix(lines: seq<string>, q: nat)
    requires |lines| >= 1
    requires forall k :: 0 <= k < |lines| ==> Free(StripAll(lines)[k], '\n')
    requires q <= |Join(StripAll(lines), "\n")|
    ensures LineStage(Join(StripAll(lines), "\n")[..q]) == Join(StripAll(lines), "\n")[..q]
  {
    var parts := StripAll(lines);
    JoinPrefix(parts, q);
    var k, m :| 0 <= k < |parts| && 0 <= m <= |parts[k]|
      && Join(parts, "\n")[..q] == Join(parts[..k] + [parts[k][..m]], "\n");
    var cut := parts[..k] + [parts[k][..m]];
    FreePrefix(parts[k], '\n', m);
    forall i | 0 <= i < |cut| ensures Free(cut[i], '\n') {
      if i < k {
        assert cut[i] == parts[i];
      } else {
        assert cut[i] == parts[k][..m];
      }
    }
    assert parts[k] == StripLine(lines[k]);
    StripAllFixed(lines, k, m);
    LinesFixed(cut);
  }

  /** `is_empty_line`: the line holds nothing but whitespace. */
  function IsEmptyLine(line: string): (r: bool)
    ensures r <==> forall k :: 0 <= k < |line| ==> IsSpace(line[k])
  {
    StripEmptyIff(line);
    Strip(line) == ""
  }

  lemma {:induction false} StripEmptyIff(s: string)
    ensures Strip(s) == "" <==> forall k :: 0 <= k < |s| ==> IsSpace(s[k])
    decreases |s|
  {
    if |s| == 0 {
    } else if IsSpace(s[0]) {
      StripEmptyIff(s[1..]);
      assert forall k :: 1 <= k < |s| ==> s[k] == s[1..][k - 1];
    } else if IsSpace(s[|s| - 1]) {
      StripEmptyIff(s[..|s| - 1]);
      assert forall k :: 0 <= k < |s| - 1 ==> s[k] == s[..|s| - 1][k];
    } else {
    }
  }
}
