/**
 * The text side of the older parser (LaTeXparser.py, repeated in
 * __init__.py): its comment stripper, which cuts every line after its first
 * `%` and ends every line with a newline, and the comment-respecting
 * `replace` of `CodeLaTeX`.
 */
module OldText {
  import opened PyStr
  import CommentStripper
  import MacroUse

  const EndDocument: string := CommentStripper.EndDocument

  // ---------------------------------------------------------------------
  // RemoveComments

  /** One line of `RemoveComments`: from its first `%` on, the line is replaced by a single `%`. */
  function CutLine(line: string): string
  {
    var placePC := Find(line, "%");
    if placePC == -1 then line else Replace(line, Slice(line, placePC, |line|), "%")
  }

  /** Every line cut. */
  function CutAll(lines: seq<string>): (r: seq<string>)
    ensures |r| == |lines| && forall k :: 0 <= k < |lines| ==> r[k] == CutLine(lines[k])
  {
    seq(|lines|, k requires 0 <= k < |lines| => CutLine(lines[k]))
  }

  /** Every line followed by a newline. */
  function Terminated(parts: seq<string>): (r: seq<string>)
    ensures |r| == |parts| && forall k :: 0 <= k < |parts| ==> r[k] == parts[k] + "\n"
  {
    seq(|parts|, k requires 0 <= k < |parts| => parts[k] + "\n")
  }

  /** `code_withoutPC`: the cut lines, each ended by a newline, put together. */
  function CodeWithoutPC(text: string): string
  {
    Concat(Terminated(CutAll(Split(text, "\n"))))
  }

  /** `RemoveComments(text)`. */
  function RemoveCommentsOf(text: string): string
  {
    CommentStripper.CutAtEnd(CodeWithoutPC(text))
  }

  method RemoveComments(text: string) returns (finalCode: string)
    ensures finalCode == RemoveCommentsOf(text)
  {
    var lines := Split(text, "\n");
    var lineWithoutPC: seq<string> := [];
    for i := 0 to |lines|
      invariant |lineWithoutPC| == i
      invariant forall k :: 0 <= k < i ==> lineWithoutPC[k] == CutLine(lines[k]) + "\n"
    {
      var ligne := CutOneLine(lines[i]);
      lineWithoutPC := lineWithoutPC + [ligne + "\n"];
    }
    assert lineWithoutPC == Terminated(CutAll(lines));
    var codeWithoutPC := Concat(lineWithoutPC);
    finalCode := codeWithoutPC;
    if Contains(finalCode, EndDocument) {
      finalCode := Split(codeWithoutPC, EndDocument)[0] + EndDocument;
    }
  }

  /** The body of the loop of `RemoveComments`. */
  method CutOneLine(lineC: string) returns (ligne: string)
    ensures ligne == CutLine(lineC)
  {
    ligne := lineC;
    var placePC := Find(lineC, "%");
    var toBeRemoved := Slice(lineC, placePC, |lineC|);
    if placePC != -1 {
      ligne := Replace(ligne, toBeRemoved, "%");
    }
  }

  /**
   * A line without `%` is kept; otherwise it is cut right after its first
   * `%`, escaped or not.
   */
  lemma {:induction false} CutLineSpec(line: string)
    ensures Free(line, '%') ==> CutLine(line) == line
    ensures !Free(line, '%') ==>
      var p := Find(line, "%"); 0 <= p < |line| && Free(line[..p], '%') && CutLine(line) == line[..p] + "%"
  {
    MacroUse.FreeBeforeFind(line, '%');
    var p := Find(line, "%");
    if p >= 0 {
      var t := line[p..];
      assert Slice(line, p, |line|) == t;
      forall j | 0 <= j < p ensures !OccursAt(line, t, j) {
        assert line[..p][j] == line[j];
      }
      assert line[p..p + |t|] == t;
      FindIs(line, t, p);
      assert line[p + |t|..] == "";
      assert Split("", t) == [""];
      assert Split(line, t) == [line[..p], ""];
      assert Join([line[..p], ""], "%") == line[..p] + "%" + Join([""], "%");
    }
  }

  /** A cut line, and any prefix of it, is left as it is by a second cut. */
  lemma {:induction false} CutPrefixFixed(line: string, m: nat)
    requires m <= |CutLine(line)|
    ensures CutLine(CutLine(line)[..m]) == CutLine(line)[..m]
  {
    CutLineSpec(line);
    var c := CutLine(line);
    var x := c[..m];
    if Free(line, '%') {
      FreePrefix(line, '%', m);
    } else {
      var p := Find(line, "%");
      if m <= p {
        assert x == line[..p][..m];
        FreePrefix(line[..p], '%', m);
      } else {
        assert x == c;
        CutLineSpec(c);
        MacroUse.FreeBeforeFind(c, '%');
        assert c[..p] == line[..p] && c[p] == '%';
        FindChar(c, '%', p);
        assert c[..p] + "%" == c;
      }
    }
    CutLineSpec(x);
  }

  /** Cutting keeps a line free of newlines. */
  lemma {:induction false} CutLineFree(line: string)
    requires Free(line, '\n')
    ensures Free(CutLine(line), '\n')
  {
    CutLineSpec(line);
    if !Free(line, '%') {
      FreePrefix(line, '\n', Find(line, "%"));
    }
  }

  /** Lines each ended by a newline make the joined lines and one final newline. */
  lemma {:induction false} ConcatTerminated(parts: seq<string>)
    requires |parts| >= 1
    ensures Concat(Terminated(parts)) == Join(parts, "\n") + "\n"
    decreases |parts|
  {
    var t := Terminated(parts);
    if |parts| == 1 {
      assert Concat(t) == t[0] + Concat([]);
    } else {
      assert t[1..] == Terminated(parts[1..]);
      ConcatTerminated(parts[1..]);
      assert Concat(t) == t[0] + Concat(t[1..]);
    }
  }

  /** Joining with one more empty part adds one separator. */
  lemma {:induction false} JoinEmptyLast(parts: seq<string>, sep: string)
    requires |parts| >= 1
    ensures Join(parts + [""], sep) == Join(parts, sep) + sep
    decreases |parts|
  {
    if |parts| == 1 {
      assert Join(parts + [""], sep) == parts[0] + sep + Join([""], sep);
    } else {
      assert (parts + [""])[1..] == parts[1..] + [""];
      JoinEmptyLast(parts[1..], sep);
    }
  }

  /** A pattern that does not end with a newline is not created by adding one. */
  lemma {:induction false} NotFoundAfterNewline(s: string, pat: string)
    requires |pat| > 0 && pat[|pat| - 1] != '\n' && !Contains(s, pat)
    ensures !Contains(s + "\n", pat)
  {
    var t := s + "\n";
    ContainsIff(s, pat);
    forall j | 0 <= j ensures !OccursAt(t, pat, j) {
      if j + |pat| <= |s| {
        assert !OccursAt(s, pat, j);
        assert t[j..j + |pat|] == s[j..j + |pat|];
      } else if j + |pat| == |t| {
        assert t[j + |pat| - 1] == '\n';
      }
    }
    ContainsIff(t, pat);
  }

  /** The lines of the stripped text before the cut: the cut lines and an empty last line. */
  lemma {:induction false} CodeLines(text: string)
    ensures var cut := CutAll(Split(text, "\n"));
      && CodeWithoutPC(text) == Join(cut + [""], "\n")
      && (forall i :: 0 <= i < |cut + [""]| ==> Free((cut + [""])[i], '\n'))
  {
    var lines := Split(text, "\n");
    var cut := CutAll(lines);
    CommentStripper.SplitPartsFree(text);
    forall i | 0 <= i < |cut| ensures Free(cut[i], '\n') {
      CutLineFree(lines[i]);
    }
    ConcatTerminated(cut);
    JoinEmptyLast(cut, "\n");
  }

  /** Lines that cutting leaves alone, joined with newlines, come back with one more newline. */
  lemma {:induction false} StripFixedLines(parts: seq<string>)
    requires |parts| >= 1
    requires forall i :: 0 <= i < |parts| ==> Free(parts[i], '\n') && CutLine(parts[i]) == parts[i]
    ensures CodeWithoutPC(Join(parts, "\n")) == Join(parts, "\n") + "\n"
  {
    assert "\n" == ['\n'];
    SplitJoin(parts, '\n');
    assert CutAll(parts) == parts;
    ConcatTerminated(parts);
  }

  /** The cut lines and the empty last line, and every prefix of them, are left alone by a second cut. */
  lemma {:induction false} PartsFixed(text: string)
    ensures var parts := CutAll(Split(text, "\n")) + [""];
      forall i, m :: 0 <= i < |parts| && 0 <= m <= |parts[i]| ==> CutLine(parts[i][..m]) == parts[i][..m]
  {
    var lines := Split(text, "\n");
    var parts := CutAll(lines) + [""];
    forall i, m | 0 <= i < |parts| && 0 <= m <= |parts[i]| ensures CutLine(parts[i][..m]) == parts[i][..m] {
      if i < |lines| {
        CutPrefixFixed(lines[i], m);
      } else {
        assert parts[i][..m] == "";
      }
    }
  }

  /** The first occurrence in `s`, ending by `q`, stays the first in any text that agrees with `s` up to `q`. */
  lemma {:induction false} FindKept(s: string, t: string, pat: string, q: nat)
    requires Find(s, pat) >= 0 && Find(s, pat) + |pat| <= q <= |s| && q <= |t| && t[..q] == s[..q]
    ensures Find(t, pat) == Find(s, pat)
  {
    var p := Find(s, pat);
    forall j | 0 <= j <= p ensures OccursAt(t, pat, j) <==> OccursAt(s, pat, j) {
      CommentStripper.OccursInPrefix(s, pat, q, j);
      CommentStripper.OccursInPrefix(t, pat, q, j);
    }
    FindIs(t, pat, p);
  }

  /**
   * Removing comments a second time changes nothing when the result holds
   * `\end{document}`, and otherwise only adds a newline at the end.
   */
  lemma {:induction false} RemoveCommentsTwice(text: string)
    ensures Contains(RemoveCommentsOf(text), EndDocument) ==> RemoveCommentsOf(RemoveCommentsOf(text)) == RemoveCommentsOf(text)
    ensures !Contains(RemoveCommentsOf(text), EndDocument) ==> RemoveCommentsOf(RemoveCommentsOf(text)) == RemoveCommentsOf(text) + "\n"
  {
    var code := CodeWithoutPC(text);
    if Contains(code, EndDocument) {
      TwiceFromEnd(text);
    } else {
      TwiceWithoutEnd(text);
    }
  }

  lemma {:induction false} TwiceFromEnd(text: string)
    requires Contains(CodeWithoutPC(text), EndDocument)
    ensures Contains(RemoveCommentsOf(text), EndDocument)
    ensures RemoveCommentsOf(RemoveCommentsOf(text)) == RemoveCommentsOf(text)
  {
    EndKept(CodeWithoutPC(text));
    TwiceFromEndLines(text);
  }

  /** Cutting after the first `\end{document}` keeps it. */
  lemma {:induction false} EndKept(code: string)
    requires Contains(code, EndDocument)
    ensures Contains(CommentStripper.CutAtEnd(code), EndDocument)
  {
    var p := Find(code, EndDocument);
    CommentStripper.CutPrefix(code);
    CommentStripper.FindInPrefix(code, EndDocument, p + |EndDocument|);
  }

  lemma {:induction false} TwiceFromEndLines(text: string)
    requires Contains(CodeWithoutPC(text), EndDocument)
    ensures RemoveCommentsOf(RemoveCommentsOf(text)) == RemoveCommentsOf(text)
  {
    CodeLines(text);
    PartsFixed(text);
    TwiceWithEnd(CodeWithoutPC(text), CutAll(Split(text, "\n")) + [""]);
  }

  lemma {:induction false} TwiceWithoutEnd(text: string)
    requires !Contains(CodeWithoutPC(text), EndDocument)
    ensures !Contains(RemoveCommentsOf(text), EndDocument)
    ensures RemoveCommentsOf(RemoveCommentsOf(text)) == RemoveCommentsOf(text) + "\n"
  {
    var code := CodeWithoutPC(text);
    CodeLines(text);
    PartsFixed(text);
    var parts := CutAll(Split(text, "\n")) + [""];
    forall i | 0 <= i < |parts| ensures CutLine(parts[i]) == parts[i] {
      assert parts[i][..|parts[i]|] == parts[i];
    }
    StripFixedLines(parts);
    NotFoundAfterNewline(code, EndDocument);
  }

  lemma {:induction false} TwiceWithEnd(code: string, parts: seq<string>)
    requires |parts| >= 1 && code == Join(parts, "\n") && Contains(code, EndDocument)
    requires forall i :: 0 <= i < |parts| ==> Free(parts[i], '\n')
    requires forall i, m :: 0 <= i < |parts| && 0 <= m <= |parts[i]| ==> CutLine(parts[i][..m]) == parts[i][..m]
    ensures CommentStripper.CutAtEnd(CodeWithoutPC(CommentStripper.CutAtEnd(code))) == CommentStripper.CutAtEnd(code)
  {
    var q := Find(code, EndDocument) + |EndDocument|;
    CommentStripper.CutPrefix(code);
    CommentStripper.JoinPrefix(parts, q);
    var k, m :| 0 <= k < |parts| && 0 <= m <= |parts[k]| && code[..q] == Join(parts[..k] + [parts[k][..m]], "\n");
    KeptLinesFixed(parts, k, m);
    EndStaysFirst(code);
  }

  /** The lines before line `k`, and the first `m` characters of line `k`, are left alone by cutting. */
  lemma {:induction false} KeptLinesFixed(parts: seq<string>, k: nat, m: nat)
    requires k < |parts| && m <= |parts[k]|
    requires forall i :: 0 <= i < |parts| ==> Free(parts[i], '\n')
    requires forall i, m :: 0 <= i < |parts| && 0 <= m <= |parts[i]| ==> CutLine(parts[i][..m]) == parts[i][..m]
    ensures var kept := parts[..k] + [parts[k][..m]];
      CodeWithoutPC(Join(kept, "\n")) == Join(kept, "\n") + "\n"
  {
    var kept := parts[..k] + [parts[k][..m]];
    forall i | 0 <= i < |kept| ensures Free(kept[i], '\n') && CutLine(kept[i]) == kept[i] {
      if i < k {
        assert parts[i][..|parts[i]|] == parts[i];
      } else {
        FreePrefix(parts[k], '\n', m);
      }
    }
    StripFixedLines(kept);
  }

  /** A newline added after the first `\end{document}` is cut off again. */
  lemma {:induction false} EndStaysFirst(code: string)
    requires Contains(code, EndDocument)
    ensures CommentStripper.CutAtEnd(CommentStripper.CutAtEnd(code) + "\n") == CommentStripper.CutAtEnd(code)
  {
    var q := Find(code, EndDocument) + |EndDocument|;
    CommentStripper.CutPrefix(code);
    var r2 := code[..q] + "\n";
    assert r2[..q] == code[..q];
    FindKept(code, r2, EndDocument, q);
    CommentStripper.CutPrefix(r2);
  }

  // ---------------------------------------------------------------------
  // CodeLaTeX.replace

  /**
   * One line of `replace`: the replacement is done in the line up to its
   * first `%` included, the rest is kept, and a newline ends the line.
   */
  function ReplaceLine(line: string, textA: string, textB: string): string
  {
    var placePC := Find(line, "%");
    if placePC == -1 then Replace(line, textA, textB) + "\n"
    else Replace(Slice(line, 0, placePC + 1), textA, textB) + Slice(line, placePC + 1, |line|) + "\n"
  }

  function ReplacedLines(lines: seq<string>, textA: string, textB: string): (r: seq<string>)
    ensures |r| == |lines| && forall k :: 0 <= k < |lines| ==> r[k] == ReplaceLine(lines[k], textA, textB)
  {
    seq(|lines|, k requires 0 <= k < |lines| => ReplaceLine(lines[k], textA, textB))
  }

  /** The `text_brut` of the object `replace(textA, textB)` returns. */
  function ReplacedText(text: string, textA: string, textB: string): string
  {
    Concat(ReplacedLines(Split(text, "\n"), textA, textB))
  }

  /** The loop of `replace`, which builds `new_text` line by line. */
  method ReplaceInText(textBrut: string, textA: string, textB: string) returns (newText: string)
    ensures newText == ReplacedText(textBrut, textA, textB)
  {
    var lines := Split(textBrut, "\n");
    ghost var done := ReplacedLines(lines, textA, textB);
    newText := "";
    for i := 0 to |lines|
      invariant newText == Concat(done[..i])
    {
      var newLine := ReplaceOneLine(lines[i], textA, textB);
      TakeOneMore(done, i);
      ConcatSnoc(done[..i], newLine);
      newText := newText + newLine;
    }
    assert done[..|lines|] == done;
  }

  lemma TakeOneMore<T>(xs: seq<T>, i: nat)
    requires i < |xs|
    ensures xs[..i + 1] == xs[..i] + [xs[i]]
  {
  }

  /** The body of the loop of `replace`. */
  method ReplaceOneLine(line: string, textA: string, textB: string) returns (newLine: string)
    ensures newLine == ReplaceLine(line, textA, textB)
  {
    var placePC := Find(line, "%");
    if placePC == -1 {
      newLine := Replace(line, textA, textB) + "\n";
    } else {
      newLine := Replace(Slice(line, 0, placePC + 1), textA, textB) + Slice(line, placePC + 1, |line|) + "\n";
    }
  }

  /** `replace` with an empty pattern and an empty replacement changes nothing. */
  lemma {:induction false} InsertNothing(s: string)
    ensures InsertAround(s, "") == s
    decreases |s|
  {
    if |s| > 0 {
      InsertNothing(s[1..]);
      assert s == [s[0]] + s[1..];
    }
  }

  /** Replacing a pattern by itself changes nothing. */
  lemma {:induction false} ReplaceSame(s: string, a: string)
    ensures Replace(s, a, a) == s
  {
    if |a| == 0 {
      InsertNothing(s);
    } else {
      JoinSplit(s, a);
    }
  }

  /** `replace` with the pattern as its own replacement rewrites no line and only ends every line with a newline. */
  lemma {:induction false} ReplaceIdentity(text: string, a: string)
    ensures ReplacedText(text, a, a) == text + "\n"
  {
    var lines := Split(text, "\n");
    forall k | 0 <= k < |lines| ensures ReplaceLine(lines[k], a, a) == lines[k] + "\n" {
      var line := lines[k];
      var p := Find(line, "%");
      if p == -1 {
        ReplaceSame(line, a);
      } else {
        ReplaceSame(line[..p + 1], a);
        assert Slice(line, 0, p + 1) == line[..p + 1] && Slice(line, p + 1, |line|) == line[p + 1..];
        assert line[..p + 1] + line[p + 1..] == line;
      }
    }
    assert ReplacedLines(lines, a, a) == Terminated(lines);
    ConcatTerminated(lines);
    JoinSplit(text, "\n");
  }

  /** A pattern found in a slice is found in the whole text. */
  lemma {:induction false} ContainsInSlice(s: string, i: nat, j: nat, a: string)
    requires i <= j <= |s| && Contains(s[i..j], a)
    ensures Contains(s, a)
  {
    var t := s[i..j];
    var k := Find(t, a);
    assert OccursAt(t, a, k);
    assert 0 <= k && k + |a| <= |t| && |t| == j - i;
    forall m | 0 <= m < |a| ensures s[i + k + m] == a[m] {
      assert t[k + m] == a[m];
    }
    assert s[i + k..i + k + |a|] == a;
    assert OccursAt(s, a, i + k);
    ContainsIff(s, a);
  }

  /** No piece `split` returns holds a pattern that the text does not hold. */
  lemma {:induction false} SplitPiecesWithout(s: string, sep: string, a: string)
    requires |sep| > 0 && !Contains(s, a)
    ensures forall k :: 0 <= k < |Split(s, sep)| ==> !Contains(Split(s, sep)[k], a)
    decreases |s|
  {
    var i := Find(s, sep);
    if i >= 0 {
      var rest := s[i + |sep|..];
      HeadRestWithout(s, i, |sep|, a);
      SplitPiecesWithout(rest, sep, a);
      var parts := Split(s, sep);
      var later := Split(rest, sep);
      assert parts == [s[..i]] + later;
      forall k | 0 <= k < |parts| ensures !Contains(parts[k], a) {
        if k == 0 {
          assert parts[k] == s[..i];
        } else {
          assert parts[k] == later[k - 1];
        }
      }
    } else {
      assert Split(s, sep) == [s];
    }
  }

  /** Neither the part before a separator nor the part after it holds a pattern the text does not hold. */
  lemma {:induction false} HeadRestWithout(s: string, i: nat, n: nat, a: string)
    requires i + n <= |s| && !Contains(s, a)
    ensures !Contains(s[..i], a) && !Contains(s[i + n..], a)
  {
    if Contains(s[..i], a) {
      assert s[0..i] == s[..i];
      ContainsInSlice(s, 0, i, a);
    }
    if Contains(s[i + n..], a) {
      assert s[i + n..|s|] == s[i + n..];
      ContainsInSlice(s, i + n, |s|, a);
    }
  }

  /** A line that does not hold the pattern only gets its newline. */
  lemma {:induction false} LineWithoutTarget(line: string, a: string, b: string)
    requires |a| > 0 && !Contains(line, a)
    ensures ReplaceLine(line, a, b) == line + "\n"
  {
    var p := Find(line, "%");
    if p == -1 {
      ReplaceAbsent(line, a, b);
    } else {
      assert OccursAt(line, "%", p);
      if Contains(line[..p + 1], a) {
        ContainsInSlice(line, 0, p + 1, a);
      }
      ReplaceAbsent(line[..p + 1], a, b);
      assert Slice(line, 0, p + 1) == line[..p + 1] && Slice(line, p + 1, |line|) == line[p + 1..];
      assert line[..p + 1] + line[p + 1..] == line;
    }
  }

  /** When the text does not hold the pattern, `replace` only ends every line with a newline. */
  lemma {:induction false} ReplaceWithoutTarget(text: string, a: string, b: string)
    requires |a| > 0 && !Contains(text, a)
    ensures ReplacedText(text, a, b) == text + "\n"
  {
    var lines := Split(text, "\n");
    SplitPiecesWithout(text, "\n", a);
    forall k | 0 <= k < |lines| ensures ReplaceLine(lines[k], a, b) == lines[k] + "\n" {
      LineWithoutTarget(lines[k], a, b);
    }
    assert ReplacedLines(lines, a, b) == Terminated(lines);
    ConcatTerminated(lines);
    JoinSplit(text, "\n");
  }

  /**
   * `replace` works on one line at a time, so a pattern that spans a line
   * break is never replaced, even where the text holds it: the result is
   * the text with a newline at its end.
   */
  lemma {:induction false} ReplaceAcrossLines(text: string, a: string, b: string)
    requires !Free(a, '\n')
    ensures ReplacedText(text, a, b) == text + "\n"
  {
    var lines := Split(text, "\n");
    SplitPartsWithout(text, "\n");
    var m :| 0 <= m < |a| && a[m] == '\n';
    forall k | 0 <= k < |lines| ensures ReplaceLine(lines[k], a, b) == lines[k] + "\n" {
      var line := lines[k];
      forall i | 0 <= i < |line| ensures line[i] != '\n' {
        assert !OccursAt(line, "\n", i);
        assert line[i..i + 1] == [line[i]];
      }
      forall j | 0 <= j ensures !OccursAt(line, a, j) {
        if j + |a| <= |line| {
          assert line[j..j + |a|][m] == line[j + m];
        }
      }
      LineWithoutTarget(line, a, b);
    }
    assert ReplacedLines(lines, a, b) == Terminated(lines);
    ConcatTerminated(lines);
    JoinSplit(text, "\n");
  }

  /**
   * On a single line without `%`, `replace` rewrites the first occurrence
   * of the pattern into the replacement (and, as `str.replace`, the later
   * ones in what follows it), then ends the line with a newline.
   */
  lemma {:induction false} ReplaceFirstOccurrence(text: string, a: string, b: string)
    requires |a| > 0 && Free(text, '\n') && Free(text, '%') && Contains(text, a)
    ensures var i := Find(text, a);
      0 <= i && i + |a| <= |text| && ReplacedText(text, a, b) == text[..i] + b + Replace(text[i + |a|..], a, b) + "\n"
  {
    OneLineReplaced(text, a, b);
    ReplaceAtFirst(text, a, b);
  }

  /** A text without newline and `%` is one line, replaced as a whole. */
  lemma {:induction false} OneLineReplaced(text: string, a: string, b: string)
    requires Free(text, '\n') && Free(text, '%')
    ensures ReplacedText(text, a, b) == Replace(text, a, b) + "\n"
  {
    FreeNotContains(text, "\n");
    FreeNotContains(text, "%");
    assert Split(text, "\n") == [text];
    var line := ReplaceLine(text, a, b);
    assert ReplacedLines([text], a, b) == [line];
    assert Concat([line]) == line + Concat([]);
  }

  /** `str.replace` rewrites the first occurrence, then goes on after it. */
  lemma {:induction false} ReplaceAtFirst(text: string, a: string, b: string)
    requires |a| > 0 && Contains(text, a)
    ensures var i := Find(text, a);
      0 <= i && i + |a| <= |text| && Replace(text, a, b) == text[..i] + b + Replace(text[i + |a|..], a, b)
  {
    var i := Find(text, a);
    var rest := text[i + |a|..];
    assert Split(text, a) == [text[..i]] + Split(rest, a);
    JoinCons(text[..i], Split(rest, a), b);
  }

  /** What follows the first `%` of a line comes out of `replace` untouched, before the newline that ends the line. */
  lemma {:induction false} ReplaceKeepsComment(line: string, a: string, b: string)
    requires !Free(line, '%')
    ensures var p := Find(line, "%");
      0 <= p < |line| && EndsWith(ReplaceLine(line, a, b), line[p + 1..] + "\n")
  {
    MacroUse.FreeBeforeFind(line, '%');
    var p := Find(line, "%");
    var r := ReplaceLine(line, a, b);
    var tail := line[p + 1..] + "\n";
    assert Slice(line, p + 1, |line|) == line[p + 1..];
    assert r[|r| - |tail|..] == tail;
  }
}
