/**
 * The `.bbl` generator of create_bbl.py: the labels cited in the `.aux`
 * file (from its `\citation{...}` lines, without duplicates, in order of
 * first citation), the lookup of each label in the JSON bibliography, the
 * rendering of one entry as a `\bibitem` block, and the assembly of all
 * blocks into the template in place of `**BBL_CODE**`.
 */
module CreateBbl {
  import opened PyStr

  // ---------------------------------------------------------------------
  // Labels of the aux file

  /** `line_to_labels`: the text between the first `{` and the first `}`, cut at commas. */
  function LineToLabels(line: string): (r: seq<string>)
    ensures |r| >= 1
  {
    Split(Slice(line, Find(line, "{") + 1, Find(line, "}")), ",")
  }

  /** On a line `...{a,b,c}...` the labels, joined back with commas, are the braced text. */
  lemma LineToLabelsBraced(line: string, i: nat, j: nat)
    requires i < j < |line| && line[i] == '{' && line[j] == '}'
    requires forall k :: 0 <= k < i ==> line[k] != '{'
    requires forall k :: 0 <= k < j ==> line[k] != '}'
    ensures Join(LineToLabels(line), ",") == line[i + 1..j]
  {
    assert Free(line[..i], '{');
    assert Free(line[..j], '}');
    FindChar(line, '{', i);
    FindChar(line, '}', j);
    JoinSplit(line[i + 1..j], ",");
  }

  /** `is_citation_line`. */
  predicate IsCitationLine(line: string)
  {
    StartsWith(line, "\\citation")
  }

  /** The non-empty strings of a list, in order (the `if label:` filter). */
  function NonEmpty(xs: seq<string>): (r: seq<string>)
    ensures forall k :: 0 <= k < |r| ==> r[k] != ""
    decreases |xs|
  {
    if |xs| == 0 then []
    else
      var last := xs[|xs| - 1];
      NonEmpty(xs[..|xs| - 1]) + (if last == "" then [] else [last])
  }

  /** The filter keeps exactly the non-empty strings. */
  lemma {:induction false} NonEmptyIn(xs: seq<string>, x: string)
    ensures x in NonEmpty(xs) <==> x in xs && x != ""
    decreases |xs|
  {
    if |xs| > 0 {
      var front := xs[..|xs| - 1];
      NonEmptyIn(front, x);
      assert xs == front + [xs[|xs| - 1]];
    }
  }

  /** What one line of the aux file contributes to `cited_labels`. */
  function LabelsOfLine(line: string): seq<string>
  {
    if IsCitationLine(line) then NonEmpty(LineToLabels(line)) else []
  }

  /** The lists of a list of lists, one after the other. */
  function Flatten<T>(xss: seq<seq<T>>): seq<T>
    decreases |xss|
  {
    if |xss| == 0 then [] else Flatten(xss[..|xss| - 1]) + xss[|xss| - 1]
  }

  /** An element of the flattened list is an element of one of the lists, and conversely. */
  lemma {:induction false} FlattenIn<T>(xss: seq<seq<T>>, x: T)
    ensures x in Flatten(xss) <==> exists k :: 0 <= k < |xss| && x in xss[k]
    decreases |xss|
  {
    if |xss| > 0 {
      var n := |xss| - 1;
      var front := xss[..n];
      FlattenIn(front, x);
      if exists k :: 0 <= k < |xss| && x in xss[k] {
        var k :| 0 <= k < |xss| && x in xss[k];
        if k < n {
          assert front[k] == xss[k];
        }
      }
      if x in Flatten(front) {
        var k :| 0 <= k < |front| && x in front[k];
        assert xss[k] == front[k];
      }
    }
  }

  /** What each line of the aux file contributes, line by line. */
  function PerLine(lines: seq<string>): (r: seq<seq<string>>)
    ensures |r| == |lines|
    ensures forall k :: 0 <= k < |lines| ==> r[k] == LabelsOfLine(lines[k])
  {
    seq(|lines|, k requires 0 <= k < |lines| => LabelsOfLine(lines[k]))
  }

  /** `cited_labels` before `filter_duplicates`: the labels of the citation lines, in order. */
  function CitedLabels(lines: seq<string>): seq<string>
  {
    Flatten(PerLine(lines))
  }

  /** One more line appends what it contributes. */
  lemma CitedLabelsStep(lines: seq<string>, i: nat)
    requires i < |lines|
    ensures CitedLabels(lines[..i + 1]) == CitedLabels(lines[..i]) + LabelsOfLine(lines[i])
  {
    var ls := PerLine(lines[..i + 1]);
    assert ls[..i] == PerLine(lines[..i]);
  }

  /** A label is cited exactly when one of the lines contributes it. */
  lemma CitedLabelsIn(lines: seq<string>, x: string)
    ensures x in CitedLabels(lines) <==> exists k :: 0 <= k < |lines| && x in LabelsOfLine(lines[k])
  {
    FlattenIn(PerLine(lines), x);
  }

  /** A line contributes exactly the non-empty labels it carries, and only when it is a citation line. */
  lemma LabelsOfLineIn(line: string, x: string)
    ensures x in LabelsOfLine(line) <==> x != "" && IsCitationLine(line) && x in LineToLabels(line)
  {
    NonEmptyIn(LineToLabels(line), x);
  }

  // ---------------------------------------------------------------------
  // filter_duplicates

  /** The list with only the first occurrence of each element kept. */
  function Dedup<T(==)>(xs: seq<T>): seq<T>
    decreases |xs|
  {
    if |xs| == 0 then []
    else
      var d := Dedup(xs[..|xs| - 1]);
      if xs[|xs| - 1] in d then d else d + [xs[|xs| - 1]]
  }

  predicate NoDuplicates<T(==)>(xs: seq<T>)
  {
    forall i, j :: 0 <= i < j < |xs| ==> xs[i] != xs[j]
  }

  /** `filter_duplicates` keeps exactly the elements of its input. */
  lemma {:induction false} DedupElements<T>(xs: seq<T>)
    ensures forall x :: x in Dedup(xs) <==> x in xs
    decreases |xs|
  {
    if |xs| > 0 {
      var front := xs[..|xs| - 1];
      DedupElements(front);
      assert xs == front + [xs[|xs| - 1]];
    }
  }

  /** `filter_duplicates` leaves no duplicate. */
  lemma {:induction false} DedupNoDuplicates<T>(xs: seq<T>)
    ensures NoDuplicates(Dedup(xs))
    decreases |xs|
  {
    if |xs| > 0 {
      DedupNoDuplicates(xs[..|xs| - 1]);
    }
  }

  /** A list without duplicates is left as it is. */
  lemma {:induction false} DedupOfDistinct<T>(xs: seq<T>)
    requires NoDuplicates(xs)
    ensures Dedup(xs) == xs
    decreases |xs|
  {
    if |xs| > 0 {
      var front := xs[..|xs| - 1];
      DedupOfDistinct(front);
      assert xs[|xs| - 1] !in front;
      assert front + [xs[|xs| - 1]] == xs;
    }
  }

  /** `filter_duplicates` is idempotent. */
  lemma DedupIdempotent<T>(xs: seq<T>)
    ensures Dedup(Dedup(xs)) == Dedup(xs)
  {
    DedupNoDuplicates(xs);
    DedupOfDistinct(Dedup(xs));
  }

  /** The first index of an element of a prefix is the same in the whole list. */
  lemma IndexOfPrefix<T>(xs: seq<T>, m: nat, x: T)
    requires m <= |xs| && x in xs[..m]
    ensures IndexOf(xs, x) == IndexOf(xs[..m], x)
    decreases m
  {
    var k := IndexOf(xs[..m], x).value;
    assert xs[..m][..k] == xs[..k];
    assert xs[k] == x && x !in xs[..k];
    IndexOfIs(xs, x, k);
  }

  lemma {:induction false} IndexOfIs<T>(xs: seq<T>, x: T, k: nat)
    requires k < |xs| && xs[k] == x && x !in xs[..k]
    ensures IndexOf(xs, x) == Ok(k)
    decreases k
  {
    if k > 0 {
      assert xs[1..][..k - 1] == xs[..k][1..];
      IndexOfIs(xs[1..], x, k - 1);
    }
  }

  /** The elements of `r` are elements of `xs`, listed in the order of their first index in `xs`. */
  predicate InFirstOrder<T(==)>(xs: seq<T>, r: seq<T>)
  {
    && (forall x :: x in r ==> x in xs)
    && forall i, j :: 0 <= i < j < |r| ==> IndexOf(xs, r[i]).value < IndexOf(xs, r[j]).value
  }

  /** What is in first order in a prefix stays so in the whole list. */
  lemma FirstOrderPrefix<T>(xs: seq<T>, n: nat, r: seq<T>)
    requires n <= |xs| && InFirstOrder(xs[..n], r)
    ensures InFirstOrder(xs, r)
  {
    forall x | x in r ensures IndexOf(xs, x) == IndexOf(xs[..n], x) {
      IndexOfPrefix(xs, n, x);
    }
  }

  /** An element not met before comes after all those met before. */
  lemma FirstOrderAppend<T>(xs: seq<T>, r: seq<T>)
    requires |xs| > 0 && InFirstOrder(xs[..|xs| - 1], r) && xs[|xs| - 1] !in xs[..|xs| - 1]
    ensures InFirstOrder(xs, r + [xs[|xs| - 1]])
  {
    var n := |xs| - 1;
    FirstOrderPrefix(xs, n, r);
    IndexOfIs(xs, xs[n], n);
    var r2 := r + [xs[n]];
    forall i, j | 0 <= i < j < |r2| ensures IndexOf(xs, r2[i]).value < IndexOf(xs, r2[j]).value {
      assert r2[i] == r[i];
      if j < |r| {
        assert r2[j] == r[j];
      } else {
        IndexOfPrefix(xs, n, r[i]);
      }
    }
  }

  /** The kept elements come in the order of their first occurrence. */
  lemma {:induction false} DedupOrder<T>(xs: seq<T>)
    ensures InFirstOrder(xs, Dedup(xs))
    decreases |xs|
  {
    if |xs| > 0 {
      var n := |xs| - 1;
      var front := xs[..n];
      DedupOrder(front);
      DedupElements(front);
      if xs[n] in Dedup(front) {
        FirstOrderPrefix(xs, n, Dedup(front));
      } else {
        FirstOrderAppend(xs, Dedup(front));
      }
    }
  }

  /** `filter_duplicates`: the loop appending each element not yet in `new_list`. */
  method FilterDuplicates<T(==)>(labels: seq<T>) returns (newList: seq<T>)
    ensures newList == Dedup(labels)
  {
    newList := [];
    for i := 0 to |labels|
      invariant newList == Dedup(labels[..i])
    {
      assert labels[..i + 1][..i] == labels[..i];
      if labels[i] !in newList {
        newList := newList + [labels[i]];
      }
    }
    assert labels[..|labels|] == labels;
  }

  /** The inner loop of `get_labels`: the non-empty labels of a line appended in order. */
  method AppendLabels(cited: seq<string>, lineLabels: seq<string>) returns (r: seq<string>)
    ensures r == cited + NonEmpty(lineLabels)
  {
    r := cited;
    for j := 0 to |lineLabels|
      invariant r == cited + NonEmpty(lineLabels[..j])
    {
      assert lineLabels[..j + 1][..j] == lineLabels[..j];
      if lineLabels[j] != "" {
        r := r + [lineLabels[j]];
      }
    }
    assert lineLabels[..|lineLabels|] == lineLabels;
  }

  /** `get_labels` from the text of the aux file, or `None` when the file does not exist. */
  method GetLabels(aux: Option<string>) returns (labels: seq<string>)
    ensures aux.None? ==> labels == []
    ensures aux.Some? ==> labels == Dedup(CitedLabels(SplitLines(aux.value)))
  {
    if aux.None? {
      return [];
    }
    var lines := SplitLines(aux.value);
    var cited: seq<string> := [];
    for i := 0 to |lines|
      invariant cited == CitedLabels(lines[..i])
    {
      CitedLabelsStep(lines, i);
      var line := lines[i];
      if !IsCitationLine(line) {
        continue;
      }
      cited := AppendLabels(cited, LineToLabels(line));
    }
    assert lines[..|lines|] == lines;
    labels := FilterDuplicates(cited);
  }

  /** What `get_labels` returns: each cited label once, non-empty, in order of first citation. */
  lemma GetLabelsSpec(lines: seq<string>, x: string)
    ensures NoDuplicates(Dedup(CitedLabels(lines)))
    ensures x in Dedup(CitedLabels(lines)) <==>
      x != "" && exists k :: 0 <= k < |lines| && IsCitationLine(lines[k]) && x in LineToLabels(lines[k])
  {
    DedupNoDuplicates(CitedLabels(lines));
    DedupElements(CitedLabels(lines));
    CitedLabelsIn(lines, x);
    forall k | 0 <= k < |lines| ensures x in LabelsOfLine(lines[k]) <==> x != "" && IsCitationLine(lines[k]) && x in LineToLabels(lines[k]) {
      LabelsOfLineIn(lines[k], x);
    }
  }

  // ---------------------------------------------------------------------
  // The JSON bibliography

  /** One author of a JSON entry; a missing `given` or `family` key reads as "". */
  datatype Author = Author(given: Option<string>, family: Option<string>)

  /** One entry of the JSON bibliography: its `id` and the optional keys the renderer reads. */
  datatype BibJson = BibJson(id: string, author: Option<seq<Author>>, title: Option<string>,
                             date: Option<string>, url: Option<string>, note: Option<string>)

  /** The first entry whose `id` is the label. */
  function Lookup(jsonBib: seq<BibJson>, key: string): Option<BibJson>
    decreases |jsonBib|
  {
    if |jsonBib| == 0 then None
    else if jsonBib[0].id == key then Some(jsonBib[0])
    else Lookup(jsonBib[1..], key)
  }

  /** The lookup finds the first entry with the label, and finds nothing only when no entry has it. */
  lemma {:induction false} LookupSpec(jsonBib: seq<BibJson>, key: string)
    ensures Lookup(jsonBib, key).None? <==> forall k :: 0 <= k < |jsonBib| ==> jsonBib[k].id != key
    ensures Lookup(jsonBib, key).Some? ==>
      exists k :: (0 <= k < |jsonBib| && jsonBib[k] == Lookup(jsonBib, key).value
        && jsonBib[k].id == key && forall m :: 0 <= m < k ==> jsonBib[m].id != key)
    decreases |jsonBib|
  {
    if |jsonBib| > 0 && jsonBib[0].id != key {
      LookupSpec(jsonBib[1..], key);
      if Lookup(jsonBib[1..], key).Some? {
        var k :| 0 <= k < |jsonBib| - 1 && jsonBib[1..][k] == Lookup(jsonBib[1..], key).value
          && jsonBib[1..][k].id == key && forall m :: 0 <= m < k ==> jsonBib[1..][m].id != key;
        assert jsonBib[k + 1] == jsonBib[1..][k];
        forall m | 0 <= m < k + 1 ensures jsonBib[m].id != key {
          if m > 0 {
            assert jsonBib[m] == jsonBib[1..][m - 1];
          }
        }
      } else {
        forall k | 0 <= k < |jsonBib| ensures jsonBib[k].id != key {
          if k > 0 {
            assert jsonBib[k] == jsonBib[1..][k - 1];
          }
        }
      }
    }
  }

  /** `get_json`: the loop returning the first entry with the label, `None` when it falls through. */
  method GetJson(jsonBib: seq<BibJson>, key: string) returns (r: Option<BibJson>)
    ensures r == Lookup(jsonBib, key)
  {
    for i := 0 to |jsonBib|
      invariant Lookup(jsonBib, key) == Lookup(jsonBib[i..], key)
    {
      if jsonBib[i].id == key {
        return Some(jsonBib[i]);
      }
      assert jsonBib[i..][1..] == jsonBib[i + 1..];
    }
    return None;
  }

  // ---------------------------------------------------------------------
  // get_bibtex_lines

  /** The first index at or after `from` whose line satisfies `StartsWith(_, "@")`, or |lines|. */
  function EntryEnd(lines: seq<string>, from: nat): (e: nat)
    requires from <= |lines|
    ensures from <= e <= |lines|
    ensures forall k :: from <= k < e ==> !StartsWith(lines[k], "@")
    ensures e < |lines| ==> StartsWith(lines[e], "@")
    decreases |lines| - from
  {
    if from == |lines| then from
    else if StartsWith(lines[from], "@") then from
    else EntryEnd(lines, from + 1)
  }

  /** The first line holding the label, or -1. */
  function FirstHolding(lines: seq<string>, key: string): (k: int)
    ensures -1 <= k < |lines|
    ensures k >= 0 ==> Contains(lines[k], key)
    ensures forall m :: 0 <= m < |lines| && (k == -1 || m < k) ==> !Contains(lines[m], key)
    decreases |lines|
  {
    if |lines| == 0 then -1
    else
      var k := FirstHolding(lines[..|lines| - 1], key);
      if k >= 0 then k
      else if Contains(lines[|lines| - 1], key) then |lines| - 1
      else -1
  }

  /**
   * What `get_bibtex_lines` returns: the lines strictly after the first line
   * holding the label, up to the next line starting with `@`; `None` when
   * no line holds the label.
   */
  function BibtexLinesOf(lines: seq<string>, key: string): Option<seq<string>>
  {
    var k := FirstHolding(lines, key);
    if k < 0 then None else Some(lines[k + 1..EntryEnd(lines, k + 1)])
  }

  /** `get_bibtex_lines`: the loop with its `found` flag. */
  method GetBibtexLines(bibtexLines: seq<string>, key: string) returns (r: Option<seq<string>>)
    ensures r == BibtexLinesOf(bibtexLines, key)
  {
    var found := false;
    var lines: seq<string> := [];
    ghost var first := -1;
    for i := 0 to |bibtexLines|
      invariant found <==> first >= 0
      invariant !found ==> lines == [] && forall m :: 0 <= m < i ==> !Contains(bibtexLines[m], key)
      invariant found ==> first == FirstHolding(bibtexLines, key) && first < i
      invariant found ==> lines == bibtexLines[first + 1..i] && forall m :: first < m < i ==> !StartsWith(bibtexLines[m], "@")
    {
      var line := bibtexLines[i];
      if found {
        if StartsWith(line, "@") {
          EntryEndIs(bibtexLines, first + 1, i);
          return Some(lines);
        }
        assert bibtexLines[first + 1..i + 1] == bibtexLines[first + 1..i] + [line];
        lines := lines + [line];
      }
      if !Contains(line, key) {
        continue;
      }
      if !found {
        FirstHoldingIs(bibtexLines, key, i);
        first := i;
      }
      found := true;
    }
    if found {
      EntryEndIs(bibtexLines, first + 1, |bibtexLines|);
      return Some(lines);
    }
    FirstHoldingNone(bibtexLines, key);
    return None;
  }

  lemma {:induction false} EntryEndIs(lines: seq<string>, from: nat, e: nat)
    requires from <= e <= |lines|
    requires forall k :: from <= k < e ==> !StartsWith(lines[k], "@")
    requires e < |lines| ==> StartsWith(lines[e], "@")
    ensures EntryEnd(lines, from) == e
    decreases e - from
  {
    if from < e {
      EntryEndIs(lines, from + 1, e);
    }
  }

  lemma FirstHoldingIs(lines: seq<string>, key: string, i: nat)
    requires i < |lines| && Contains(lines[i], key)
    requires forall m :: 0 <= m < i ==> !Contains(lines[m], key)
    ensures FirstHolding(lines, key) == i
  {
  }

  lemma FirstHoldingNone(lines: seq<string>, key: string)
    requires forall m :: 0 <= m < |lines| ==> !Contains(lines[m], key)
    ensures FirstHolding(lines, key) == -1
  {
  }

  // ---------------------------------------------------------------------
  // Rendering one entry

  /** Python's truth value of an optional string: present and non-empty. */
  predicate Truthy(o: Option<string>)
  {
    o.Some? && o.value != ""
  }

  /** A value read with `.get(key, '')`. */
  function OrEmpty(o: Option<string>): string
  {
    if o.Some? then o.value else ""
  }

  /** `get_elem_bibitem`: `\bibitem[num]{label}`. */
  function ElemBibitem(elem: BibJson, num: nat): string
  {
    "\\bibitem[" + DecimalString(num) + "]{" + elem.id + "}"
  }

  function AuthorName(a: Author): string
  {
    OrEmpty(a.given) + " " + OrEmpty(a.family)
  }

  function AuthorNames(authors: seq<Author>): (r: seq<string>)
    ensures |r| == |authors|
    ensures forall k :: 0 <= k < |r| ==> r[k] == AuthorName(authors[k])
  {
    seq(|authors|, k requires 0 <= k < |authors| => AuthorName(authors[k]))
  }

  /** `get_elem_author`: `None` without an `author` key, else the names joined by " and ", and a full stop. */
  function ElemAuthor(elem: BibJson): Option<string>
  {
    if elem.author.None? then None
    else Some(Join(AuthorNames(elem.author.value), " and ") + ".")
  }

  /** The `\newblock` lines for the truthy title, date, url and note, in that order. */
  function Newblocks(elem: BibJson): seq<string>
  {
    (if Truthy(elem.title) then ["\\newblock " + elem.title.value] else [])
    + (if Truthy(elem.date) then ["\\newblock " + elem.date.value + "."] else [])
    + (if Truthy(elem.url) then ["\\newblock URL \\url{" + elem.url.value + "}."] else [])
    + (if Truthy(elem.note) then ["\\newblock " + elem.note.value] else [])
  }

  /** The lines of a `.bbl` block: `list_ans` with the `None` author dropped. */
  function BblLines(elem: BibJson, num: nat): (r: seq<string>)
    ensures |r| >= 1 && r[0] == ElemBibitem(elem, num)
  {
    [ElemBibitem(elem, num)] + (if elem.author.Some? then [ElemAuthor(elem).value] else []) + Newblocks(elem)
  }

  /** The shape of a block: bibitem line, author line exactly when there is an author key, one line per truthy field. */
  lemma BblLinesShape(elem: BibJson, num: nat)
    ensures var r := BblLines(elem, num);
      && |r| == 1 + (if elem.author.Some? then 1 else 0) + |Newblocks(elem)|
      && (elem.author.Some? ==> r[1] == Join(AuthorNames(elem.author.value), " and ") + ".")
      && |Newblocks(elem)| == (if Truthy(elem.title) then 1 else 0) + (if Truthy(elem.date) then 1 else 0)
           + (if Truthy(elem.url) then 1 else 0) + (if Truthy(elem.note) then 1 else 0)
  {
  }

  /** The two dotless-i sequences `utf_substitution` replaces by `i`. */
  const DotlessBreve: string := "ı̆"
  const DotlessAcute: string := "ı́"

  /** `utf_substitution`. */
  function UtfSubstitution(text: string): string
  {
    Replace(Replace(text, DotlessBreve, "i"), DotlessAcute, "i")
  }

  /** Text without a dotless i passes `utf_substitution` unchanged. */
  lemma UtfSubstitutionPlain(text: string)
    requires Free(text, 'ı')
    ensures UtfSubstitution(text) == text
  {
    FreeNotContains(text, DotlessBreve);
    ReplaceAbsent(text, DotlessBreve, "i");
    FreeNotContains(text, DotlessAcute);
    ReplaceAbsent(text, DotlessAcute, "i");
  }

  /** The breve sequence alone becomes `i`. */
  lemma UtfSubstitutionBreve()
    ensures UtfSubstitution(DotlessBreve) == "i"
  {
    assert Find(DotlessBreve, DotlessBreve) == 0;
    assert DotlessBreve[2..] == "";
    assert Split(DotlessBreve, DotlessBreve) == ["", ""];
    assert Join(["", ""], "i") == "i";
    ReplaceAbsent("i", DotlessAcute, "i");
  }

  /** `json_to_bbl_elem`: "" for a missing entry, else the block lines joined by newlines. */
  function JsonToBblElem(elem: Option<BibJson>, num: nat): string
  {
    if elem.None? then "" else UtfSubstitution(Join(BblLines(elem.value, num), "\n"))
  }

  /** Every string an entry holds. */
  function EntryTexts(elem: BibJson): seq<string>
  {
    [elem.id, OrEmpty(elem.title), OrEmpty(elem.date), OrEmpty(elem.url), OrEmpty(elem.note)]
    + (if elem.author.Some? then AuthorNames(elem.author.value) else [])
  }

  /** The two characters a rendered block is checked against: the line break and the dotless i. */
  predicate Watched(c: char)
  {
    c == '\n' || c == 'ı'
  }

  lemma FreeConcat(a: string, b: string, c: char)
    requires Free(a, c) && Free(b, c)
    ensures Free(a + b, c)
  {
    assert forall k :: 0 <= k < |a + b| ==> (a + b)[k] == if k < |a| then a[k] else b[k - |a|];
  }

  lemma ElemBibitemFree(elem: BibJson, num: nat, c: char)
    requires Watched(c) && Free(elem.id, c)
    ensures Free(ElemBibitem(elem, num), c)
  {
    var digits := DecimalString(num);
    assert Free(digits, c);
    FreeConcat("\\bibitem[", digits, c);
    FreeConcat("\\bibitem[" + digits, "]{", c);
    FreeConcat("\\bibitem[" + digits + "]{", elem.id, c);
    FreeConcat("\\bibitem[" + digits + "]{" + elem.id, "}", c);
  }

  lemma NewblocksFree(elem: BibJson, c: char)
    requires Watched(c)
    requires Free(OrEmpty(elem.title), c) && Free(OrEmpty(elem.date), c) && Free(OrEmpty(elem.url), c) && Free(OrEmpty(elem.note), c)
    ensures forall k :: 0 <= k < |Newblocks(elem)| ==> Free(Newblocks(elem)[k], c)
  {
    var nb := "\\newblock ";
    var t := if Truthy(elem.title) then [nb + elem.title.value] else [];
    var d := if Truthy(elem.date) then [nb + elem.date.value + "."] else [];
    var u := if Truthy(elem.url) then ["\\newblock URL \\url{" + elem.url.value + "}."] else [];
    var n := if Truthy(elem.note) then [nb + elem.note.value] else [];
    if Truthy(elem.title) {
      FreeConcat(nb, elem.title.value, c);
    }
    if Truthy(elem.date) {
      FreeConcat(nb, elem.date.value, c);
      FreeConcat(nb + elem.date.value, ".", c);
    }
    if Truthy(elem.url) {
      FreeConcat("\\newblock URL \\url{", elem.url.value, c);
      FreeConcat("\\newblock URL \\url{" + elem.url.value, "}.", c);
    }
    if Truthy(elem.note) {
      FreeConcat(nb, elem.note.value, c);
    }
    assert Newblocks(elem) == t + d + u + n;
  }

  lemma BblLinesFree(elem: BibJson, num: nat, c: char)
    requires Watched(c)
    requires forall k :: 0 <= k < |EntryTexts(elem)| ==> Free(EntryTexts(elem)[k], c)
    ensures forall k :: 0 <= k < |BblLines(elem, num)| ==> Free(BblLines(elem, num)[k], c)
  {
    var texts := EntryTexts(elem);
    assert Free(texts[0], c) && Free(texts[1], c) && Free(texts[2], c) && Free(texts[3], c) && Free(texts[4], c);
    ElemBibitemFree(elem, num, c);
    NewblocksFree(elem, c);
    var authorLine: seq<string> := [];
    if elem.author.Some? {
      var names := AuthorNames(elem.author.value);
      forall k | 0 <= k < |names| ensures Free(names[k], c) {
        assert names[k] == texts[5 + k];
      }
      JoinFree(names, " and ", c);
      FreeConcat(Join(names, " and "), ".", c);
      authorLine := [ElemAuthor(elem).value];
    }
    assert BblLines(elem, num) == [ElemBibitem(elem, num)] + authorLine + Newblocks(elem);
  }

  /**
   * An entry whose texts hold no newline and no dotless i renders as its
   * lines: the block cut at newlines gives back the bibitem line, the
   * author line and the `\newblock` lines.
   */
  lemma JsonToBblElemLines(elem: BibJson, num: nat)
    requires forall k :: 0 <= k < |EntryTexts(elem)| ==> Free(EntryTexts(elem)[k], '\n') && Free(EntryTexts(elem)[k], 'ı')
    ensures Split(JsonToBblElem(Some(elem), num), "\n") == BblLines(elem, num)
    ensures Split(JsonToBblElem(Some(elem), num), "\n")[0] == ElemBibitem(elem, num)
  {
    var lines := BblLines(elem, num);
    BblLinesFree(elem, num, '\n');
    BblLinesFree(elem, num, 'ı');
    JoinFree(lines, "\n", 'ı');
    UtfSubstitutionPlain(Join(lines, "\n"));
    SplitJoin(lines, '\n');
  }

  // ---------------------------------------------------------------------
  // get_bbl_code

  const BblMark: string := "**BBL_CODE**"

  /** The blocks of `get_bbl_code` for the labels, in order. */
  function BblBlocks(labels: seq<string>, jsonBib: seq<BibJson>): (r: seq<string>)
    ensures |r| == |labels|
    decreases |labels|
  {
    if |labels| == 0 then []
    else
      var n := |labels| - 1;
      BblBlocks(labels[..n], jsonBib) + [JsonToBblElem(Lookup(jsonBib, labels[n]), n + 1)]
  }

  /** Block k is the entry of the k-th label, numbered k + 1. */
  lemma {:induction false} BblBlocksNumbered(labels: seq<string>, jsonBib: seq<BibJson>, k: nat)
    requires k < |labels|
    ensures BblBlocks(labels, jsonBib)[k] == JsonToBblElem(Lookup(jsonBib, labels[k]), k + 1)
    decreases |labels|
  {
    var n := |labels| - 1;
    var pre := BblBlocks(labels[..n], jsonBib);
    var last := JsonToBblElem(Lookup(jsonBib, labels[n]), n + 1);
    assert BblBlocks(labels, jsonBib) == pre + [last];
    if k < n {
      BblBlocksNumbered(labels[..n], jsonBib, k);
      assert labels[..n][k] == labels[k];
      assert pre[k] == JsonToBblElem(Lookup(jsonBib, labels[k]), k + 1);
      assert (pre + [last])[k] == pre[k];
    } else {
      assert last == JsonToBblElem(Lookup(jsonBib, labels[k]), k + 1);
      assert (pre + [last])[k] == last;
    }
  }

  /**
   * `get_bbl_code` with the aux file's text (`None` when it does not exist)
   * and the template's text as inputs.
   */
  method GetBblCode(aux: Option<string>, jsonBib: seq<BibJson>, template: string) returns (r: string)
    ensures aux.None? ==> r == Replace(template, BblMark, "")
    ensures aux.Some? ==> r == Replace(template, BblMark, Join(BblBlocks(Dedup(CitedLabels(SplitLines(aux.value))), jsonBib), "\n\n"))
  {
    var labels := GetLabels(aux);
    var bblList: seq<string> := [];
    var num := 0;
    for i := 0 to |labels|
      invariant num == i && bblList == BblBlocks(labels[..i], jsonBib)
    {
      num := num + 1;
      var elem := GetJson(jsonBib, labels[i]);
      var block := JsonToBblElem(elem, num);
      assert labels[..i + 1][..i] == labels[..i];
      bblList := bblList + [block];
    }
    assert labels[..|labels|] == labels;
    var mainCode := Join(bblList, "\n\n");
    r := Replace(template, BblMark, mainCode);
  }

  /** A template with one mark gets the code in its place and nothing else changes. */
  lemma ReplaceMarkOnce(before: string, after: string, code: string)
    requires Find(before + BblMark + after, BblMark) == |before|
    requires !Contains(after, BblMark)
    ensures Replace(before + BblMark + after, BblMark, code) == before + code + after
  {
    var t := before + BblMark + after;
    var i := |before|;
    assert t[..i] == before;
    assert t[i + |BblMark|..] == after;
    assert Split(t, BblMark) == [before] + Split(after, BblMark);
    assert Split(after, BblMark) == [after];
    JoinCons(before, [after], code);
  }
}
