/**
 * What the three LaTeX log readers (src/log_code.py, src/LogCode.py and
 * LogCode.py) share: the warning records of src/Warnings.py, the parse of one
 * `"Warning: "` chunk of the log, the accumulation of undefined references,
 * undefined citations and multiply-defined labels, the overfull-hbox line
 * scanner, the keep-the-first-per-label filter and the closing summary.
 */
module LogWarnings {
  import opened PyStr
  import CommentStripper
  import CreateBbl

  /** The page of a warning: the word after "page", or the -1 that stands for none. */
  datatype Page = NoPage | PageWord(word: string)

  /** Label and page of a LaTeX warning. */
  datatype Entry = Entry(name: string, page: Page)

  /** One warning of the log, after the classes of src/Warnings.py. */
  datatype Warning =
    | Reference(entry: Entry)
    | Citation(entry: Entry)
    | MultiplyLabel(entry: Entry)
    | RerunNotice(text: string)
    | Overfull(text: string)
    | CapacityExceeded(text: string)

  const WarningMark: string := "Warning: "
  const MaybeMore: string := "LaTeX Warning: Label(s) may have changed. Rerun to get cross-references right."
  const CapacityMark: string := "TeX capacity exceeded"
  const OverfullMark: string := "Overfull"

  /**
   * `warn.label`: a LaTeX warning answers its label, an overfull warning
   * answers None, and the rerun notice and the capacity warning have no such
   * attribute.
   */
  function LabelAttr(w: Warning): (r: Result<Option<string>>)
    ensures r.Err? <==> w.RerunNotice? || w.CapacityExceeded?
    ensures r.Ok? && r.value.None? <==> w.Overfull?
  {
    match w
    case Reference(e) => Ok(Some(e.name))
    case Citation(e) => Ok(Some(e.name))
    case MultiplyLabel(e) => Ok(Some(e.name))
    case Overfull(_) => Ok(None)
    case _ => Err(AttributeError)
  }

  // ---------------------------------------------------------------------
  // One chunk of the log

  /** The chunks the log is cut into, the text before the first mark left out. */
  function Chunks(text: string): seq<string>
  {
    Split(text, WarningMark)[1..]
  }

  /** The words of a chunk: the text before its first ".", split on blanks. */
  function Words(chunk: string): seq<string>
  {
    Split(Slice(chunk, 0, Find(chunk, ".")), " ")
  }

  /**
   * How the parse of one chunk ends: a genre and an entry, an IndexError for
   * a missing second word, or an IndexError for a "page" that is the last
   * word.
   */
  datatype ChunkOutcome = Parsed(genre: string, entry: Entry) | NoSecondWord | PageLast

  function ParseChunk(chunk: string): ChunkOutcome
  {
    var mots := Words(chunk);
    if |mots| < 2 then NoSecondWord
    else
      var name := Slice(mots[1], 1, -1);
      match IndexOf(mots, "page")
      case Err(_) => Parsed(mots[0], Entry(name, NoPage))
      case Ok(k) => if k + 1 < |mots| then Parsed(mots[0], Entry(name, PageWord(mots[k + 1]))) else PageLast
  }

  /**
   * The words are the chunk cut at its first "."; a chunk with no "." loses
   * its last character instead, since `find` answers -1.
   */
  lemma WordsRejoin(chunk: string)
    ensures Contains(chunk, ".") ==> Join(Words(chunk), " ") == chunk[..Find(chunk, ".")]
    ensures !Contains(chunk, ".") && |chunk| > 0 ==> Join(Words(chunk), " ") == chunk[..|chunk| - 1]
  {
    JoinSplit(Slice(chunk, 0, Find(chunk, ".")), " ");
  }

  /**
   * The genre is the first word, the label the second word without its
   * first and last characters, the page the word after the first "page";
   * the parse fails exactly when there is no second word or when the first
   * "page" is the last word.
   */
  lemma ParseChunkSpec(chunk: string)
    ensures ParseChunk(chunk).NoSecondWord? <==> |Words(chunk)| < 2
    ensures ParseChunk(chunk).PageLast? <==>
      |Words(chunk)| >= 2 && "page" in Words(chunk) && "page" !in Words(chunk)[..|Words(chunk)| - 1]
    ensures ParseChunk(chunk).Parsed? ==>
      var mots := Words(chunk);
      var r := ParseChunk(chunk);
      r.genre == mots[0]
      && (|mots[1]| >= 2 ==> r.entry.name == mots[1][1..|mots[1]| - 1])
      && (|mots[1]| < 2 ==> r.entry.name == "")
      && (r.entry.page.NoPage? <==> "page" !in mots)
      && (r.entry.page.PageWord? ==>
            exists k :: 0 <= k < |mots| - 1 && mots[k] == "page" && "page" !in mots[..k]
                        && r.entry.page.word == mots[k + 1])
  {
    var mots := Words(chunk);
    if |mots| >= 2 {
      var i := IndexOf(mots, "page");
      if i.Ok? {
        var k := i.value;
        if k + 1 < |mots| {
          assert mots[..|mots| - 1][k] == "page";
        } else {
          assert mots[..|mots| - 1] == mots[..k];
        }
      }
    }
  }

  // ---------------------------------------------------------------------
  // Accumulating the warnings of the chunks

  /** The three lists the readers fill: undefined references, undefined citations, multiply-defined labels. */
  datatype Lists = Lists(references: seq<Entry>, citations: seq<Entry>, multiply: seq<Entry>)

  const NoLists: Lists := Lists([], [], [])

  function Labels(es: seq<Entry>): (r: seq<string>)
    ensures |r| == |es|
    ensures forall i :: 0 <= i < |es| ==> r[i] == es[i].name
  {
    seq(|es|, i requires 0 <= i < |es| => es[i].name)
  }

  lemma LabelsAppend(es: seq<Entry>, e: Entry)
    ensures Labels(es + [e]) == Labels(es) + [e.name]
  {
    assert Labels(es + [e]) == Labels(es) + [e.name];
  }

  /**
   * The list a genre lands in: references, citations, or the
   * multiply-defined labels for every other genre.
   */
  function ListOf(l: Lists, genre: string): seq<Entry>
  {
    if genre == "Reference" then l.references
    else if genre == "Citation" then l.citations
    else l.multiply
  }

  /**
   * One parsed chunk added to the lists: a reference or a citation only
   * when its label is not listed yet, a multiply-defined label when its
   * label is not among `undefinedLabels`.
   */
  function Absorb(l: Lists, genre: string, e: Entry, undefinedLabels: seq<Entry>): Lists
  {
    Lists(
      if genre == "Reference" && e.name !in Labels(l.references) then l.references + [e] else l.references,
      if genre == "Citation" && e.name !in Labels(l.citations) then l.citations + [e] else l.citations,
      if genre == "Label" && e.name !in Labels(undefinedLabels) then l.multiply + [e] else l.multiply)
  }

  /** The lists after the chunks, each parsed chunk absorbed in turn and the others passed over. */
  function Collect(l: Lists, chunks: seq<string>, undefinedLabels: seq<Entry>): Lists
    decreases |chunks|
  {
    if |chunks| == 0 then l
    else
      var m := Collect(l, chunks[..|chunks| - 1], undefinedLabels);
      match ParseChunk(chunks[|chunks| - 1])
      case Parsed(genre, e) => Absorb(m, genre, e, undefinedLabels)
      case _ => m
  }

  /** The lists after one more chunk. */
  lemma CollectStep(l: Lists, chunks: seq<string>, i: nat, u: seq<Entry>)
    requires i < |chunks|
    ensures ParseChunk(chunks[i]).Parsed? ==>
      Collect(l, chunks[..i + 1], u)
      == Absorb(Collect(l, chunks[..i], u), ParseChunk(chunks[i]).genre, ParseChunk(chunks[i]).entry, u)
    ensures !ParseChunk(chunks[i]).Parsed? ==> Collect(l, chunks[..i + 1], u) == Collect(l, chunks[..i], u)
  {
    assert chunks[..i + 1][..i] == chunks[..i];
  }

  /** The chunk announces a warning of this genre for this label. */
  predicate Announces(chunk: string, genre: string, x: string)
  {
    ParseChunk(chunk).Parsed? && ParseChunk(chunk).genre == genre && ParseChunk(chunk).entry.name == x
  }

  /** The entries of the multiply-defined-label chunks, in order. */
  function LabelEntries(chunks: seq<string>): seq<Entry>
    decreases |chunks|
  {
    if |chunks| == 0 then []
    else
      var front := LabelEntries(chunks[..|chunks| - 1]);
      var o := ParseChunk(chunks[|chunks| - 1]);
      if o.Parsed? && o.genre == "Label" then front + [o.entry] else front
  }

  /** The two parser generations disagree on a chunk whose first "page" is its last word. */
  datatype Generation = Current | Early

  /**
   * The chunk raises out of `search_for_errors`: always for a missing
   * second word; for a last-word "page" only in the early generation, the
   * current one passing over that chunk.
   */
  predicate Raises(gen: Generation, chunk: string)
  {
    ParseChunk(chunk).NoSecondWord? || (ParseChunk(chunk).PageLast? && gen == Early)
  }

  /** No chunk of the list raises. */
  predicate NoneRaise(gen: Generation, chunks: seq<string>)
  {
    forall k :: 0 <= k < |chunks| ==> !Raises(gen, chunks[k])
  }

  /** Where the chunk loop stops: at the first chunk that raises, or after the last chunk. */
  function FirstRaise(gen: Generation, chunks: seq<string>): (n: nat)
    ensures n <= |chunks|
    decreases |chunks|
  {
    if |chunks| == 0 then 0
    else if Raises(gen, chunks[0]) then 0
    else 1 + FirstRaise(gen, chunks[1..])
  }

  /**
   * No chunk before the stop raises, the chunk at the stop does, and the
   * loop runs through every chunk exactly when none raises.
   */
  lemma FirstRaiseSpec(gen: Generation, chunks: seq<string>)
    ensures NoneRaise(gen, chunks[..FirstRaise(gen, chunks)])
    ensures FirstRaise(gen, chunks) < |chunks| ==> Raises(gen, chunks[FirstRaise(gen, chunks)])
    ensures NoneRaise(gen, chunks) <==> FirstRaise(gen, chunks) == |chunks|
  {
    var n := FirstRaise(gen, chunks);
    forall k | 0 <= k < n
      ensures !Raises(gen, chunks[..n][k])
    {
      FirstRaiseAt(gen, chunks, k);
    }
    if n < |chunks| {
      FirstRaiseAt(gen, chunks, n);
    } else {
      assert chunks[..n] == chunks;
    }
  }

  /** At a chunk the loop reaches, the chunk raises exactly when the loop stops there. */
  lemma {:induction false} FirstRaiseAt(gen: Generation, chunks: seq<string>, i: nat)
    requires i < |chunks| && i <= FirstRaise(gen, chunks)
    ensures Raises(gen, chunks[i]) <==> FirstRaise(gen, chunks) == i
    decreases i
  {
    if i > 0 {
      FirstRaiseAt(gen, chunks[1..], i - 1);
    }
  }

  /** References and citations never hold one label twice. */
  predicate Distinct(l: Lists)
  {
    CreateBbl.NoDuplicates(Labels(l.references)) && CreateBbl.NoDuplicates(Labels(l.citations))
  }

  lemma AbsorbDistinct(l: Lists, genre: string, e: Entry, u: seq<Entry>)
    requires Distinct(l)
    ensures Distinct(Absorb(l, genre, e, u))
  {
    LabelsAppend(l.references, e);
    LabelsAppend(l.citations, e);
  }

  /** Deduplication of references and citations by label survives any number of chunks. */
  lemma {:induction false} CollectDistinct(l: Lists, chunks: seq<string>, u: seq<Entry>)
    requires Distinct(l)
    ensures Distinct(Collect(l, chunks, u))
    decreases |chunks|
  {
    if |chunks| > 0 {
      var m := Collect(l, chunks[..|chunks| - 1], u);
      CollectDistinct(l, chunks[..|chunks| - 1], u);
      var o := ParseChunk(chunks[|chunks| - 1]);
      if o.Parsed? {
        AbsorbDistinct(m, o.genre, o.entry, u);
      }
    }
  }

  /** Some chunk announces a warning of this genre for this label. */
  predicate AnnouncedIn(chunks: seq<string>, genre: string, x: string)
    decreases |chunks|
  {
    |chunks| > 0 && (AnnouncedIn(chunks[..|chunks| - 1], genre, x) || Announces(chunks[|chunks| - 1], genre, x))
  }

  /** Absorbing one chunk adds its label to the list of its genre and to no other. */
  lemma AbsorbLabels(m: Lists, g: string, e: Entry, u: seq<Entry>, genre: string, x: string)
    requires genre == "Reference" || genre == "Citation"
    ensures x in Labels(ListOf(Absorb(m, g, e, u), genre)) <==>
      x in Labels(ListOf(m, genre)) || (g == genre && e.name == x)
  {
    LabelsAppend(ListOf(m, genre), e);
  }

  /**
   * A label is among the references (citations) after the chunks exactly
   * when it was before or some chunk announces it as a reference
   * (citation).
   */
  lemma {:induction false} CollectLabels(l: Lists, chunks: seq<string>, u: seq<Entry>, genre: string, x: string)
    requires genre == "Reference" || genre == "Citation"
    ensures x in Labels(ListOf(Collect(l, chunks, u), genre)) <==>
      x in Labels(ListOf(l, genre)) || AnnouncedIn(chunks, genre, x)
    decreases |chunks|
  {
    if |chunks| > 0 {
      var front := chunks[..|chunks| - 1];
      CollectLabels(l, front, u, genre, x);
      var o := ParseChunk(chunks[|chunks| - 1]);
      if o.Parsed? {
        AbsorbLabels(Collect(l, front, u), o.genre, o.entry, u, genre, x);
      }
    }
  }

  /**
   * With no undefined label recorded, every multiply-defined-label chunk
   * is kept, duplicates included.
   */
  lemma {:induction false} CollectMultiply(l: Lists, chunks: seq<string>)
    ensures Collect(l, chunks, []).multiply == l.multiply + LabelEntries(chunks)
    decreases |chunks|
  {
    if |chunks| > 0 {
      CollectMultiply(l, chunks[..|chunks| - 1]);
    }
  }

  /**
   * Chunks whose references and citations are all listed already leave
   * those two lists as they are.
   */
  lemma {:induction false} CollectSaturated(l: Lists, chunks: seq<string>, u: seq<Entry>)
    requires forall x :: AnnouncedIn(chunks, "Reference", x) ==> x in Labels(l.references)
    requires forall x :: AnnouncedIn(chunks, "Citation", x) ==> x in Labels(l.citations)
    ensures Collect(l, chunks, u).references == l.references
    ensures Collect(l, chunks, u).citations == l.citations
    decreases |chunks|
  {
    if |chunks| > 0 {
      var front := chunks[..|chunks| - 1];
      CollectSaturated(l, front, u);
      var o := ParseChunk(chunks[|chunks| - 1]);
      if o.Parsed? {
        assert Announces(chunks[|chunks| - 1], o.genre, o.entry.name);
      }
    }
  }

  /**
   * Parsing the same chunks a second time, as a repeated
   * `search_for_errors` does, leaves references and citations alone but
   * lists every multiply-defined label a second time.
   */
  lemma SecondPass(chunks: seq<string>)
    ensures Collect(Collect(NoLists, chunks, []), chunks, []).references == Collect(NoLists, chunks, []).references
    ensures Collect(Collect(NoLists, chunks, []), chunks, []).citations == Collect(NoLists, chunks, []).citations
    ensures Collect(Collect(NoLists, chunks, []), chunks, []).multiply == LabelEntries(chunks) + LabelEntries(chunks)
  {
    var once := Collect(NoLists, chunks, []);
    forall x | AnnouncedIn(chunks, "Reference", x) ensures x in Labels(once.references) {
      CollectLabels(NoLists, chunks, [], "Reference", x);
    }
    forall x | AnnouncedIn(chunks, "Citation", x) ensures x in Labels(once.citations) {
      CollectLabels(NoLists, chunks, [], "Citation", x);
    }
    CollectSaturated(once, chunks, []);
    CollectMultiply(NoLists, chunks);
    CollectMultiply(once, chunks);
  }

  /** The chunk LaTeX writes for a multiply-defined label. */
  function LabelChunk(x: string): string
  {
    "Label `" + x + "' multiply defined."
  }

  /** A chunk is cut at its first ".", whatever follows. */
  lemma WordsBeforeDot(t: string, rest: string)
    requires Free(t, '.')
    ensures Words(t + "." + rest) == Split(t, " ")
  {
    var chunk := t + "." + rest;
    assert chunk[..|t|] == t && chunk[|t|] == '.';
    FindChar(chunk, '.', |t|);
    assert "." == ['.'];
  }

  /** Four words free of blanks and dots, then a dot: the chunk's words are those four. */
  lemma FourWords(a: string, b: string, c: string, d: string)
    requires Free(a, ' ') && Free(b, ' ') && Free(c, ' ') && Free(d, ' ')
    requires Free(a, '.') && Free(b, '.') && Free(c, '.') && Free(d, '.')
    ensures Words(a + " " + b + " " + c + " " + d + ".") == [a, b, c, d]
  {
    var t := a + " " + b + " " + c + " " + d;
    assert Free(" ", '.');
    CreateBbl.FreeConcat(a, " ", '.');
    CreateBbl.FreeConcat(a + " ", b, '.');
    CreateBbl.FreeConcat(a + " " + b, " ", '.');
    CreateBbl.FreeConcat(a + " " + b + " ", c, '.');
    CreateBbl.FreeConcat(a + " " + b + " " + c, " ", '.');
    CreateBbl.FreeConcat(a + " " + b + " " + c + " ", d, '.');
    assert t + "." == t + "." + "";
    WordsBeforeDot(t, "");
    SplitFour(a, b, c, d);
  }

  lemma LabelChunkWords(x: string)
    requires Free(x, ' ') && Free(x, '.')
    ensures Words(LabelChunk(x)) == ["Label", "`" + x + "'", "multiply", "defined"]
  {
    var w := "`" + x + "'";
    assert Free(w, ' ') && Free(w, '.') by {
      CreateBbl.FreeConcat("`", x, ' ');
      CreateBbl.FreeConcat("`" + x, "'", ' ');
      CreateBbl.FreeConcat("`", x, '.');
      CreateBbl.FreeConcat("`" + x, "'", '.');
    }
    assert LabelChunk(x) == "Label" + " " + w + " " + "multiply" + " " + "defined" + ".";
    FourWords("Label", w, "multiply", "defined");
  }

  /**
   * A log with one multiply-defined label, "LaTeX Warning: Label `x'
   * multiply defined.", is one chunk announcing label x with no page.
   */
  lemma OneLabelLogParse(x: string, log: string)
    requires Free(x, ' ') && Free(x, '.') && Free(x, 'W')
    requires log == "LaTeX " + WarningMark + LabelChunk(x)
    ensures Chunks(log) == [LabelChunk(x)]
    ensures LabelEntries([LabelChunk(x)]) == [Entry(x, NoPage)]
  {
    OneLabelChunk(x, log);
    LabelChunkParse(x);
    assert [LabelChunk(x)][..0] == [];
  }

  /** The log is cut into the one chunk after its warning mark. */
  lemma OneLabelChunk(x: string, log: string)
    requires Free(x, 'W')
    requires log == "LaTeX " + WarningMark + LabelChunk(x)
    ensures Chunks(log) == [LabelChunk(x)]
  {
    var chunk := LabelChunk(x);
    assert Free(chunk, 'W') by {
      CreateBbl.FreeConcat("Label `", x, 'W');
      CreateBbl.FreeConcat("Label `" + x, "' multiply defined.", 'W');
    }
    assert Free("LaTeX ", 'W');
    SplitOnce("LaTeX ", WarningMark, chunk);
  }

  /** The chunk of a multiply-defined label parses as that label, with no page. */
  lemma LabelChunkParse(x: string)
    requires Free(x, ' ') && Free(x, '.')
    ensures ParseChunk(LabelChunk(x)) == Parsed("Label", Entry(x, NoPage))
  {
    LabelChunkWords(x);
    var w := "`" + x + "'";
    var parts := ["Label", w, "multiply", "defined"];
    assert "page" !in parts by {
      assert w[0] != 'p';
    }
    assert Slice(w, 1, -1) == x;
  }

  // ---------------------------------------------------------------------
  // The warning list

  function ReferenceWarnings(es: seq<Entry>): (r: seq<Warning>)
    ensures |r| == |es| && forall i :: 0 <= i < |es| ==> r[i] == Reference(es[i])
  {
    seq(|es|, i requires 0 <= i < |es| => Reference(es[i]))
  }

  function CitationWarnings(es: seq<Entry>): (r: seq<Warning>)
    ensures |r| == |es| && forall i :: 0 <= i < |es| ==> r[i] == Citation(es[i])
  {
    seq(|es|, i requires 0 <= i < |es| => Citation(es[i]))
  }

  function MultiplyWarnings(es: seq<Entry>): (r: seq<Warning>)
    ensures |r| == |es| && forall i :: 0 <= i < |es| ==> r[i] == MultiplyLabel(es[i])
  {
    seq(|es|, i requires 0 <= i < |es| => MultiplyLabel(es[i]))
  }

  /** The first part of `warnings`: references, then citations, then multiply-defined labels. */
  function ListWarnings(l: Lists): seq<Warning>
  {
    ReferenceWarnings(l.references) + CitationWarnings(l.citations) + MultiplyWarnings(l.multiply)
  }

  /** The rerun notice, present when the log holds the "may have changed" line. */
  function NoticeWarnings(text: string): seq<Warning>
  {
    if Contains(text, MaybeMore) then [RerunNotice(MaybeMore)] else []
  }

  /** The capacity warning, present when the log holds "TeX capacity exceeded". */
  function CapacityWarnings(text: string): seq<Warning>
  {
    if Contains(text, CapacityMark) then [CapacityExceeded(CapacityMark)] else []
  }

  /** Where a kind of warning sits in the list `search_for_errors` builds. */
  function Rank(w: Warning): nat
  {
    match w
    case Reference(_) => 0
    case Citation(_) => 1
    case MultiplyLabel(_) => 2
    case RerunNotice(_) => 3
    case Overfull(_) => 4
    case CapacityExceeded(_) => 5
  }

  predicate RankSorted(ws: seq<Warning>)
  {
    forall i, j :: 0 <= i < j < |ws| ==> Rank(ws[i]) <= Rank(ws[j])
  }

  /** All of `ws` ranked `r`. */
  predicate Ranked(ws: seq<Warning>, r: nat)
  {
    forall i :: 0 <= i < |ws| ==> Rank(ws[i]) == r
  }

  lemma RankedAppend(ws: seq<Warning>, block: seq<Warning>, r: nat)
    requires RankSorted(ws) && Ranked(block, r)
    requires forall i :: 0 <= i < |ws| ==> Rank(ws[i]) <= r
    ensures RankSorted(ws + block)
    ensures forall i :: 0 <= i < |ws + block| ==> Rank((ws + block)[i]) <= r
  {
  }

  /** Each block of the list holds one kind of warning. */
  lemma BlocksRanked(l: Lists, text: string, texts: seq<string>)
    ensures Ranked(ReferenceWarnings(l.references), 0) && Ranked(CitationWarnings(l.citations), 1)
    ensures Ranked(MultiplyWarnings(l.multiply), 2) && Ranked(NoticeWarnings(text), 3)
    ensures Ranked(OverfullWarnings(texts), 4) && Ranked(CapacityWarnings(text), 5)
  {
    OverfullWarningsSpec(texts);
  }

  /** Four blocks ranked 0 to 3, in order, make a sorted list. */
  lemma SortedBlocks(a: seq<Warning>, b: seq<Warning>, c: seq<Warning>, d: seq<Warning>)
    requires Ranked(a, 0) && Ranked(b, 1) && Ranked(c, 2) && Ranked(d, 3)
    ensures RankSorted(a + b + c + d)
    ensures forall i :: 0 <= i < |a + b + c + d| ==> Rank((a + b + c + d)[i]) <= 3
  {
    RankedAppend([], a, 0);
    assert [] + a == a;
    RankedAppend(a, b, 1);
    RankedAppend(a + b, c, 2);
    RankedAppend(a + b + c, d, 3);
  }

  /** Two more blocks ranked 4 and 5 keep a list ranked at most 3 sorted. */
  lemma SortedTail(ws: seq<Warning>, e: seq<Warning>, f: seq<Warning>)
    requires RankSorted(ws) && forall i :: 0 <= i < |ws| ==> Rank(ws[i]) <= 3
    requires Ranked(e, 4) && Ranked(f, 5)
    ensures RankSorted(ws + e + f)
  {
    RankedAppend(ws, e, 4);
    RankedAppend(ws + e, f, 5);
  }

  lemma AllLabelledConcat(a: seq<Warning>, b: seq<Warning>)
    ensures AllLabelled(a + b) <==> AllLabelled(a) && AllLabelled(b)
  {
    if AllLabelled(a + b) {
      forall i | 0 <= i < |a| ensures LabelAttr(a[i]).Ok? {
        assert (a + b)[i] == a[i];
      }
      forall i | 0 <= i < |b| ensures LabelAttr(b[i]).Ok? {
        assert (a + b)[|a| + i] == b[i];
      }
    }
  }

  /** Overfull warnings made from the texts the hbox scanner emits. */
  function OverfullWarnings(texts: seq<string>): seq<Warning>
    decreases |texts|
  {
    if |texts| == 0 then [] else OverfullWarnings(texts[..|texts| - 1]) + [Overfull(texts[|texts| - 1])]
  }

  lemma {:induction false} OverfullWarningsSpec(texts: seq<string>)
    ensures |OverfullWarnings(texts)| == |texts|
    ensures forall i :: 0 <= i < |texts| ==> OverfullWarnings(texts)[i] == Overfull(texts[i])
    decreases |texts|
  {
    if |texts| > 0 {
      OverfullWarningsSpec(texts[..|texts| - 1]);
    }
  }

  // ---------------------------------------------------------------------
  // check_overfull_hbox: a line scanner

  /** The scanner's variables between two lines. */
  datatype Hbox = Hbox(inOverfull: bool, inBbl: bool, overfullLines: seq<string>, fileLines: seq<string>)

  const HboxStart: Hbox := Hbox(false, false, [], [])

  /** The scanner state after one line, and the warning text the line completes, if any. */
  datatype HboxAfter = HboxAfter(next: Hbox, emitted: seq<string>)

  function HboxStep(st: Hbox, line: string): HboxAfter
  {
    var tex := Contains(line, ".tex");
    var bbl := Contains(line, ".bbl");
    var inBbl := if bbl then true else if tex then false else st.inBbl;
    var files := if tex || bbl then [line] else st.fileLines;
    var files' := if Contains(line, "[") || Contains(line, "]") then files + [line] else files;
    var inOverfull := st.inOverfull && !inBbl;
    var closes := inOverfull && CommentStripper.IsEmptyLine(line);
    var over := if inOverfull then st.overfullLines + [line] else st.overfullLines;
    var emitted := if closes then [Join(files', "\n") + Join(over, "\n")] else [];
    var over' := if closes then [] else over;
    var files'' := if closes then [] else files';
    var opens := Contains(line, OverfullMark) && !inBbl;
    HboxAfter(Hbox(if opens then true else inOverfull && !closes, inBbl,
                   if opens then over' + [line] else over', files''), emitted)
  }

  /** The state after the lines and the warning texts emitted along the way. */
  function HboxRun(lines: seq<string>): HboxAfter
    decreases |lines|
  {
    if |lines| == 0 then HboxAfter(HboxStart, [])
    else
      var before := HboxRun(lines[..|lines| - 1]);
      var step := HboxStep(before.next, lines[|lines| - 1]);
      HboxAfter(step.next, before.emitted + step.emitted)
  }

  /** The run over one more line. */
  lemma HboxRunStep(lines: seq<string>, i: nat)
    requires i < |lines|
    ensures HboxRun(lines[..i + 1]).next == HboxStep(HboxRun(lines[..i]).next, lines[i]).next
    ensures HboxRun(lines[..i + 1]).emitted
      == HboxRun(lines[..i]).emitted + HboxStep(HboxRun(lines[..i]).next, lines[i]).emitted
  {
    assert lines[..i + 1][..i] == lines[..i];
  }

  /** An overfull block is never open inside a `.bbl` region. */
  predicate HboxInv(st: Hbox)
  {
    st.inOverfull ==> !st.inBbl
  }

  /** A whitespace-only line holds no visible pattern. */
  lemma BlankHolds(line: string, pat: string)
    requires CommentStripper.IsEmptyLine(line) && |pat| > 0 && !IsSpace(pat[0])
    ensures !Contains(line, pat)
  {
    FreeNotContains(line, pat);
  }

  /**
   * One line emits a warning exactly when a block is open and the line is
   * whitespace only; a `.bbl` line closes the block without a warning; an
   * "Overfull" line outside a `.bbl` region opens one.
   */
  lemma HboxStepSpec(st: Hbox, line: string)
    requires HboxInv(st)
    ensures HboxInv(HboxStep(st, line).next)
    ensures |HboxStep(st, line).emitted| <= 1
    ensures |HboxStep(st, line).emitted| == 1 <==> st.inOverfull && CommentStripper.IsEmptyLine(line)
    ensures Contains(line, ".bbl") ==> !HboxStep(st, line).next.inOverfull && HboxStep(st, line).emitted == []
    ensures Contains(line, OverfullMark) && !Contains(line, ".bbl") && (Contains(line, ".tex") || !st.inBbl)
      ==> HboxStep(st, line).next.inOverfull
  {
    if CommentStripper.IsEmptyLine(line) {
      BlankHolds(line, ".bbl");
      BlankHolds(line, ".tex");
    }
  }

  /** A whitespace-only line of the list. */
  function BlankCount(lines: seq<string>): nat
    decreases |lines|
  {
    if |lines| == 0 then 0
    else BlankCount(lines[..|lines| - 1]) + (if CommentStripper.IsEmptyLine(lines[|lines| - 1]) then 1 else 0)
  }

  /** The scan never opens a block in a `.bbl` region, and emits at most one warning per whitespace-only line. */
  lemma {:induction false} HboxRunSpec(lines: seq<string>)
    ensures HboxInv(HboxRun(lines).next)
    ensures |HboxRun(lines).emitted| <= BlankCount(lines)
    decreases |lines|
  {
    if |lines| > 0 {
      HboxRunSpec(lines[..|lines| - 1]);
      HboxStepSpec(HboxRun(lines[..|lines| - 1]).next, lines[|lines| - 1]);
    }
  }

  /** The body of the `check_overfull_hbox` loop for one line, on the scanner's four variables. */
  method ScanLine(inOverfull0: bool, inBbl0: bool, overfullLines0: seq<string>, fileLines0: seq<string>, line: string)
    returns (inOverfull: bool, inBbl: bool, overfullLines: seq<string>, fileLines: seq<string>, emitted: seq<string>)
    ensures HboxAfter(Hbox(inOverfull, inBbl, overfullLines, fileLines), emitted)
      == HboxStep(Hbox(inOverfull0, inBbl0, overfullLines0, fileLines0), line)
    ensures |emitted| <= 1
  {
    inOverfull, inBbl, overfullLines, fileLines, emitted := inOverfull0, inBbl0, overfullLines0, fileLines0, [];
    if Contains(line, ".tex") {
      inBbl := false;
      fileLines := [line];
    }
    if Contains(line, ".bbl") {
      inBbl := true;
      fileLines := [line];
    }
    if Contains(line, "[") || Contains(line, "]") {
      fileLines := fileLines + [line];
    }
    if inBbl {
      inOverfull := false;
    }
    if inOverfull {
      overfullLines := overfullLines + [line];
      if CommentStripper.IsEmptyLine(line) {
        inOverfull := false;
        var text := Join(fileLines, "\n");
        text := text + Join(overfullLines, "\n");
        emitted := [text];
        overfullLines := [];
        fileLines := [];
      }
    }
    if Contains(line, OverfullMark) {
      if !inBbl {
        overfullLines := overfullLines + [line];
        inOverfull := true;
      }
    }
  }

  /** The loop of `check_overfull_hbox`: the texts of the blocks it closes, in order. */
  method ScanLines(lines: seq<string>) returns (texts: seq<string>)
    ensures texts == HboxRun(lines).emitted
  {
    var inOverfull := false;
    var inBbl := false;
    var overfullLines: seq<string> := [];
    var fileLines: seq<string> := [];
    texts := [];
    var i := 0;
    while i < |lines|
      invariant 0 <= i <= |lines|
      invariant HboxRun(lines[..i]).next == Hbox(inOverfull, inBbl, overfullLines, fileLines)
      invariant texts == HboxRun(lines[..i]).emitted
    {
      HboxRunStep(lines, i);
      var emitted;
      inOverfull, inBbl, overfullLines, fileLines, emitted :=
        ScanLine(inOverfull, inBbl, overfullLines, fileLines, lines[i]);
      texts := texts + emitted;
      i := i + 1;
    }
    assert lines[..i] == lines;
  }

  // ---------------------------------------------------------------------
  // remove_duplicate_warnings

  /** The label a warning is filed under; only meaningful where `LabelAttr` succeeds. */
  function Key(w: Warning): Option<string>
  {
    if LabelAttr(w).Ok? then LabelAttr(w).value else None
  }

  function Keys(ws: seq<Warning>): (r: seq<Option<string>>)
    ensures |r| == |ws| && forall i :: 0 <= i < |ws| ==> r[i] == Key(ws[i])
  {
    seq(|ws|, i requires 0 <= i < |ws| => Key(ws[i]))
  }

  /** The warnings with the first of each label kept; AttributeError on a warning without a label. */
  function RemoveDuplicates(ws: seq<Warning>): Result<seq<Warning>>
    decreases |ws|
  {
    if |ws| == 0 then Ok([])
    else
      match RemoveDuplicates(ws[..|ws| - 1])
      case Err(e) => Err(e)
      case Ok(d) =>
        var w := ws[|ws| - 1];
        match LabelAttr(w)
        case Err(e) => Err(e)
        case Ok(k) => if k in Keys(d) then Ok(d) else Ok(d + [w])
  }

  /** Every warning of the list answers `.name`. */
  predicate AllLabelled(ws: seq<Warning>)
  {
    forall i :: 0 <= i < |ws| ==> LabelAttr(ws[i]).Ok?
  }

  /**
   * The filter fails exactly when a warning has no label; otherwise the
   * labels it keeps are those of the input with each one's first
   * occurrence kept, and every kept warning comes from the input.
   */
  lemma {:induction false} RemoveDuplicatesSpec(ws: seq<Warning>)
    ensures RemoveDuplicates(ws).Ok? <==> AllLabelled(ws)
    ensures RemoveDuplicates(ws).Err? ==> RemoveDuplicates(ws) == Err(AttributeError)
    ensures RemoveDuplicates(ws).Ok? ==>
      Keys(RemoveDuplicates(ws).value) == CreateBbl.Dedup(Keys(ws))
      && forall w :: w in RemoveDuplicates(ws).value ==> w in ws
    decreases |ws|
  {
    if |ws| > 0 {
      var front := ws[..|ws| - 1];
      var w := ws[|ws| - 1];
      RemoveDuplicatesSpec(front);
      assert Keys(ws) == Keys(front) + [Key(w)];
      assert Keys(ws)[..|ws| - 1] == Keys(front);
      if AllLabelled(ws) {
        assert AllLabelled(front) by {
          forall i | 0 <= i < |front| ensures LabelAttr(front[i]).Ok? {
            assert front[i] == ws[i];
          }
        }
        var d := RemoveDuplicates(front).value;
        assert Keys(d + [w]) == Keys(d) + [Key(w)];
      } else if AllLabelled(front) {
        assert LabelAttr(w).Err?;
      } else {
        var i :| 0 <= i < |front| && LabelAttr(front[i]).Err?;
        assert ws[i] == front[i];
      }
    }
  }

  /** After the filter no two warnings share a label, so at most one overfull warning is left. */
  lemma RemoveDuplicatesDistinct(ws: seq<Warning>)
    requires RemoveDuplicates(ws).Ok?
    ensures CreateBbl.NoDuplicates(Keys(RemoveDuplicates(ws).value))
    ensures forall i, j :: 0 <= i < j < |RemoveDuplicates(ws).value| ==>
      !(RemoveDuplicates(ws).value[i].Overfull? && RemoveDuplicates(ws).value[j].Overfull?)
  {
    RemoveDuplicatesSpec(ws);
    CreateBbl.DedupNoDuplicates(Keys(ws));
    var d := RemoveDuplicates(ws).value;
    forall i, j | 0 <= i < j < |d| ensures !(d[i].Overfull? && d[j].Overfull?) {
      assert Keys(d)[i] != Keys(d)[j];
    }
  }

  /** A labelled list without two warnings of one label passes the filter unchanged. */
  lemma {:induction false} RemoveDuplicatesOfDistinct(ws: seq<Warning>)
    requires AllLabelled(ws) && CreateBbl.NoDuplicates(Keys(ws))
    ensures RemoveDuplicates(ws) == Ok(ws)
    decreases |ws|
  {
    if |ws| > 0 {
      var front := ws[..|ws| - 1];
      assert Keys(front) == Keys(ws)[..|ws| - 1];
      RemoveDuplicatesOfDistinct(front);
      assert front + [ws[|ws| - 1]] == ws;
    }
  }

  /** Filtering twice is filtering once. */
  lemma RemoveDuplicatesIdempotent(ws: seq<Warning>)
    requires RemoveDuplicates(ws).Ok?
    ensures RemoveDuplicates(RemoveDuplicates(ws).value) == RemoveDuplicates(ws)
  {
    var d := RemoveDuplicates(ws).value;
    RemoveDuplicatesSpec(ws);
    RemoveDuplicatesDistinct(ws);
    forall i | 0 <= i < |d| ensures LabelAttr(d[i]).Ok? {
      assert d[i] in d;
      var k :| 0 <= k < |ws| && ws[k] == d[i];
    }
    RemoveDuplicatesOfDistinct(d);
  }

  /** The loop of `remove_duplicate_warnings`. */
  method KeepFirstPerLabel(ws: seq<Warning>) returns (r: Result<seq<Warning>>)
    ensures r == RemoveDuplicates(ws)
  {
    var labels: seq<Option<string>> := [];
    var newWarns: seq<Warning> := [];
    var i := 0;
    while i < |ws|
      invariant 0 <= i <= |ws|
      invariant RemoveDuplicates(ws[..i]) == Ok(newWarns)
      invariant labels == Keys(newWarns)
    {
      assert ws[..i + 1][..i] == ws[..i];
      var attr := LabelAttr(ws[i]);
      if attr.Err? {
        RemoveDuplicatesSpec(ws);
        return Err(AttributeError);
      }
      if attr.value !in labels {
        newWarns := newWarns + [ws[i]];
        labels := labels + [attr.value];
        assert labels == Keys(newWarns);
      }
      i := i + 1;
    }
    assert ws[..i] == ws;
    r := Ok(newWarns);
  }

  // ---------------------------------------------------------------------
  // __str__

  /** One line of the summary: a warning as it displays itself, or a closing message. */
  datatype SummaryLine = Shown(warning: Warning) | Message(text: string)

  const LastProblem: string := "C'est ton dernier problème à régler. Encore un peu de courage !"

  function RemainingMessage(n: nat): string
  {
    "Il reste encore " + DecimalString(n) + " problèmes à régler. Bon travail."
  }

  /** The summary: each warning, then a message about the number of problems. */
  function Summary(ws: seq<Warning>, probsNumber: nat): seq<SummaryLine>
  {
    var shown := seq(|ws|, i requires 0 <= i < |ws| => Shown(ws[i]));
    if probsNumber > 1 then shown + [Message(RemainingMessage(probsNumber))]
    else if probsNumber == 1 then shown + [Message(LastProblem)]
    else shown
  }

  /**
   * The summary shows every warning in order and closes with one message
   * when there is at least one problem; for several, the number written in
   * the message reads back as the count.
   */
  lemma SummarySpec(ws: seq<Warning>, probsNumber: nat)
    ensures |Summary(ws, probsNumber)| == |ws| + (if probsNumber >= 1 then 1 else 0)
    ensures forall i :: 0 <= i < |ws| ==> Summary(ws, probsNumber)[i] == Shown(ws[i])
    ensures probsNumber == 1 ==> Summary(ws, probsNumber)[|ws|] == Message(LastProblem)
    ensures probsNumber > 1 ==>
      var text := Summary(ws, probsNumber)[|ws|].text;
      var digits := text[16..|text| - 33];
      (forall k :: 0 <= k < |digits| ==> IsDigit(digits[k])) && DecimalValue(digits) == probsNumber
  {
    if probsNumber > 1 {
      var text := RemainingMessage(probsNumber);
      var d := DecimalString(probsNumber);
      assert text[16..|text| - 33] == d;
      DecimalRoundTrip(probsNumber);
    }
  }
}
