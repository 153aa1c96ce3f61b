/**
 * The `LogCode` class that reads a LaTeX log: src/log_code.py (the current
 * generation) and src/LogCode.py with its older copy LogCode.py (the early
 * generation).  The class and its fields are the same in all three files;
 * where the generations behave differently the `generation` field decides:
 *
 *  - a chunk whose first "page" is its last word is passed over by the
 *    current generation and raises IndexError in the early one;
 *  - only the current generation looks for overfull hboxes; the early one
 *    raises NameError on a log that reports "TeX capacity exceeded", the
 *    warning class not being imported there;
 *  - the early constructor clears the rerun flag after the search, so the
 *    first `rerun_to_get_cross_references` searches the log a second time.
 */
module LogReader {
  import opened PyStr
  import opened LogWarnings
  import opened LogChunks

  /** The warnings a search lists, from the gathered lists, in order. */
  function SearchWarnings(gen: Generation, l: Lists, text: string): seq<Warning>
  {
    if gen == Current then
      ListWarnings(l) + NoticeWarnings(text) + OverfullWarnings(HboxRun(SplitLines(text)).emitted)
      + CapacityWarnings(text)
    else ListWarnings(l) + NoticeWarnings(text)
  }

  /** The search stops early: `stop_on_first` with the rerun line in the log. */
  predicate StopsEarly(text: string, stopOnFirst: bool)
  {
    stopOnFirst && Contains(text, MaybeMore)
  }

  /** A full search raises: a chunk raises, or the early generation meets a capacity message. */
  predicate SearchRaises(gen: Generation, text: string)
  {
    !NoneRaise(gen, Chunks(text)) || (gen == Early && Contains(text, CapacityMark))
  }

  /**
   * The list is sorted by kind: references, citations, multiply-defined
   * labels, rerun notice, overfull boxes, capacity.
   */
  lemma SearchWarningsSpec(gen: Generation, l: Lists, text: string)
    ensures RankSorted(SearchWarnings(gen, l, text))
  {
    var refs := ReferenceWarnings(l.references);
    var cits := CitationWarnings(l.citations);
    var muls := MultiplyWarnings(l.multiply);
    var notice := NoticeWarnings(text);
    var emitted := HboxRun(SplitLines(text)).emitted;
    BlocksRanked(l, text, emitted);
    SortedBlocks(refs, cits, muls, notice);
    if gen == Current {
      SortedTail(refs + cits + muls + notice, OverfullWarnings(emitted), CapacityWarnings(text));
    }
  }

  /**
   * One warning per undefined reference, undefined citation and
   * multiply-defined label, one rerun notice exactly when the log has the
   * rerun line and, in the current generation, one overfull warning per
   * block the scanner closes and one capacity warning exactly when the log
   * reports it.
   */
  lemma SearchWarningsLength(gen: Generation, l: Lists, text: string)
    ensures |SearchWarnings(gen, l, text)| ==
      |l.references| + |l.citations| + |l.multiply| + (if Contains(text, MaybeMore) then 1 else 0)
      + (if gen == Current then |HboxRun(SplitLines(text)).emitted| + (if Contains(text, CapacityMark) then 1 else 0) else 0)
  {
    OverfullWarningsSpec(HboxRun(SplitLines(text)).emitted);
  }

  /**
   * `remove_duplicate_warnings` on the list of a current-generation search
   * raises AttributeError exactly when the log has the rerun line or a
   * capacity message: neither warning has a label.
   */
  lemma RemoveDuplicatesOfSearch(l: Lists, text: string)
    ensures RemoveDuplicates(SearchWarnings(Current, l, text)).Err? <==>
      Contains(text, MaybeMore) || Contains(text, CapacityMark)
  {
    var refs := ReferenceWarnings(l.references);
    var cits := CitationWarnings(l.citations);
    var muls := MultiplyWarnings(l.multiply);
    var notice := NoticeWarnings(text);
    var over := OverfullWarnings(HboxRun(SplitLines(text)).emitted);
    OverfullWarningsSpec(HboxRun(SplitLines(text)).emitted);
    var capacity := CapacityWarnings(text);
    var ws := refs + cits + muls + notice + over + capacity;
    assert ws == SearchWarnings(Current, l, text);
    assert AllLabelled(refs) && AllLabelled(cits) && AllLabelled(muls) && AllLabelled(over);
    if Contains(text, MaybeMore) {
      assert LabelAttr(notice[0]).Err?;
    } else {
      assert notice == [];
    }
    if Contains(text, CapacityMark) {
      assert LabelAttr(capacity[0]).Err?;
    } else {
      assert capacity == [];
    }
    AllLabelledConcat(refs, cits);
    AllLabelledConcat(refs + cits, muls);
    AllLabelledConcat(refs + cits + muls, notice);
    AllLabelledConcat(refs + cits + muls + notice, over);
    AllLabelledConcat(refs + cits + muls + notice + over, capacity);
    RemoveDuplicatesSpec(ws);
  }

  class LogCode {
    const generation: Generation
    const textBrut: string
    const stopOnFirst: bool
    var undefinedReferences: seq<Entry>
    var undefinedCitations: seq<Entry>
    var undefinedLabels: seq<Entry>
    var multiplyLabels: seq<Entry>
    /** `_rerun_to_get_cross_references`; None until a search sets it. */
    var rerun: Option<bool>
    /** `warnings`; None until a search fills it. */
    var warnings: Option<seq<Warning>>
    /** `probs_number`; None while the attribute does not exist. */
    var probsNumber: Option<nat>

    function Gathered(): Lists
      reads this
    {
      Lists(undefinedReferences, undefinedCitations, multiplyLabels)
    }

    /** `undefined_labels` is never filled, and references and citations hold each label once. */
    ghost predicate Valid()
      reads this
    {
      undefinedLabels == [] && Distinct(Gathered())
    }

    /** The attribute assignments that precede the search in `__init__`. */
    constructor (generation: Generation, text: string, stopOnFirst: bool)
      ensures this.generation == generation && textBrut == text && this.stopOnFirst == stopOnFirst
      ensures Gathered() == NoLists && Valid()
      ensures rerun.None? && warnings.None? && probsNumber.None?
    {
      this.generation := generation;
      textBrut := text;
      this.stopOnFirst := stopOnFirst;
      undefinedReferences := [];
      undefinedCitations := [];
      undefinedLabels := [];
      multiplyLabels := [];
      rerun := None;
      warnings := None;
      probsNumber := None;
    }

    /**
     * The chunk loop of `search_for_errors` over the pieces of the log
     * between "Warning: " marks: the lists grow by the parsed chunks up to
     * the first chunk that raises, and keep what they gathered before it.
     */
    method ReadChunks(chunks: seq<string>) returns (err: Option<PyError>)
      requires Valid()
      modifies this
      ensures Valid()
      ensures undefinedLabels == old(undefinedLabels) && rerun == old(rerun)
      ensures warnings == old(warnings) && probsNumber == old(probsNumber)
      ensures err.None? <==> NoneRaise(generation, chunks)
      ensures err.Some? ==> err == Some(IndexError)
      ensures Gathered() == Collect(old(Gathered()), chunks[..FirstRaise(generation, chunks)], [])
      ensures err.None? ==> Gathered() == Collect(old(Gathered()), chunks, [])
    {
      var l;
      l, err := GatherChunks(generation, Gathered(), chunks);
      undefinedReferences, undefinedCitations, multiplyLabels := l.references, l.citations, l.multiply;
    }

    /**
     * `search_for_errors`: unless it stops early, the lists gathered from
     * the chunks, then the warning list and its count.
     */
    method SearchForErrors(stopOnFirst: bool) returns (err: Option<PyError>)
      requires Valid()
      modifies this
      ensures Valid()
      ensures StopsEarly(textBrut, stopOnFirst) ==>
        err.None? && rerun == Some(true) && Gathered() == old(Gathered())
        && warnings == old(warnings) && probsNumber == old(probsNumber)
      ensures !StopsEarly(textBrut, stopOnFirst) ==> (err.None? <==> !SearchRaises(generation, textBrut))
      ensures !StopsEarly(textBrut, stopOnFirst) && err.None? ==>
        Gathered() == Collect(old(Gathered()), Chunks(textBrut), [])
        && rerun == Some(Contains(textBrut, MaybeMore))
        && warnings == Some(SearchWarnings(generation, Gathered(), textBrut))
        && probsNumber == Some(|warnings.value|)
    {
      var still := Contains(textBrut, MaybeMore);
      rerun := Some(false);
      if stopOnFirst {
        if still {
          rerun := Some(true);
        }
      }
      if rerun == Some(true) {
        return None;
      }
      err := ReadChunks(Chunks(textBrut));
      if err.Some? {
        return;
      }
      err := FillWarnings();
    }

    /**
     * The tail of `search_for_errors` once the chunk loop is through: the
     * warning list, the rerun flag, the overfull and capacity checks, the
     * count.
     */
    method FillWarnings() returns (err: Option<PyError>)
      modifies this
      ensures Gathered() == old(Gathered()) && undefinedLabels == old(undefinedLabels)
      ensures err.None? <==> !(generation == Early && Contains(textBrut, CapacityMark))
      ensures err.Some? ==> err == Some(NameError)
      ensures rerun == Some(Contains(textBrut, MaybeMore))
      ensures err.None? ==> warnings == Some(SearchWarnings(generation, Gathered(), textBrut))
      ensures err.None? ==> probsNumber == Some(|warnings.value|)
    {
      ghost var g := Gathered();
      var listed := ListWarnings(Gathered());
      if Contains(textBrut, MaybeMore) {
        warnings := Some(listed + [RerunNotice(MaybeMore)]);
        rerun := Some(true);
      } else {
        warnings := Some(listed);
        rerun := Some(false);
        assert listed + [] == listed;
      }
      assert g == Gathered();
      if generation == Current {
        CheckOverfullHbox();
        CheckTexCapacityExceeded();
      } else if Contains(textBrut, CapacityMark) {
        return Some(NameError);
      }
      probsNumber := Some(|warnings.value|);
      err := None;
    }

    /**
     * `check_overfull_hbox`: one overfull warning per block the line scanner
     * closes, in the order the blocks close.
     */
    method CheckOverfullHbox()
      requires warnings.Some?
      modifies this
      ensures warnings == Some(old(warnings.value) + OverfullWarnings(HboxRun(SplitLines(textBrut)).emitted))
      ensures Gathered() == old(Gathered()) && undefinedLabels == old(undefinedLabels)
      ensures rerun == old(rerun) && probsNumber == old(probsNumber)
    {
      var texts := ScanLines(SplitLines(textBrut));
      warnings := Some(warnings.value + OverfullWarnings(texts));
    }

    /** `check_tex_capacity_exeeded`. */
    method CheckTexCapacityExceeded()
      requires warnings.Some?
      modifies this
      ensures warnings == Some(old(warnings.value) + CapacityWarnings(textBrut))
      ensures Gathered() == old(Gathered()) && undefinedLabels == old(undefinedLabels)
      ensures rerun == old(rerun) && probsNumber == old(probsNumber)
    {
      if Contains(textBrut, CapacityMark) {
        warnings := Some(warnings.value + [CapacityExceeded(CapacityMark)]);
      } else {
        assert warnings.value + [] == warnings.value;
      }
    }

    /**
     * `rerun_to_get_cross_references`: a search when the flag is unset,
     * then the flag; a set flag is answered without touching anything.
     */
    method RerunToGetCrossReferences(stopOnFirst: bool) returns (r: Result<Option<bool>>)
      requires Valid()
      modifies this
      ensures Valid()
      ensures old(rerun).Some? ==> r == Ok(old(rerun))
      ensures old(rerun).Some? ==> Gathered() == old(Gathered()) && warnings == old(warnings)
      ensures old(rerun).Some? ==> probsNumber == old(probsNumber)
      ensures old(rerun).None? && StopsEarly(textBrut, stopOnFirst) ==>
        r == Ok(Some(true)) && Gathered() == old(Gathered()) && warnings == old(warnings)
      ensures old(rerun).None? && !StopsEarly(textBrut, stopOnFirst) ==>
        (r.Ok? <==> !SearchRaises(generation, textBrut))
        && (r.Ok? ==> r == Ok(Some(Contains(textBrut, MaybeMore)))
                      && Gathered() == Collect(old(Gathered()), Chunks(textBrut), []))
    {
      if rerun.None? {
        var err := SearchForErrors(stopOnFirst);
        if err.Some? {
          return Err(err.value);
        }
      }
      return Ok(rerun);
    }

    /**
     * `remove_duplicate_warnings`: the first warning of each label kept.
     * Without a warning list the current generation iterates over None
     * (TypeError) and the early one reads a missing attribute
     * (AttributeError); a warning without a label raises AttributeError and
     * leaves the list as it was.
     */
    method RemoveDuplicateWarnings() returns (err: Option<PyError>)
      modifies this
      ensures old(warnings).None? ==> err == Some(if generation == Current then TypeError else AttributeError)
      ensures old(warnings).Some? ==>
        (err.None? <==> RemoveDuplicates(old(warnings.value)).Ok?)
        && (err.None? ==> warnings == Some(RemoveDuplicates(old(warnings.value)).value))
      ensures err.Some? ==> warnings == old(warnings)
      ensures Gathered() == old(Gathered()) && undefinedLabels == old(undefinedLabels)
      ensures rerun == old(rerun) && probsNumber == old(probsNumber)
    {
      if warnings.None? {
        return Some(if generation == Current then TypeError else AttributeError);
      }
      var r := KeepFirstPerLabel(warnings.value);
      if r.Err? {
        return Some(r.error);
      }
      warnings := Some(r.value);
      err := None;
    }

    /**
     * `__str__` of src/log_code.py and src/LogCode.py: duplicates removed,
     * then the summary lines, the count message following `probs_number`.
     */
    method Summarize() returns (r: Result<seq<SummaryLine>>)
      modifies this
      ensures old(warnings).Some? && RemoveDuplicates(old(warnings.value)).Ok? && probsNumber.Some? ==>
        r == Ok(Summary(RemoveDuplicates(old(warnings.value)).value, probsNumber.value))
      ensures old(warnings).Some? && RemoveDuplicates(old(warnings.value)).Err? ==> r.Err?
      ensures old(warnings).None? ==> r.Err?
      ensures Gathered() == old(Gathered()) && probsNumber == old(probsNumber)
    {
      var err := RemoveDuplicateWarnings();
      if err.Some? {
        return Err(err.value);
      }
      if probsNumber.None? {
        return Err(AttributeError);
      }
      return Ok(Summary(warnings.value, probsNumber.value));
    }

    /** `__str__` of LogCode.py: the summary lines of the list as it is, duplicates included. */
    method SummarizeAsIs() returns (r: Result<seq<SummaryLine>>)
      ensures warnings.Some? && probsNumber.Some? ==> r == Ok(Summary(warnings.value, probsNumber.value))
      ensures warnings.None? || probsNumber.None? ==> r == Err(AttributeError)
    {
      if warnings.None? || probsNumber.None? {
        return Err(AttributeError);
      }
      return Ok(Summary(warnings.value, probsNumber.value));
    }
  }

  /**
   * `LogCode(text_brut, …)` of src/log_code.py: the rerun flag is cleared
   * before the search, so a constructed reader always holds it.
   */
  method NewCurrent(text: string, stopOnFirst: bool) returns (r: Result<LogCode>)
    ensures r.Err? <==> !StopsEarly(text, stopOnFirst) && SearchRaises(Current, text)
    ensures r.Ok? ==> fresh(r.value) && r.value.Valid() && r.value.generation == Current
    ensures r.Ok? ==> r.value.textBrut == text && r.value.rerun.Some?
    ensures r.Ok? && StopsEarly(text, stopOnFirst) ==>
      r.value.rerun == Some(true) && r.value.Gathered() == NoLists
      && r.value.warnings.None? && r.value.probsNumber.None?
    ensures r.Ok? && !StopsEarly(text, stopOnFirst) ==>
      r.value.Gathered() == Collect(NoLists, Chunks(text), [])
      && r.value.warnings == Some(SearchWarnings(Current, r.value.Gathered(), text))
      && r.value.probsNumber == Some(|r.value.warnings.value|)
  {
    var log := new LogCode(Current, text, stopOnFirst);
    var err := log.SearchForErrors(stopOnFirst);
    if err.Some? {
      return Err(err.value);
    }
    return Ok(log);
  }

  /**
   * `LogCode(text_brut, …)` of src/LogCode.py and LogCode.py: the search,
   * then the rerun flag cleared, so the first query searches again.
   */
  method NewEarly(text: string, stopOnFirst: bool) returns (r: Result<LogCode>)
    ensures r.Err? <==> !StopsEarly(text, stopOnFirst) && SearchRaises(Early, text)
    ensures r.Ok? ==> fresh(r.value) && r.value.Valid() && r.value.generation == Early
    ensures r.Ok? ==> r.value.textBrut == text && r.value.rerun.None?
    ensures r.Ok? && StopsEarly(text, stopOnFirst) ==>
      r.value.Gathered() == NoLists && r.value.warnings.None? && r.value.probsNumber.None?
    ensures r.Ok? && !StopsEarly(text, stopOnFirst) ==>
      r.value.Gathered() == Collect(NoLists, Chunks(text), [])
      && r.value.warnings == Some(SearchWarnings(Early, r.value.Gathered(), text))
      && r.value.probsNumber == Some(|r.value.warnings.value|)
  {
    var log := new LogCode(Early, text, stopOnFirst);
    var err := log.SearchForErrors(stopOnFirst);
    if err.Some? {
      return Err(err.value);
    }
    log.rerun := None;
    return Ok(log);
  }

  /**
   * An early-generation reader asked whether to rerun searches its log a
   * second time: references and citations stay as they were, every
   * multiply-defined label is listed twice.
   */
  method EarlyRerun(text: string) returns (r: Result<LogCode>)
    ensures r.Ok? ==> r.value.Gathered().references == Collect(NoLists, Chunks(text), []).references
    ensures r.Ok? ==> r.value.Gathered().citations == Collect(NoLists, Chunks(text), []).citations
    ensures r.Ok? ==> r.value.Gathered().multiply == LabelEntries(Chunks(text)) + LabelEntries(Chunks(text))
    ensures r.Err? <==> SearchRaises(Early, text)
  {
    r := NewEarly(text, false);
    if r.Err? {
      return;
    }
    var log := r.value;
    var answer := log.RerunToGetCrossReferences(false);
    SecondPass(Chunks(text));
    CollectMultiply(NoLists, Chunks(text));
  }
}
