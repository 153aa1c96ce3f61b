/**
 * The bibliography classes of src/__init__.py. A `BibtexEntry` reads the
 * type and the label off the head `@TYPE{LABEL,` of one entry. A
 * `CodeBibtex` cuts a bibliography at every `@` that starts a line, keeps the
 * entries in a list and indexes them by label in an insertion-ordered
 * dictionary; `extract_list` and `+` build new bibliographies from it.
 *
 * The constructor's cleaning `ConvertToUTF8(RemoveComments(...))` is the
 * parameter `clean`.
 */
module Bibtex {
  import opened PyStr

  // ---------------------------------------------------------------------
  // BibtexEntry

  /** One entry: its text, its lower-cased type and its label. */
  datatype BibtexEntry = BibtexEntry(givenText: string, entryType: string, entryLabel: string)

  /**
   * `BibtexEntry(given_text)`: the type lies between the first `@` and the
   * first `{`, the label between the first `{` and the first `,`; both are
   * Python slices, so a missing character (find gives -1) counts from the end.
   */
  function NewEntry(given: string): (e: BibtexEntry)
    ensures e.givenText == given
  {
    var at := Find(given, "@");
    var open := Find(given, "{");
    var comma := Find(given, ",");
    BibtexEntry(given, Lower(Slice(given, at + 1, open)), Replace(Slice(given, open + 1, comma), " ", ""))
  }

  /** The head `@TYPE{LABEL,` gives back its type, lower-cased, and its label without blanks. */
  lemma EntryHead(t: string, l: string, rest: string)
    requires Free(t, '{') && Free(t, ',') && Free(l, ',')
    ensures var e := NewEntry("@" + t + "{" + l + "," + rest);
      e.entryType == Lower(t) && e.entryLabel == Replace(l, " ", "")
  {
    var s := "@" + t + "{" + l + "," + rest;
    var o, c := |t| + 1, |t| + |l| + 2;
    assert "@" == ['@'] && "{" == ['{'] && "," == [','];
    FindChar(s, '@', 0);
    assert s[..o] == "@" + t;
    FindChar(s, '{', o);
    assert s[..c] == "@" + t + "{" + l;
    FindChar(s, ',', c);
    assert s[1..o] == t;
    assert s[o + 1..c] == l;
  }

  /** A label never holds a blank. */
  lemma LabelHasNoBlank(given: string)
    ensures !Contains(NewEntry(given).entryLabel, " ")
  {
    var open := Find(given, "{");
    var comma := Find(given, ",");
    var parts := Split(Slice(given, open + 1, comma), " ");
    SplitPartsWithout(Slice(given, open + 1, comma), " ");
    assert " " == [' '];
    forall k, m | 0 <= k < |parts| && 0 <= m < |parts[k]|
      ensures parts[k][m] != ' '
    {
      assert !OccursAt(parts[k], " ", m);
      assert parts[k][m..m + 1] == [parts[k][m]];
    }
    JoinFree(parts, "", ' ');
    FreeNotContains(NewEntry(given).entryLabel, " ");
  }

  // ---------------------------------------------------------------------
  // Cutting a bibliography into entries

  /** Each entry starts at a `@` that begins a line. */
  const EntryStart: string := "\n@"

  /** `[BibtexEntry("@" + t) for t in text_brut.split("\n@")[1:]]`. */
  function Entries(textBrut: string): (es: seq<BibtexEntry>)
  {
    var parts := Split(textBrut, EntryStart);
    seq(|parts| - 1, i requires 0 <= i < |parts| - 1 => NewEntry("@" + parts[i + 1]))
  }

  /** The texts of a list of entries. */
  function Texts(es: seq<BibtexEntry>): (r: seq<string>)
    ensures |r| == |es|
    ensures forall i :: 0 <= i < |es| ==> r[i] == es[i].givenText
  {
    seq(|es|, i requires 0 <= i < |es| => es[i].givenText)
  }

  /** The text of an entry as the cutting produces it: it opens with `@` and no line of it starts another. */
  predicate EntryShaped(g: string)
  {
    |g| > 0 && g[0] == '@' && !Contains(g, EntryStart)
  }

  /** A `@` put before a piece without a line-starting `@` gives none either. */
  lemma AtPrefixShaped(t: string)
    requires !Contains(t, EntryStart)
    ensures EntryShaped("@" + t)
  {
    var g := "@" + t;
    assert g[1..] == t;
    forall j | 0 <= j
      ensures !OccursAt(g, EntryStart, j)
    {
      if j > 0 {
        OccursAtTail(g, EntryStart, j - 1);
      } else if 2 <= |g| {
        assert g[0..2][0] == '@';
      }
    }
    ContainsIff(g, EntryStart);
  }

  /** Every entry the cutting produces is shaped as an entry. */
  lemma EntriesShaped(textBrut: string)
    ensures forall i :: 0 <= i < |Entries(textBrut)| ==> EntryShaped(Entries(textBrut)[i].givenText)
  {
    forall i | 0 <= i < |Entries(textBrut)|
      ensures EntryShaped(Entries(textBrut)[i].givenText)
    {
      EntryShapedAt(textBrut, i);
    }
  }

  lemma EntryShapedAt(textBrut: string, i: nat)
    requires i < |Entries(textBrut)|
    ensures EntryShaped(Entries(textBrut)[i].givenText)
  {
    var parts := Split(textBrut, EntryStart);
    var piece := parts[i + 1];
    SplitPartsWithout(textBrut, EntryStart);
    assert !Contains(piece, EntryStart);
    assert Entries(textBrut)[i] == NewEntry("@" + piece);
    AtPrefixShaped(piece);
  }

  /** The pieces after each `@` of the entries. */
  function Bodies(gs: seq<string>): (r: seq<string>)
    ensures |r| == |gs|
    decreases |gs|
  {
    if |gs| == 0 then [] else [Slice(gs[0], 1, |gs[0]|)] + Bodies(gs[1..])
  }

  /** An entry is `@` followed by a body without a line-starting `@`. */
  lemma ShapedBody(g: string)
    requires EntryShaped(g)
    ensures g == "@" + g[1..] && Slice(g, 1, |g|) == g[1..]
    ensures !Contains(g[1..], EntryStart)
  {
    var t := g[1..];
    forall j | 0 <= j
      ensures !OccursAt(t, EntryStart, j)
    {
      OccursAtTail(g, EntryStart, j);
    }
    ContainsIff(t, EntryStart);
  }

  /** A text that opens with the separator is cut right at its start. */
  lemma SplitAtStart(b: string)
    ensures Split(EntryStart + b, EntryStart) == [""] + Split(b, EntryStart)
  {
    SplitAfter("", EntryStart, b);
    assert "" + EntryStart + b == EntryStart + b;
  }

  /** The joined entries open with the separator, the first body, and the rest joined the same way. */
  lemma JoinedHead(gs: seq<string>)
    requires |gs| > 1 && EntryShaped(gs[0])
    ensures "\n" + Join(gs, "\n") == EntryStart + gs[0][1..] + ("\n" + Join(gs[1..], "\n"))
  {
    ShapedBody(gs[0]);
    JoinCons(gs[0], gs[1..], "\n");
    assert [gs[0]] + gs[1..] == gs;
  }

  /** The joined entries open with the separator. */
  lemma JoinedStart(gs: seq<string>)
    requires |gs| > 0 && EntryShaped(gs[0])
    ensures var j := "\n" + Join(gs, "\n"); |j| >= 2 && j == EntryStart + j[2..]
  {
    if |gs| > 1 {
      JoinCons(gs[0], gs[1..], "\n");
      assert [gs[0]] + gs[1..] == gs;
    }
    var j := "\n" + Join(gs, "\n");
    assert j[1] == gs[0][0];
    assert j[..2] == EntryStart;
    assert j == j[..2] + j[2..];
  }

  /** Cutting the joined entries at each line-starting `@` gives their bodies back. */
  lemma {:induction false} SplitJoined(gs: seq<string>)
    requires |gs| > 0
    requires forall i :: 0 <= i < |gs| ==> EntryShaped(gs[i])
    ensures Split("\n" + Join(gs, "\n"), EntryStart) == [""] + Bodies(gs)
    decreases |gs|
  {
    var t := gs[0][1..];
    ShapedBody(gs[0]);
    assert Bodies(gs) == [t] + Bodies(gs[1..]);
    if |gs| == 1 {
      assert "\n" + Join(gs, "\n") == EntryStart + t;
      SplitAtStart(t);
      assert Split(t, EntryStart) == [t];
    } else {
      var rest := gs[1..];
      var tail := "\n" + Join(rest, "\n");
      SplitJoined(rest);
      JoinedStart(rest);
      var b := tail[2..];
      SplitAtStart(b);
      JoinedHead(gs);
      SplitCons(t, b, Bodies(rest));
    }
  }

  /** One entry body, then the separator and a text cut into `bodies`. */
  lemma SplitCons(t: string, b: string, bodies: seq<string>)
    requires !Contains(t, EntryStart)
    requires Split(EntryStart + b, EntryStart) == [""] + bodies
    ensures Split(EntryStart + t + (EntryStart + b), EntryStart) == [""] + ([t] + bodies)
  {
    SplitAtStart(b);
    var sb := Split(b, EntryStart);
    assert sb == ([""] + sb)[1..] == ([""] + bodies)[1..] == bodies;
    var text := EntryStart + t + (EntryStart + b);
    assert text == EntryStart + (t + EntryStart + b);
    SplitAtStart(t + EntryStart + b);
    SplitAfter(t, EntryStart, b);
  }

  /**
   * `EntryListToCodeBibtex` then `CodeBibtex`, when the cleaning leaves the
   * text as it is: entries shaped as the cutting shapes them come back with
   * the same texts, in the same order.
   */
  lemma EntriesOfJoined(gs: seq<string>)
    requires forall i :: 0 <= i < |gs| ==> EntryShaped(gs[i])
    ensures Texts(Entries("\n" + Join(gs, "\n"))) == gs
  {
    var text := "\n" + Join(gs, "\n");
    var es := Entries(text);
    if |gs| == 0 {
      assert text == "\n";
      assert Find(text, EntryStart) == -1;
      assert Split(text, EntryStart) == [text];
      assert es == [];
    } else {
      SplitJoined(gs);
      EntriesOfBodies(text, gs);
    }
    TextsAre(es, gs);
  }

  /** A text cut into the bodies of `gs` holds the entries `gs`. */
  lemma EntriesOfBodies(text: string, gs: seq<string>)
    requires forall i :: 0 <= i < |gs| ==> EntryShaped(gs[i])
    requires Split(text, EntryStart) == [""] + Bodies(gs)
    ensures |Entries(text)| == |gs|
    ensures forall i :: 0 <= i < |gs| ==> Entries(text)[i].givenText == gs[i]
  {
    var parts := Split(text, EntryStart);
    var es := Entries(text);
    forall i | 0 <= i < |gs|
      ensures es[i].givenText == gs[i]
    {
      assert es[i] == NewEntry("@" + parts[i + 1]);
      assert parts[i + 1] == Bodies(gs)[i];
      BodiesAt(gs, i);
      ShapedBody(gs[i]);
    }
  }

  lemma TextsAre(es: seq<BibtexEntry>, gs: seq<string>)
    requires |es| == |gs| && forall i :: 0 <= i < |gs| ==> es[i].givenText == gs[i]
    ensures Texts(es) == gs
  {
  }

  lemma {:induction false} BodiesAt(gs: seq<string>, i: nat)
    requires i < |gs| && |gs[i]| > 0
    ensures Bodies(gs)[i] == gs[i][1..]
    decreases i
  {
    if i > 0 {
      BodiesAt(gs[1..], i - 1);
    }
  }

  // ---------------------------------------------------------------------
  // The dictionary of entries

  /** A Python dict from labels to entries: its keys in insertion order and its mapping. */
  datatype EntryDict = EntryDict(labels: seq<string>, entries: map<string, BibtexEntry>)

  /** `dico[entry.entryLabel] = entry`: a new entryLabel goes last, a known one keeps its place. */
  function Store(d: EntryDict, e: BibtexEntry): EntryDict
  {
    EntryDict(if e.entryLabel in d.entries then d.labels else d.labels + [e.entryLabel], d.entries[e.entryLabel := e])
  }

  /** The keys are listed once each, and every entry is filed under its own label. */
  ghost predicate WellFormed(d: EntryDict)
  {
    && (forall l :: l in d.entries <==> l in d.labels)
    && (forall a, b :: 0 <= a < b < |d.labels| ==> d.labels[a] != d.labels[b])
    && (forall l :: l in d.entries ==> d.entries[l].entryLabel == l)
  }

  lemma StoreSpec(d: EntryDict, e: BibtexEntry)
    requires WellFormed(d)
    ensures WellFormed(Store(d, e))
    ensures d.labels <= Store(d, e).labels
  {
  }

  /** The loop of the constructor over the entries, in order. */
  function DictOf(es: seq<BibtexEntry>): EntryDict
    decreases |es|
  {
    if |es| == 0 then EntryDict([], map[]) else Store(DictOf(es[..|es| - 1]), es[|es| - 1])
  }

  /**
   * The dictionary holds the label of every entry and nothing else, and files
   * under each label the last entry that carries it: a later entry
   * overwrites an earlier one.
   */
  lemma DictOfSpec(es: seq<BibtexEntry>)
    ensures WellFormed(DictOf(es))
    ensures forall l :: l in DictOf(es).entries <==> exists i :: 0 <= i < |es| && es[i].entryLabel == l
    ensures forall i :: 0 <= i < |es| && (forall j :: i < j < |es| ==> es[j].entryLabel != es[i].entryLabel) ==> DictOf(es).entries[es[i].entryLabel] == es[i]
  {
    DictWellFormed(es);
    DictKeys(es);
    DictLast(es);
  }

  lemma {:induction false} DictWellFormed(es: seq<BibtexEntry>)
    ensures WellFormed(DictOf(es))
    decreases |es|
  {
    if |es| > 0 {
      DictWellFormed(es[..|es| - 1]);
      StoreSpec(DictOf(es[..|es| - 1]), es[|es| - 1]);
    }
  }

  lemma {:induction false} DictKeys(es: seq<BibtexEntry>)
    ensures forall l :: l in DictOf(es).entries <==> exists i :: 0 <= i < |es| && es[i].entryLabel == l
    decreases |es|
  {
    if |es| > 0 {
      var n := |es| - 1;
      var front, e := es[..n], es[n];
      DictKeys(front);
      var r := DictOf(es);
      assert r.entries.Keys == DictOf(front).entries.Keys + {e.entryLabel};
      forall l | l in r.entries
        ensures exists i :: 0 <= i < |es| && es[i].entryLabel == l
      {
        if l != e.entryLabel {
          var i :| 0 <= i < n && front[i].entryLabel == l;
          assert es[i].entryLabel == l;
        }
      }
      forall i | 0 <= i < |es|
        ensures es[i].entryLabel in r.entries
      {
        if i < n {
          assert front[i] == es[i];
        }
      }
    }
  }

  lemma {:induction false} DictLast(es: seq<BibtexEntry>)
    ensures forall i :: 0 <= i < |es| && (forall j :: i < j < |es| ==> es[j].entryLabel != es[i].entryLabel) ==> es[i].entryLabel in DictOf(es).entries && DictOf(es).entries[es[i].entryLabel] == es[i]
    decreases |es|
  {
    if |es| > 0 {
      var n := |es| - 1;
      var front, e := es[..n], es[n];
      DictLast(front);
      var r := DictOf(es);
      assert r.entries == DictOf(front).entries[e.entryLabel := e];
      forall i | 0 <= i < n && (forall j :: i < j < |es| ==> es[j].entryLabel != es[i].entryLabel)
        ensures es[i].entryLabel in r.entries && r.entries[es[i].entryLabel] == es[i]
      {
        assert front[i] == es[i];
        assert es[i].entryLabel != e.entryLabel;
        assert forall j :: i < j < n ==> front[j] == es[j];
      }
    }
  }

  /** The loop of the constructor. */
  method BuildDict(es: seq<BibtexEntry>) returns (d: EntryDict)
    ensures d == DictOf(es)
  {
    d := EntryDict([], map[]);
    var i := 0;
    while i < |es|
      invariant i <= |es|
      invariant d == DictOf(es[..i])
    {
      assert es[..i + 1][..i] == es[..i];
      d := Store(d, es[i]);
      i := i + 1;
    }
    assert es[..i] == es;
  }

  /** `dico.values()`, in the order of the keys. */
  function Values(d: EntryDict): (r: seq<BibtexEntry>)
    requires forall l :: l in d.labels ==> l in d.entries
    ensures |r| == |d.labels|
  {
    seq(|d.labels|, i requires 0 <= i < |d.labels| => d.entries[d.labels[i]])
  }

  /** The values of a well-formed dictionary carry its labels, in order, once each. */
  lemma ValuesLabels(d: EntryDict)
    requires WellFormed(d)
    ensures forall i :: 0 <= i < |d.labels| ==> Values(d)[i].entryLabel == d.labels[i]
    ensures forall a, b :: 0 <= a < b < |d.labels| ==> Values(d)[a].entryLabel != Values(d)[b].entryLabel
  {
  }

  /** `self[key]`: the entry filed under `key`; KeyError when there is none. */
  function Lookup(d: EntryDict, key: string): (r: Result<BibtexEntry>)
    ensures r.Err? <==> key !in d.entries
    ensures r.Err? ==> r == Err(KeyError)
  {
    if key in d.entries then Ok(d.entries[key]) else Err(KeyError)
  }

  /** On a bibliography built from entries, `self[key]` answers the last entry labelled `key`. */
  lemma LookupEntries(es: seq<BibtexEntry>, key: string)
    ensures Lookup(DictOf(es), key).Ok? <==> exists i :: 0 <= i < |es| && es[i].entryLabel == key
    ensures forall i :: 0 <= i < |es| && es[i].entryLabel == key && (forall j :: i < j < |es| ==> es[j].entryLabel != key) ==> Lookup(DictOf(es), key) == Ok(es[i])
  {
    DictOfSpec(es);
  }

  // ---------------------------------------------------------------------
  // extract_list

  /** The loop of `extract_list`: the texts of the requested entries, or KeyError. */
  function Extracted(d: EntryDict, labels: seq<string>): Result<seq<string>>
    decreases |labels|
  {
    if |labels| == 0 then Ok([])
    else
      match Extracted(d, labels[..|labels| - 1])
      case Err(e) => Err(e)
      case Ok(texts) =>
        var l := labels[|labels| - 1];
        if l in d.entries then Ok(texts + [d.entries[l].givenText]) else Err(KeyError)
  }

  /**
   * `extract_list` answers the texts of the requested entries in the order
   * of the request, and raises KeyError exactly when a label is unknown.
   */
  lemma {:induction false} ExtractedSpec(d: EntryDict, labels: seq<string>)
    ensures Extracted(d, labels).Err? <==> exists i :: 0 <= i < |labels| && labels[i] !in d.entries
    ensures Extracted(d, labels).Err? ==> Extracted(d, labels) == Err(KeyError)
    ensures Extracted(d, labels).Ok? ==>
      var texts := Extracted(d, labels).value;
      |texts| == |labels| && forall i :: 0 <= i < |labels| ==> texts[i] == d.entries[labels[i]].givenText
    decreases |labels|
  {
    if |labels| > 0 {
      var front := labels[..|labels| - 1];
      ExtractedSpec(d, front);
      forall i | 0 <= i < |front|
        ensures front[i] == labels[i]
      {
      }
    }
  }

  /** The loop of `extract_list`. */
  method ExtractTexts(d: EntryDict, labels: seq<string>) returns (r: Result<seq<string>>)
    ensures r == Extracted(d, labels)
  {
    var a: seq<string> := [];
    var i := 0;
    while i < |labels|
      invariant i <= |labels|
      invariant Extracted(d, labels[..i]) == Ok(a)
    {
      assert labels[..i + 1][..i] == labels[..i];
      if labels[i] !in d.entries {
        r := Err(KeyError);
        ExtractedErrStays(d, labels, i + 1);
        return;
      }
      a := a + [d.entries[labels[i]].givenText];
      i := i + 1;
    }
    assert labels[..i] == labels;
    r := Ok(a);
  }

  /** Once a prefix of the request fails, the whole request fails the same way. */
  lemma {:induction false} ExtractedErrStays(d: EntryDict, labels: seq<string>, n: nat)
    requires n <= |labels| && Extracted(d, labels[..n]).Err?
    ensures Extracted(d, labels) == Extracted(d, labels[..n])
    decreases |labels| - n
  {
    if n < |labels| {
      assert labels[..n + 1][..n] == labels[..n];
      ExtractedErrStays(d, labels, n + 1);
    } else {
      assert labels[..n] == labels;
    }
  }

  // ---------------------------------------------------------------------
  // __add__

  /** The dictionary after the loop of `__add__`, and whether it stopped on a conflict. */
  datatype Merged = Merged(dict: EntryDict, conflict: bool)

  /** Both sides hold the label of `e` with different texts. */
  predicate Conflicts(d: EntryDict, e: BibtexEntry)
  {
    e.entryLabel in d.entries && d.entries[e.entryLabel].givenText != e.givenText
  }

  /** The loop of `__add__` over the other side's entries, in order; it stops at the first conflict. */
  function Merge(d: EntryDict, es: seq<BibtexEntry>): Merged
    decreases |es|
  {
    if |es| == 0 then Merged(d, false)
    else
      var m := Merge(d, es[..|es| - 1]);
      var e := es[|es| - 1];
      if m.conflict then m
      else if Conflicts(m.dict, e) then Merged(m.dict, true)
      else Merged(Store(m.dict, e), false)
  }

  /**
   * After merging `es` into `d` without conflict: the union of the labels,
   * the entries of `es`, and the entries of labels only `d` has.
   */
  ghost predicate Covers(d: EntryDict, es: seq<BibtexEntry>, r: EntryDict)
  {
    && (forall l :: l in r.entries <==> l in d.entries || exists i :: 0 <= i < |es| && es[i].entryLabel == l)
    && (forall i :: 0 <= i < |es| ==> es[i].entryLabel in r.entries && r.entries[es[i].entryLabel] == es[i])
    && (forall l :: l in d.entries && (forall i :: 0 <= i < |es| ==> es[i].entryLabel != l) ==> r.entries[l] == d.entries[l])
  }

  /** A label the merge has not met yet is where `d` had it. */
  lemma CoversUnmet(d: EntryDict, es: seq<BibtexEntry>, r: EntryDict, e: BibtexEntry)
    requires Covers(d, es, r)
    requires forall i :: 0 <= i < |es| ==> es[i].entryLabel != e.entryLabel
    ensures Conflicts(r, e) == Conflicts(d, e)
  {
  }

  /** Storing one more entry of the other side extends the union. */
  lemma CoversStore(d: EntryDict, es: seq<BibtexEntry>, r: EntryDict, e: BibtexEntry)
    requires Covers(d, es, r)
    requires forall i :: 0 <= i < |es| ==> es[i].entryLabel != e.entryLabel
    ensures Covers(d, es + [e], Store(r, e))
  {
    var es1, r1 := es + [e], Store(r, e);
    assert forall i :: 0 <= i < |es| ==> es1[i] == es[i];
    assert es1[|es|] == e;
    forall l | l in r1.entries
      ensures l in d.entries || exists i :: 0 <= i < |es1| && es1[i].entryLabel == l
    {
      if l != e.entryLabel && l !in d.entries {
        var i :| 0 <= i < |es| && es[i].entryLabel == l;
        assert es1[i].entryLabel == l;
      }
    }
  }

  /**
   * `__add__` raises exactly when some entry of the other side has a label
   * already present with a different text. Whether it raises or not, the
   * dictionary stays well formed and the entries already there keep their
   * places; without a conflict it holds the union of the labels, the other
   * side's entries, and the entries of labels only this side has.
   */
  lemma {:induction false} MergeSpec(d: EntryDict, es: seq<BibtexEntry>)
    requires WellFormed(d)
    requires forall a, b :: 0 <= a < b < |es| ==> es[a].entryLabel != es[b].entryLabel
    ensures var m := Merge(d, es);
      && (m.conflict <==> exists i :: 0 <= i < |es| && Conflicts(d, es[i]))
      && WellFormed(m.dict)
      && d.labels <= m.dict.labels
      && (!m.conflict ==> Covers(d, es, m.dict))
    decreases |es|
  {
    if |es| > 0 {
      var front, e := es[..|es| - 1], es[|es| - 1];
      assert es == front + [e];
      assert forall i :: 0 <= i < |front| ==> front[i] == es[i];
      MergeSpec(d, front);
      var m0 := Merge(d, front);
      if !m0.conflict {
        CoversUnmet(d, front, m0.dict, e);
        if !Conflicts(m0.dict, e) {
          StoreSpec(m0.dict, e);
          CoversStore(d, front, m0.dict, e);
        }
      }
    }
  }

  /** The loop of `__add__`. */
  method MergeLoop(d: EntryDict, es: seq<BibtexEntry>) returns (m: Merged)
    ensures m == Merge(d, es)
  {
    var dico := d;
    var i := 0;
    while i < |es|
      invariant i <= |es|
      invariant Merge(d, es[..i]) == Merged(dico, false)
    {
      assert es[..i + 1][..i] == es[..i];
      if Conflicts(dico, es[i]) {
        m := Merged(dico, true);
        MergeStops(d, es, i + 1);
        return;
      }
      dico := Store(dico, es[i]);
      i := i + 1;
    }
    assert es[..i] == es;
    m := Merged(dico, false);
  }

  /** Once the loop has stopped on a conflict, the later entries change nothing. */
  lemma {:induction false} MergeStops(d: EntryDict, es: seq<BibtexEntry>, n: nat)
    requires n <= |es| && Merge(d, es[..n]).conflict
    ensures Merge(d, es) == Merge(d, es[..n])
    decreases |es| - n
  {
    if n < |es| {
      assert es[..n + 1][..n] == es[..n];
      MergeStops(d, es, n + 1);
    } else {
      assert es[..n] == es;
    }
  }

  // ---------------------------------------------------------------------
  // CodeBibtex

  /** A bibliography: its text, its cleaned text, its entries and the dictionary of them by label. */
  class CodeBibtex {
    const clean: string -> string
    var givenText: string
    var textBrut: string
    var entryList: seq<BibtexEntry>
    var entryDict: EntryDict

    ghost predicate Valid()
      reads this
    {
      WellFormed(entryDict)
    }

    /**
     * `CodeBibtex(given_text)`: a newline goes in front so that the first
     * entry starts a line too, and the cleaned text is cut into entries.
     */
    constructor(givenText: string, clean: string -> string)
      ensures Valid()
      ensures this.clean == clean && this.givenText == "\n" + givenText
      ensures textBrut == clean("\n" + givenText)
      ensures entryList == Entries(textBrut) && entryDict == DictOf(entryList)
    {
      var brut := clean("\n" + givenText);
      var es := Entries(brut);
      var d := BuildDict(es);
      DictOfSpec(es);
      this.clean := clean;
      this.givenText := "\n" + givenText;
      textBrut := brut;
      entryList := es;
      entryDict := d;
    }

    /** `self[key]`. */
    function GetItem(key: string): (r: Result<BibtexEntry>)
      requires Valid()
      reads this
      ensures r.Err? <==> key !in entryDict.entries
      ensures r.Err? ==> r == Err(KeyError)
      ensures r.Ok? ==> r.value.entryLabel == key
    {
      Lookup(entryDict, key)
    }

    /** `extract_list(label_list)`: a new bibliography with the requested entries, in the requested order. */
    method ExtractList(labels: seq<string>) returns (r: Result<CodeBibtex>)
      ensures r.Err? <==> Extracted(entryDict, labels).Err?
      ensures r.Err? ==> r == Err(KeyError)
      ensures r.Ok? ==> (fresh(r.value) && r.value.clean == clean
        && r.value.givenText == "\n" + Join(Extracted(entryDict, labels).value, "\n"))
    {
      ExtractedSpec(entryDict, labels);
      var texts := ExtractTexts(entryDict, labels);
      if texts.Err? {
        return Err(KeyError);
      }
      var c := new CodeBibtex(Join(texts.value, "\n"), clean);
      return Ok(c);
    }

    /**
     * `self + other`: the other side's entries go into this side's own
     * dictionary, which `__add__` changes in place; a conflict raises
     * NameError and leaves the entries merged so far in it.
     */
    method Add(other: CodeBibtex) returns (r: Result<CodeBibtex>)
      requires Valid() && other.Valid()
      modifies this
      ensures Valid()
      ensures entryDict == Merge(old(entryDict), old(Values(other.entryDict))).dict
      ensures givenText == old(givenText) && textBrut == old(textBrut) && entryList == old(entryList)
      ensures r.Err? <==> Merge(old(entryDict), old(Values(other.entryDict))).conflict
      ensures r.Err? ==> r == Err(NameError)
      ensures r.Ok? ==> (fresh(r.value) && r.value.clean == clean
        && r.value.givenText == "\n" + Join(Texts(Values(entryDict)), "\n"))
    {
      var es := Values(other.entryDict);
      ValuesLabels(other.entryDict);
      MergeSpec(entryDict, es);
      var m := MergeLoop(entryDict, es);
      entryDict := m.dict;
      if m.conflict {
        return Err(NameError);
      }
      var c := EntryListToCodeBibtex(Values(entryDict), clean);
      return Ok(c);
    }
  }

  /** `EntryListToCodeBibtex(l)`: the bibliography of the entries' texts joined by newlines. */
  method EntryListToCodeBibtex(l: seq<BibtexEntry>, clean: string -> string) returns (c: CodeBibtex)
    ensures fresh(c) && c.clean == clean && c.givenText == "\n" + Join(Texts(l), "\n")
    ensures c.entryList == Entries(clean("\n" + Join(Texts(l), "\n")))
  {
    c := new CodeBibtex(Join(Texts(l), "\n"), clean);
  }

  /**
   * Rebuilding a bibliography from its own entries, with a cleaning that
   * leaves the text as it is, gives the same entry texts back.
   */
  lemma RebuildFromEntries(textBrut: string)
    ensures Texts(Entries("\n" + Join(Texts(Entries(textBrut)), "\n"))) == Texts(Entries(textBrut))
  {
    EntriesShaped(textBrut);
    EntriesOfJoined(Texts(Entries(textBrut)));
  }
}
