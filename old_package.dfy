/**
 * What __init__.py adds to the older parser: the `arguments_list` of an
 * occurrence, `Occurrence_newlabel`, and a `CodeLaTeX` class that carries a
 * file name, caches its table of definitions for good, and substitutes
 * `\input{...}` uses by the content of a file. Its scanner writes
 * `as_written` with one more backslash than the text holds.
 */
module OldPackage {
  import opened PyStr
  import opened OldParser
  import OldText
  import OldCode
  import OccurrenceModel

  // ---------------------------------------------------------------------
  // Occurrence.arguments_list

  /** `arguments_list`: the text of every `(text, kind)` argument, in order. */
  function ArgumentsList(o: OldOccurrence): (r: seq<string>)
    ensures |r| == |o.arguments|
    ensures forall i :: 0 <= i < |r| ==> r[i] == o.arguments[i].text
  {
    seq(|o.arguments|, i requires 0 <= i < |o.arguments| => o.arguments[i].text)
  }

  /**
   * For the occurrence that the scanner builds from what `SearchArguments`
   * found, `arguments_list` has one text per argument, and each of them
   * occurs in the occurrence's `as_written`.
   */
  lemma {:induction false} ArgumentsListWritten(remaining: string, n: nat, name: string)
    ensures match SearchArgumentsOf(remaining, n)
      case Err(_) => true
      case Ok((a, w)) =>
        var o := OldOccurrence(name, a, name + w);
        var l := ArgumentsList(o);
        |l| == |a| && forall i :: 0 <= i < |l| ==> Occurs(o.asWritten, l[i])
  {
    SearchArgumentsTexts(remaining, n);
    match SearchArgumentsOf(remaining, n)
    case Err(_) =>
    case Ok((a, w)) =>
      var l := ArgumentsList(OldOccurrence(name, a, name + w));
      forall i | 0 <= i < |l| ensures Occurs(name + w, l[i]) {
        assert (name + w)[|name|..] == w;
        OccursInSuffix(name + w, |name|, l[i]);
      }
  }

  // ---------------------------------------------------------------------
  // Occurrence_newlabel

  /**
   * `Occurrence_newlabel`: the definition of `\newlabel` itself (no
   * argument, every field `None`), or a label with the five groups of its
   * second argument.
   */
  datatype NewLabel =
    | Definition
    | Label(name: string, value: string, page: string, sectionName: string, fourth: string, fifth: string)

  /** `\relax`, removed from the section name. */
  const Relax: string := "\\relax"

  /**
   * `Occurrence_newlabel(occurrence)`: the second argument is read as five
   * groups; a missing second argument or fewer than five groups raise
   * IndexError.
   */
  function NewLabelOf(o: OldOccurrence): Result<NewLabel>
  {
    if |o.arguments| == 0 then Ok(Definition)
    else if |o.arguments| < 2 then Err(IndexError)
    else match SearchArgumentsOf(o.arguments[1].text, 5)
      case Err(e) => Err(e)
      case Ok((groups, _)) =>
        if |groups| < 5 then Err(IndexError)
        else Ok(Label(o.arguments[0].text, groups[0].text, groups[1].text, Replace(groups[2].text, Relax, ""), groups[3].text, groups[4].text))
  }

  /**
   * An occurrence without argument is the definition; with one argument
   * it raises IndexError; a label comes from exactly five groups of the
   * second argument, the third one (the section name) without `\relax`.
   */
  lemma {:induction false} NewLabelSpec(o: OldOccurrence)
    ensures NewLabelOf(o) == Ok(Definition) <==> |o.arguments| == 0
    ensures |o.arguments| == 1 ==> NewLabelOf(o) == Err(IndexError)
    ensures NewLabelOf(o).Ok? && NewLabelOf(o).value.Label? ==>
      var l := NewLabelOf(o).value;
      && |o.arguments| >= 2
      && l.name == o.arguments[0].text
      && SearchArgumentsOf(o.arguments[1].text, 5).Ok?
      && var groups := SearchArgumentsOf(o.arguments[1].text, 5).value.0;
      && |groups| == 5
      && l.value == groups[0].text && l.page == groups[1].text
      && l.fourth == groups[3].text && l.fifth == groups[4].text
      && (!Contains(groups[2].text, Relax) ==> l.sectionName == groups[2].text)
  {
    if |o.arguments| >= 2 {
      var found := SearchArgumentsOf(o.arguments[1].text, 5);
      SearchArgumentsShape(o.arguments[1].text, 5);
      if found.Ok? && |found.value.0| >= 5 && !Contains(found.value.0[2].text, Relax) {
        ReplaceAbsent(found.value.0[2].text, Relax, "");
      }
    }
  }

  // ---------------------------------------------------------------------
  // dict_of_definition_macros, cached for good

  /** The table of definitions, found by this file's scanner. */
  function DefinitionsOf(twc: string): Result<map<string, OldCode.NewCommand>>
  {
    OldCode.DefinitionsFrom(twc, DefinitionCommands, map[], "\\")
  }

  /**
   * One call of `dict_of_definition_macros` with the cached table `cache`:
   * a filled cache is returned as it is, otherwise the table is built,
   * stored and returned.
   */
  function CachedDictCall(cache: map<string, OldCode.NewCommand>, twc: string): (Result<map<string, OldCode.NewCommand>>, map<string, OldCode.NewCommand>)
  {
    if cache != map[] then (Ok(cache), cache)
    else match DefinitionsOf(twc)
      case Err(e) => (Err(e), cache)
      case Ok(d) => (Ok(d), d)
  }

  /**
   * Calling `dict_of_definition_macros` again answers what the previous
   * call answered, and the answer is the cache it leaves.
   */
  lemma {:induction false} CachedDictStable(cache: map<string, OldCode.NewCommand>, twc: string)
    requires cache == map[] || DefinitionsOf(twc) == Ok(cache)
    ensures var (first, after) := CachedDictCall(cache, twc);
      first.Ok? ==> first.value == after && CachedDictCall(after, twc).0 == first
  {
    if cache == map[] && DefinitionsOf(twc).Ok? {
      var d := DefinitionsOf(twc).value;
      assert CachedDictCall(cache, twc) == (Ok(d), d);
      if d == map[] {
        assert CachedDictCall(d, twc) == (Ok(d), d);
      }
    }
  }

  // ---------------------------------------------------------------------
  // substitute_input

  /**
   * The text that replaces the uses: the given text, or the content of the
   * file named by the `.tex` rule of `Occurrence_input` in `files` (the
   * files that can be opened), or none when opening fails.
   */
  function ContentOf(filename: string, text: Option<string>, files: map<string, string>): Option<string>
  {
    if text.Some? then text
    else if OccurrenceModel.StrictFilename(filename) in files then Some(files[OccurrenceModel.StrictFilename(filename)])
    else None
  }

  /** The `as_written` this file's scanner gives a use of `\input`: a backslash, then the name. */
  const DoubleInput: string := "\\" + OldCode.Input

  /** `k` newlines. */
  function Newlines(k: nat): (r: string)
    ensures |r| == k && forall i :: 0 <= i < k ==> r[i] == '\n'
  {
    if k == 0 then "" else "\n" + Newlines(k - 1)
  }

  /** A text holding a word holds every prefix of it. */
  lemma {:induction false} ContainsPrefix(t: string, x: string, p: string)
    requires Contains(t, x) && StartsWith(x, p)
    ensures Contains(t, p)
  {
    ContainsIff(t, x);
    var j :| OccursAt(t, x, j);
    assert t[j..j + |p|] == x[..|p|];
    assert OccursAt(t, p, j);
    ContainsIff(t, p);
  }

  /**
   * Replacing targets that all start with `\\input` in a text without
   * `\\input` changes nothing but the newline `replace` adds after the
   * last line, once per target.
   */
  lemma {:induction false} SubstitutedUnchanged(t: string, targets: seq<string>, b: string)
    requires !Contains(t, DoubleInput)
    requires forall i :: 0 <= i < |targets| ==> StartsWith(targets[i], DoubleInput)
    ensures OldCode.SubstitutedText(t, targets, b) == t + Newlines(|targets|)
    decreases |targets|
  {
    if |targets| > 0 {
      var a := targets[0];
      if Contains(t, a) {
        ContainsPrefix(t, a, DoubleInput);
      }
      OldText.ReplaceWithoutTarget(t, a, b);
      OldText.NotFoundAfterNewline(t, DoubleInput);
      forall i | 0 <= i < |targets[1..]| ensures StartsWith(targets[1..][i], DoubleInput) {
        assert targets[1..][i] == targets[i + 1];
      }
      SubstitutedUnchanged(t + "\n", targets[1..], b);
      assert t + "\n" + Newlines(|targets| - 1) == t + Newlines(|targets|);
    }
  }

  /**
   * Every use this file's scanner finds of `\input` has an `as_written`
   * starting with `\\input`, so in a text without `\\input` (that is,
   * without a line break `\\` directly followed by `input`) the
   * substitution replaces nothing: the raw text only gains one newline per
   * use of the file name.
   */
  lemma {:induction false} SubstituteNeverReplaces(textBrut: string, twc: string, filename: string, text: string)
    requires !Contains(textBrut, DoubleInput)
    ensures match OldCode.SubstitutionOf(textBrut, twc, filename, text, "\\")
      case Err(_) => true
      case Ok(t) =>
        var targets := OldCode.InputTargets(UsesFrom(twc, OldCode.Input, 1, "\\").value, filename).value;
        t == textBrut + Newlines(|targets|)
  {
    var found := UsesFrom(twc, OldCode.Input, 1, "\\");
    UsesShape(twc, OldCode.Input, 1, "\\");
    if found.Ok? {
      var uses := found.value;
      OldCode.InputTargetsSpec(uses, filename);
      if OldCode.InputTargets(uses, filename).Ok? {
        var targets := OldCode.InputTargets(uses, filename).value;
        forall i | 0 <= i < |targets| ensures StartsWith(targets[i], DoubleInput) {
          assert targets[i] in targets;
          var k :| OldCode.InputOf(uses, k, filename) && uses[k].asWritten == targets[i];
          assert UseShaped(uses[k], OldCode.Input, 1, "\\");
        }
        SubstitutedUnchanged(textBrut, targets, text);
      }
    }
  }

  // ---------------------------------------------------------------------
  // CodeLaTeX

  /** A LaTeX text with its file name, its comment-stripped copy and the cached table of definitions. */
  class CodeLaTeX {
    /** `text_brut`. */
    const textBrut: string
    /** `text_without_comments`. */
    const textWithoutComments: string
    /** `filename`, `None` when not given. */
    const filename: Option<string>
    /** `_dict_of_definition_macros`, empty until a non-empty table is built. */
    var definitionMacros: map<string, OldCode.NewCommand>

    /** The comment-stripped copy is the stripped raw text. */
    predicate Valid()
    {
      textWithoutComments == OldText.RemoveCommentsOf(textBrut)
    }

    constructor (textBrut: string, filename: Option<string>)
      ensures this.textBrut == textBrut && this.filename == filename
      ensures Valid() && definitionMacros == map[]
    {
      var stripped := OldText.RemoveComments(textBrut);
      this.textBrut := textBrut;
      textWithoutComments := stripped;
      this.filename := filename;
      definitionMacros := map[];
    }

    /** `dict_of_definition_macros()`: the answer and the cache are those of one `CachedDictCall`. */
    method DictOfDefinitionMacros() returns (r: Result<map<string, OldCode.NewCommand>>)
      modifies this
      ensures (r, definitionMacros) == CachedDictCall(old(definitionMacros), textWithoutComments)
    {
      if definitionMacros == map[] {
        var built := OldCode.BuildDefinitions(textWithoutComments, DefinitionCommands, "\\");
        if built.Err? {
          return Err(built.error);
        }
        definitionMacros := built.value;
      }
      return Ok(definitionMacros);
    }

    /** `replace(textA, textB)`: a new object, without file name, on the replaced raw text. */
    method Replace(textA: string, textB: string) returns (c: CodeLaTeX)
      ensures fresh(c) && c.Valid() && c.definitionMacros == map[] && c.filename == None
      ensures c.textBrut == OldText.ReplacedText(textBrut, textA, textB)
    {
      var newText := OldText.ReplaceInText(textBrut, textA, textB);
      c := new CodeLaTeX(newText, None);
    }

    /**
     * `substitute_input(filename, text)`: with no text and a file that
     * cannot be opened, the object itself; otherwise a new object on the
     * substituted raw text, or the error raised.
     */
    method SubstituteInput(filename: string, text: Option<string>, files: map<string, string>) returns (r: Result<CodeLaTeX>)
      ensures ContentOf(filename, text, files).None? ==> r == Ok(this)
      ensures ContentOf(filename, text, files).Some? ==>
        match OldCode.SubstitutionOf(textBrut, textWithoutComments, filename, ContentOf(filename, text, files).value, "\\")
        case Err(e) => r == Err(e)
        case Ok(t) => r.Ok? && fresh(r.value) && r.value.Valid() && r.value.textBrut == t
    {
      var content := text;
      if text.None? {
        var strictFilename := OccurrenceModel.StrictFilename(filename);
        if strictFilename !in files {
          return Ok(this);
        }
        content := Some(files[strictFilename]);
      }
      var uses := SearchUseOfMacro(textWithoutComments, OldCode.Input, 1, "\\");
      if uses.Err? {
        return Err(uses.error);
      }
      var list := OldCode.CollectTargets(uses.value, filename);
      if list.Err? {
        return Err(list.error);
      }
      var targets := list.value;
      var a := new CodeLaTeX(textBrut, None);
      for i := 0 to |targets|
        invariant fresh(a) && a.Valid()
        invariant OldCode.SubstitutedText(textBrut, targets, content.value) == OldCode.SubstitutedText(a.textBrut, targets[i..], content.value)
      {
        assert targets[i..][1..] == targets[i + 1..];
        a := a.Replace(targets[i], content.value);
      }
      return Ok(a);
    }
  }
}
