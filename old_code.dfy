/**
 * The `CodeLaTeX` class of LaTeXparser.py: a LaTeX text kept with its
 * comment-stripped copy, the table of the macros it defines (built from the
 * uses of `\newcommand` and `\renewcommand`, first definition wins, and
 * cached in a field), the comment-respecting `replace`, and the
 * substitution of `\input{...}` uses by a given text.
 */
module OldCode {
  import opened PyStr
  import opened OldParser
  import OldText

  // ---------------------------------------------------------------------
  // Occurrence_newcommand

  /**
   * `Occurrence_newcommand`: the use of the definition command, the defined
   * name (first argument), the number of arguments (the text of the second
   * argument when it is a `[]` group; `None` stands for the default 0) and
   * the definition (last argument).
   */
  datatype NewCommand = NewCommand(occurrence: OldOccurrence, name: string, numberOfArguments: Option<string>, definition: string)

  /** `Occurrence_newcommand(occurrence)`; reading the second argument raises IndexError when there is none. */
  function NewCommandOf(o: OldOccurrence): Result<NewCommand>
  {
    if |o.arguments| < 2 then Err(IndexError)
    else
      var number := if o.arguments[1].kind == "[]" then Some(o.arguments[1].text) else None;
      Ok(NewCommand(o, o.arguments[0].text, number, o.arguments[|o.arguments| - 1].text))
  }

  /**
   * A use of a definition command, scanned with three arguments at most,
   * gives a definition iff it has two or three arguments: the name, the
   * optional `[]` count and the body, which is the last group.
   */
  lemma {:induction false} NewCommandShape(o: OldOccurrence, definer: string, lead: string)
    requires UseShaped(o, definer, 3, lead)
    ensures NewCommandOf(o).Ok? <==> |o.arguments| == 2 || |o.arguments| == 3
    ensures NewCommandOf(o).Ok? ==>
      var c := NewCommandOf(o).value;
      && c.name == o.arguments[0].text
      && (c.numberOfArguments.Some? <==> o.arguments[1].kind == "[]")
      && (c.numberOfArguments.Some? ==> c.numberOfArguments.value == o.arguments[1].text)
      && (|o.arguments| == 2 ==> c.definition == o.arguments[1].text)
      && (|o.arguments| == 3 ==> c.definition == o.arguments[2].text)
  {
  }

  // ---------------------------------------------------------------------
  // dict_of_definition_macros

  /** The name a definition command defines; the argument count is checked by `NewCommandOf` first. */
  function DefinedName(o: OldOccurrence): string
    requires |o.arguments| >= 1
  {
    o.arguments[0].text
  }

  /** Every use has the two arguments `Occurrence_newcommand` reads. */
  predicate AllDefinitions(uses: seq<OldOccurrence>)
  {
    forall i :: 0 <= i < |uses| ==> |uses[i].arguments| >= 2
  }

  /** The use at `i` is the first to define its name, and the name was not in `d` before. */
  predicate FirstDefinition(d: map<string, NewCommand>, uses: seq<OldOccurrence>, i: nat)
    requires i < |uses| && AllDefinitions(uses)
  {
    && DefinedName(uses[i]) !in d
    && forall j :: 0 <= j < i ==> DefinedName(uses[j]) != DefinedName(uses[i])
  }

  /**
   * The inner loop of `dict_of_definition_macros` over the uses of one
   * definition command: a name already in the table is only reported.
   */
  function AddDefinitions(d: map<string, NewCommand>, uses: seq<OldOccurrence>): Result<map<string, NewCommand>>
    decreases |uses|
  {
    if |uses| == 0 then Ok(d)
    else match NewCommandOf(uses[0])
      case Err(e) => Err(e)
      case Ok(c) => AddDefinitions(if c.name in d then d else d[c.name := c], uses[1..])
  }

  /** Adding the uses fails, with IndexError, iff some use lacks its second argument. */
  lemma {:induction false} AddDefinitionsError(d: map<string, NewCommand>, uses: seq<OldOccurrence>)
    ensures AddDefinitions(d, uses).Ok? <==> AllDefinitions(uses)
    ensures AddDefinitions(d, uses).Err? ==> AddDefinitions(d, uses).error == IndexError
    decreases |uses|
  {
    if |uses| > 0 && |uses[0].arguments| >= 2 {
      var c := NewCommandOf(uses[0]).value;
      AddDefinitionsError(if c.name in d then d else d[c.name := c], uses[1..]);
      if AllDefinitions(uses[1..]) {
        forall i | 0 <= i < |uses| ensures |uses[i].arguments| >= 2 {
          if i > 0 {
            assert uses[i] == uses[1..][i - 1];
          }
        }
      } else {
        var i :| 0 <= i < |uses[1..]| && |uses[1..][i].arguments| < 2;
        assert uses[i + 1] == uses[1..][i];
      }
    }
  }

  /** The entries already in the table are never replaced. */
  lemma {:induction false} AddDefinitionsKeeps(d: map<string, NewCommand>, uses: seq<OldOccurrence>)
    requires AddDefinitions(d, uses).Ok?
    ensures forall k :: k in d ==> k in AddDefinitions(d, uses).value && AddDefinitions(d, uses).value[k] == d[k]
    decreases |uses|
  {
    if |uses| > 0 {
      var c := NewCommandOf(uses[0]).value;
      AddDefinitionsKeeps(if c.name in d then d else d[c.name := c], uses[1..]);
    }
  }

  /** The table holds the names it had and the defined names, and nothing else. */
  lemma {:induction false} AddDefinitionsNames(d: map<string, NewCommand>, uses: seq<OldOccurrence>)
    requires AddDefinitions(d, uses).Ok?
    ensures AllDefinitions(uses)
    ensures forall i :: 0 <= i < |uses| ==> DefinedName(uses[i]) in AddDefinitions(d, uses).value
    ensures forall k :: k in AddDefinitions(d, uses).value ==> k in d || exists i :: 0 <= i < |uses| && DefinedName(uses[i]) == k
    decreases |uses|
  {
    AddDefinitionsError(d, uses);
    if |uses| > 0 {
      var c := NewCommandOf(uses[0]).value;
      var d1 := if c.name in d then d else d[c.name := c];
      var r := AddDefinitions(d1, uses[1..]).value;
      assert AddDefinitions(d, uses).value == r;
      AddDefinitionsNames(d1, uses[1..]);
      AddDefinitionsKeeps(d1, uses[1..]);
      forall i | 0 <= i < |uses| ensures DefinedName(uses[i]) in r {
        if i > 0 {
          assert uses[i] == uses[1..][i - 1];
        }
      }
      forall k | k in r ensures k in d || exists i :: 0 <= i < |uses| && DefinedName(uses[i]) == k {
        if k !in d1 {
          var i :| 0 <= i < |uses[1..]| && DefinedName(uses[1..][i]) == k;
          assert uses[i + 1] == uses[1..][i];
        } else if k !in d {
          assert DefinedName(uses[0]) == k;
        }
      }
    }
  }

  /** First definition wins: a name new to the table gets the definition of its first use. */
  lemma {:induction false} AddDefinitionsFirst(d: map<string, NewCommand>, uses: seq<OldOccurrence>)
    requires AddDefinitions(d, uses).Ok?
    ensures AllDefinitions(uses)
    ensures forall i :: 0 <= i < |uses| && FirstDefinition(d, uses, i) ==>
      && DefinedName(uses[i]) in AddDefinitions(d, uses).value
      && AddDefinitions(d, uses).value[DefinedName(uses[i])] == NewCommandOf(uses[i]).value
    decreases |uses|
  {
    AddDefinitionsError(d, uses);
    if |uses| > 0 {
      var c := NewCommandOf(uses[0]).value;
      var d1 := if c.name in d then d else d[c.name := c];
      var r := AddDefinitions(d1, uses[1..]).value;
      assert AddDefinitions(d, uses).value == r;
      AddDefinitionsFirst(d1, uses[1..]);
      AddDefinitionsKeeps(d1, uses[1..]);
      forall i | 0 <= i < |uses| && FirstDefinition(d, uses, i)
        ensures DefinedName(uses[i]) in r && r[DefinedName(uses[i])] == NewCommandOf(uses[i]).value
      {
        if i > 0 {
          assert uses[i] == uses[1..][i - 1];
          forall j | 0 <= j < i - 1 ensures DefinedName(uses[1..][j]) != DefinedName(uses[i]) {
            assert uses[1..][j] == uses[j + 1];
          }
          assert FirstDefinition(d1, uses[1..], i - 1);
        }
      }
    }
  }

  /** Adding two runs of uses is adding the first, then the second; the first error wins. */
  lemma {:induction false} AddDefinitionsAppend(d: map<string, NewCommand>, u1: seq<OldOccurrence>, u2: seq<OldOccurrence>)
    ensures AddDefinitions(d, u1 + u2) ==
      match AddDefinitions(d, u1)
      case Err(e) => Err(e)
      case Ok(d1) => AddDefinitions(d1, u2)
    decreases |u1|
  {
    if |u1| == 0 {
      assert u1 + u2 == u2;
    } else {
      assert (u1 + u2)[0] == u1[0];
      assert (u1 + u2)[1..] == u1[1..] + u2;
      if |u1[0].arguments| >= 2 {
        var c := NewCommandOf(u1[0]).value;
        AddDefinitionsAppend(if c.name in d then d else d[c.name := c], u1[1..], u2);
      }
    }
  }

  /**
   * The outer loop of `dict_of_definition_macros`: for each definition
   * command in turn, its uses (with three arguments at most) are found and
   * added to the table.
   */
  function DefinitionsFrom(twc: string, definers: seq<string>, d: map<string, NewCommand>, lead: string): Result<map<string, NewCommand>>
    requires forall i :: 0 <= i < |definers| ==> |definers[i]| > 0
    decreases |definers|
  {
    if |definers| == 0 then Ok(d)
    else match UsesFrom(twc, definers[0], 3, lead)
      case Err(e) => Err(e)
      case Ok(uses) =>
        match AddDefinitions(d, uses)
        case Err(e) => Err(e)
        case Ok(d1) => DefinitionsFrom(twc, definers[1..], d1, lead)
  }

  /** The uses of every definition command, in the order of the commands. */
  function ScannedDefinitions(twc: string, definers: seq<string>, lead: string): Result<seq<OldOccurrence>>
    requires forall i :: 0 <= i < |definers| ==> |definers[i]| > 0
    decreases |definers|
  {
    if |definers| == 0 then Ok([])
    else match UsesFrom(twc, definers[0], 3, lead)
      case Err(e) => Err(e)
      case Ok(uses) => Prepend(uses, ScannedDefinitions(twc, definers[1..], lead))
  }

  /**
   * When the table is built, it is the table of all the uses of the
   * definition commands taken in order; and it is built whenever scanning
   * and adding all those uses succeed.
   */
  lemma {:induction false} DefinitionsInOrder(twc: string, definers: seq<string>, d: map<string, NewCommand>, lead: string)
    requires forall i :: 0 <= i < |definers| ==> |definers[i]| > 0
    ensures DefinitionsFrom(twc, definers, d, lead).Ok? <==>
      (ScannedDefinitions(twc, definers, lead).Ok? && AddDefinitions(d, ScannedDefinitions(twc, definers, lead).value).Ok?)
    ensures DefinitionsFrom(twc, definers, d, lead).Ok? ==>
      DefinitionsFrom(twc, definers, d, lead) == AddDefinitions(d, ScannedDefinitions(twc, definers, lead).value)
    decreases |definers|
  {
    if |definers| > 0 {
      var found := UsesFrom(twc, definers[0], 3, lead);
      if found.Ok? {
        var rest := ScannedDefinitions(twc, definers[1..], lead);
        if AddDefinitions(d, found.value).Ok? {
          var d1 := AddDefinitions(d, found.value).value;
          DefinitionsInOrder(twc, definers[1..], d1, lead);
          if rest.Ok? {
            AddDefinitionsAppend(d, found.value, rest.value);
          }
        } else if rest.Ok? {
          AddDefinitionsAppend(d, found.value, rest.value);
        }
      }
    }
  }

  /** The table `dict_of_definition_macros` builds from the comment-stripped text. */
  function DefinitionsOf(twc: string): Result<map<string, NewCommand>>
  {
    DefinitionsFrom(twc, DefinitionCommands, map[], "")
  }

  /**
   * One call of `dict_of_definition_macros` with the cached table `cache`:
   * the answer and the cache afterwards. The table is built only when the
   * cache is empty, and the `return` sits inside that branch, so a call
   * that finds the cache filled answers `None`.
   */
  function DictCall(cache: map<string, NewCommand>, twc: string): (Result<Option<map<string, NewCommand>>>, map<string, NewCommand>)
  {
    if cache != map[] then (Ok(None), cache)
    else match DefinitionsOf(twc)
      case Err(e) => (Err(e), cache)
      case Ok(d) => (Ok(Some(d)), d)
  }

  /**
   * Calling `dict_of_definition_macros` twice: once a non-empty table has
   * been built, the second call answers `None`; an empty table is not
   * cached and is built again.
   */
  lemma {:induction false} DictSecondCallNone(twc: string)
    ensures var (first, cache) := DictCall(map[], twc);
      first.Ok? && first.value.Some? ==>
        (first.value.value != map[] ==> DictCall(cache, twc).0 == Ok(None))
        && (first.value.value == map[] ==> DictCall(cache, twc).0 == first)
  {
  }

  /**
   * The table the first call returns holds exactly the names defined by
   * the uses of the definition commands, each with its first definition.
   */
  lemma {:induction false} DefinitionsFirstWins(twc: string)
    requires DefinitionsOf(twc).Ok?
    ensures ScannedDefinitions(twc, DefinitionCommands, "").Ok?
    ensures var uses := ScannedDefinitions(twc, DefinitionCommands, "").value;
      && AllDefinitions(uses)
      && (forall k :: k in DefinitionsOf(twc).value <==> exists i :: 0 <= i < |uses| && DefinedName(uses[i]) == k)
      && (forall i :: 0 <= i < |uses| && FirstDefinition(map[], uses, i) ==>
            && DefinedName(uses[i]) in DefinitionsOf(twc).value
            && DefinitionsOf(twc).value[DefinedName(uses[i])] == NewCommandOf(uses[i]).value)
  {
    DefinitionsInOrder(twc, DefinitionCommands, map[], "");
    var uses := ScannedDefinitions(twc, DefinitionCommands, "").value;
    AddDefinitionsNames(map[], uses);
    AddDefinitionsFirst(map[], uses);
  }

  /** The inner loop of `dict_of_definition_macros`, written as in the class. */
  method AddUses(d0: map<string, NewCommand>, uses: seq<OldOccurrence>) returns (r: Result<map<string, NewCommand>>)
    ensures r == AddDefinitions(d0, uses)
  {
    var dico := d0;
    for i := 0 to |uses|
      invariant AddDefinitions(d0, uses) == AddDefinitions(dico, uses[i..])
    {
      assert uses[i..][1..] == uses[i + 1..];
      var newcommand := NewCommandOf(uses[i]);
      if newcommand.Err? {
        return Err(newcommand.error);
      }
      var name := newcommand.value.name;
      if name !in dico {
        dico := dico[name := newcommand.value];
      }
    }
    assert uses[|uses|..] == [];
    return Ok(dico);
  }

  // ---------------------------------------------------------------------
  // substitute_input

  /** The name searched by `substitute_input`. */
  const Input: string := "\\input"

  /**
   * The loop of `substitute_input` over the uses of `\input`: the
   * `as_written` of every use whose first argument (the `filename` of
   * `Occurrence_input`) is `filename`, in order; a use without argument
   * raises IndexError.
   */
  function InputTargets(uses: seq<OldOccurrence>, filename: string): Result<seq<string>>
    decreases |uses|
  {
    if |uses| == 0 then Ok([])
    else if |uses[0].arguments| == 0 then Err(IndexError)
    else
      var here := if uses[0].arguments[0].text == filename then [uses[0].asWritten] else [];
      Prepend(here, InputTargets(uses[1..], filename))
  }

  /** The use at `i` is an `\input` of `filename`. */
  predicate InputOf(uses: seq<OldOccurrence>, i: int, filename: string)
  {
    0 <= i < |uses| && |uses[i].arguments| >= 1 && uses[i].arguments[0].text == filename
  }

  /**
   * The targets are the `as_written` of exactly the uses of `filename`, and
   * the search fails, with IndexError, iff some use has no argument.
   */
  lemma {:induction false} InputTargetsSpec(uses: seq<OldOccurrence>, filename: string)
    ensures InputTargets(uses, filename).Ok? <==> forall i :: 0 <= i < |uses| ==> |uses[i].arguments| >= 1
    ensures InputTargets(uses, filename).Err? ==> InputTargets(uses, filename).error == IndexError
    ensures InputTargets(uses, filename).Ok? ==>
      forall t :: t in InputTargets(uses, filename).value <==> exists i :: InputOf(uses, i, filename) && uses[i].asWritten == t
    decreases |uses|
  {
    if |uses| > 0 && |uses[0].arguments| >= 1 {
      var rest := InputTargets(uses[1..], filename);
      InputTargetsSpec(uses[1..], filename);
      if rest.Ok? {
        forall i | 0 <= i < |uses| ensures |uses[i].arguments| >= 1 {
          if i > 0 {
            assert uses[i] == uses[1..][i - 1];
          }
        }
        var ts := InputTargets(uses, filename).value;
        forall t ensures t in ts <==> exists i :: InputOf(uses, i, filename) && uses[i].asWritten == t {
          if t in rest.value {
            var i :| InputOf(uses[1..], i, filename) && uses[1..][i].asWritten == t;
            assert InputOf(uses, i + 1, filename) && uses[i + 1].asWritten == t;
          }
          if exists i :: InputOf(uses, i, filename) && uses[i].asWritten == t {
            var i :| InputOf(uses, i, filename) && uses[i].asWritten == t;
            if i > 0 {
              assert uses[i] == uses[1..][i - 1];
              assert InputOf(uses[1..], i - 1, filename);
            }
          }
        }
      } else {
        var i :| 0 <= i < |uses[1..]| && |uses[1..][i].arguments| < 1;
        assert uses[i + 1] == uses[1..][i];
      }
    }
  }

  /** No target is collected iff no use names `filename`. */
  lemma {:induction false} InputTargetsEmpty(uses: seq<OldOccurrence>, filename: string)
    requires InputTargets(uses, filename).Ok?
    ensures |InputTargets(uses, filename).value| == 0 <==> forall i :: !InputOf(uses, i, filename)
    decreases |uses|
  {
    if |uses| > 0 {
      InputTargetsEmpty(uses[1..], filename);
      if forall i :: !InputOf(uses[1..], i, filename) {
        forall i | InputOf(uses, i, filename) && i > 0 ensures InputOf(uses[1..], i - 1, filename) {
          assert uses[i] == uses[1..][i - 1];
        }
        if InputOf(uses, 0, filename) {
          assert InputTargets(uses, filename).value == [uses[0].asWritten] + InputTargets(uses[1..], filename).value;
        } else {
          assert InputTargets(uses, filename).value == InputTargets(uses[1..], filename).value;
        }
      } else {
        var i :| InputOf(uses[1..], i, filename);
        assert uses[i + 1] == uses[1..][i];
        assert InputOf(uses, i + 1, filename);
      }
    }
  }

  /** The loop `A = A.replace(as_written, text)` over the targets, on the raw text. */
  function SubstitutedText(textBrut: string, targets: seq<string>, text: string): string
    decreases |targets|
  {
    if |targets| == 0 then textBrut
    else SubstitutedText(OldText.ReplacedText(textBrut, targets[0], text), targets[1..], text)
  }

  /**
   * The raw text of the object `substitute_input(filename, text)` returns:
   * the uses of `\input` (one argument) are searched in the
   * comment-stripped text `twc`, with `lead` before the name in
   * `as_written`, and the targets naming `filename` are replaced in turn.
   */
  function SubstitutionOf(textBrut: string, twc: string, filename: string, text: string, lead: string): Result<string>
  {
    match UsesFrom(twc, Input, 1, lead)
    case Err(e) => Err(e)
    case Ok(uses) =>
      match InputTargets(uses, filename)
      case Err(e) => Err(e)
      case Ok(targets) => Ok(SubstitutedText(textBrut, targets, text))
  }

  /** With no `\input` of `filename`, the substituted text is the raw text itself. */
  lemma {:induction false} SubstituteNothing(textBrut: string, twc: string, filename: string, text: string, lead: string)
    requires UsesFrom(twc, Input, 1, lead).Ok?
    requires forall i :: !InputOf(UsesFrom(twc, Input, 1, lead).value, i, filename)
    requires forall i :: 0 <= i < |UsesFrom(twc, Input, 1, lead).value| ==> |UsesFrom(twc, Input, 1, lead).value[i].arguments| >= 1
    ensures SubstitutionOf(textBrut, twc, filename, text, lead) == Ok(textBrut)
  {
    var uses := UsesFrom(twc, Input, 1, lead).value;
    InputTargetsSpec(uses, filename);
    InputTargetsEmpty(uses, filename);
  }

  /**
   * With `as_written` made of the name and the consumed text, as in this
   * file, the target of every `\input{filename}` use (a `{}` argument)
   * occurs in the comment-stripped text that was scanned.
   */
  lemma {:induction false} SubstituteTargetsWritten(twc: string, filename: string)
    requires UsesFrom(twc, Input, 1, "").Ok?
    ensures var uses := UsesFrom(twc, Input, 1, "").value;
      forall i :: InputOf(uses, i, filename) && AllBraces(uses[i]) ==> Occurs(twc, uses[i].asWritten)
  {
    UsesWrittenInText(twc, Input, 1);
  }

  /**
   * With a single target, on a raw text of one line without `%` that holds
   * it, the substitution happens: the first occurrence of the target is
   * replaced by the text (and the later ones as `str.replace` does), and
   * the line gets its newline.
   */
  lemma {:induction false} SubstituteSingleTarget(textBrut: string, twc: string, filename: string, text: string, lead: string, target: string)
    requires Free(textBrut, '\n') && Free(textBrut, '%') && |target| > 0 && Contains(textBrut, target)
    requires UsesFrom(twc, Input, 1, lead).Ok? && InputTargets(UsesFrom(twc, Input, 1, lead).value, filename) == Ok([target])
    ensures var i := Find(textBrut, target);
      0 <= i && i + |target| <= |textBrut|
      && SubstitutionOf(textBrut, twc, filename, text, lead) == Ok(textBrut[..i] + text + Replace(textBrut[i + |target|..], target, text) + "\n")
  {
    OldText.ReplaceFirstOccurrence(textBrut, target, text);
    assert SubstitutedText(textBrut, [target], text) == SubstitutedText(OldText.ReplacedText(textBrut, target, text), [], text);
  }

  /**
   * A target that spans a line break of the raw text (`\input` and its
   * argument on two lines) is found in the comment-stripped text but never
   * replaced: the substitution only ends the text with a newline.
   */
  lemma {:induction false} SubstituteAcrossLines(textBrut: string, twc: string, filename: string, text: string, lead: string, target: string)
    requires !Free(target, '\n')
    requires UsesFrom(twc, Input, 1, lead).Ok? && InputTargets(UsesFrom(twc, Input, 1, lead).value, filename) == Ok([target])
    ensures SubstitutionOf(textBrut, twc, filename, text, lead) == Ok(textBrut + "\n")
  {
    OldText.ReplaceAcrossLines(textBrut, target, text);
    assert SubstitutedText(textBrut, [target], text) == SubstitutedText(OldText.ReplacedText(textBrut, target, text), [], text);
  }

  // ---------------------------------------------------------------------
  // CodeLaTeX

  /** A LaTeX text, its comment-stripped copy and the cached table of definitions. */
  class CodeLaTeX {
    /** `text_brut`: the text as given. */
    const textBrut: string
    /** `text_without_comments`. */
    const textWithoutComments: string
    /** `_dict_of_definition_macros`, empty until the table is built. */
    var definitionMacros: map<string, NewCommand>

    /** The comment-stripped copy is the stripped raw text. */
    predicate Valid()
    {
      textWithoutComments == OldText.RemoveCommentsOf(textBrut)
    }

    constructor (textBrut: string)
      ensures this.textBrut == textBrut && Valid() && definitionMacros == map[]
    {
      var stripped := OldText.RemoveComments(textBrut);
      this.textBrut := textBrut;
      textWithoutComments := stripped;
      definitionMacros := map[];
    }

    /** `dict_of_definition_macros()`: the answer and the cache are those of one `DictCall`. */
    method DictOfDefinitionMacros() returns (r: Result<Option<map<string, NewCommand>>>)
      modifies this
      ensures (r, definitionMacros) == DictCall(old(definitionMacros), textWithoutComments)
    {
      if definitionMacros != map[] {
        return Ok(None);
      }
      var built := BuildDefinitions(textWithoutComments, DefinitionCommands, "");
      if built.Err? {
        return Err(built.error);
      }
      definitionMacros := built.value;
      return Ok(Some(built.value));
    }

    /** `replace(textA, textB)`: a new object built on the replaced raw text. */
    method Replace(textA: string, textB: string) returns (c: CodeLaTeX)
      ensures fresh(c) && c.Valid() && c.definitionMacros == map[]
      ensures c.textBrut == OldText.ReplacedText(textBrut, textA, textB)
    {
      var newText := OldText.ReplaceInText(textBrut, textA, textB);
      c := new CodeLaTeX(newText);
    }

    /** `substitute_input(filename, text)`: a new object on the substituted raw text, or the error raised. */
    method SubstituteInput(filename: string, text: string) returns (r: Result<CodeLaTeX>)
      ensures r.Ok? ==> fresh(r.value) && r.value.Valid() && r.value.definitionMacros == map[]
      ensures match SubstitutionOf(textBrut, textWithoutComments, filename, text, "")
        case Err(e) => r == Err(e)
        case Ok(t) => r.Ok? && r.value.textBrut == t
    {
      var uses := SearchUseOfMacro(textWithoutComments, Input, 1, "");
      if uses.Err? {
        return Err(uses.error);
      }
      var list := CollectTargets(uses.value, filename);
      if list.Err? {
        return Err(list.error);
      }
      var targets := list.value;
      var a := new CodeLaTeX(textBrut);
      for i := 0 to |targets|
        invariant fresh(a) && a.Valid() && a.definitionMacros == map[]
        invariant SubstitutedText(textBrut, targets, text) == SubstitutedText(a.textBrut, targets[i..], text)
      {
        assert targets[i..][1..] == targets[i + 1..];
        a := a.Replace(targets[i], text);
      }
      return Ok(a);
    }
  }

  /** The two loops of `dict_of_definition_macros` over the definition commands and their uses. */
  method BuildDefinitions(twc: string, definers: seq<string>, lead: string) returns (r: Result<map<string, NewCommand>>)
    requires forall i :: 0 <= i < |definers| ==> |definers[i]| > 0
    ensures r == DefinitionsFrom(twc, definers, map[], lead)
  {
    var dico: map<string, NewCommand> := map[];
    for j := 0 to |definers|
      invariant DefinitionsFrom(twc, definers, map[], lead) == DefinitionsFrom(twc, definers[j..], dico, lead)
    {
      assert definers[j..][0] == definers[j] && definers[j..][1..] == definers[j + 1..];
      var uses := SearchUseOfMacro(twc, definers[j], 3, lead);
      if uses.Err? {
        return Err(uses.error);
      }
      var added := AddUses(dico, uses.value);
      if added.Err? {
        return Err(added.error);
      }
      dico := added.value;
    }
    return Ok(dico);
  }

  /** The loop of `substitute_input` that collects the targets. */
  method CollectTargets(uses: seq<OldOccurrence>, filename: string) returns (r: Result<seq<string>>)
    ensures r == InputTargets(uses, filename)
  {
    var list: seq<string> := [];
    assert uses[0..] == uses;
    PrependNothing(InputTargets(uses, filename));
    for i := 0 to |uses|
      invariant InputTargets(uses, filename) == Prepend(list, InputTargets(uses[i..], filename))
    {
      assert uses[i..][1..] == uses[i + 1..];
      if |uses[i].arguments| == 0 {
        return Err(IndexError);
      }
      var here := if uses[i].arguments[0].text == filename then [uses[i].asWritten] else [];
      PrependTwice(list, here, InputTargets(uses[i + 1..], filename));
      list := list + here;
    }
    assert uses[|uses|..] == [];
    assert list + [] == list;
    return Ok(list);
  }
}
