# pytex core, modelled in Dafny

pytex is a toolbox for LaTeX sources. Its core finds the uses of a macro in a
LaTeX text and edits them in place.

The macro engine comes in two generations:

- **Newer engine** (`src/MacroUse.py` and `Occurrence.py`). It walks the text
  with index ("turtle") loops. It matches braces by depth and skips
  separators and `%` comments between arguments. It tells uses from
  `\newcommand{\X}` definitions. For each use it returns an `Occurrence`
  object holding the arguments, the text as written and the position.
  An occurrence can read its separators back (`configuration`) and re-render
  itself with one argument changed (`change_argument`).
- **Older engine** (`LaTeXparser.py` and `__init__.py`). It extracts
  arguments by compacting the text. Each argument is a `(text, "{}"|"[]")`
  pair. Its `CodeLaTeX` object keeps a comment-stripped copy of the raw text.
  It offers a comment-respecting `replace`, a table of macro definitions
  (first definition wins) and `\input` substitution.

Around the engine sit the rest of the modelled code:

- the comment strippers of `src/utilities.py` and `src/Utilities.py`;
- the BibTeX objects of `src/__init__.py`;
- the `.aux`-to-`.bbl` pipeline of `create_bbl.py`;
- the plugins of `src/PytexTools.py`:
  - the tag filters `PytexOnlyIn` and `PytexNotIn`;
  - `CodeBox.put`;
  - the `% SCRIPT MARK` partition and `keep_script_marks`;
  - the `Array` LaTeX renderer;
  - the file-change decision of `FileTracking`;
- the LaTeX log readers of `src/log_code.py`, `src/LogCode.py` and `LogCode.py`.

Python's exceptions become a `Result` value: `Ok(v)` or `Err(e)`, where `e`
names the exception (`IndexError`, `KeyError`, `TypeError`, `NameError`,
`AttributeError`, `ValueError`). A Python function that falls off its end
and returns `None` gets its own result. String built-ins (`find`, `split`,
`join`, `replace`, slicing with negative indices, `splitlines`, `strip`,
`lower`) are written out in module `PyStr`.

Code that loops and updates variables is modelled by a method with a loop.
Each such method is proved equal to a recursive specification function. The
properties are proved as lemmas about that function. Objects whose fields
the source updates are classes:

- `Occurrence`, whose argument list is an array shared with `arguments_list`;
- the two `CodeLaTeX` classes with their cached definition tables;
- `CodeBibtex`, whose `__add__` mutates its own dictionary;
- `CodeBox`, `FileTracking`, `Array` and `keep_script_marks`;
- the log reader `LogCode`.

Files:

| file | module | models |
|---|---|---|
| pystr.dfy | PyStr | Python string built-ins |
| comments.dfy | CommentStripper | `RemoveComments` and `is_empty_line` of src/utilities.py and src/Utilities.py |
| macro_use.dfy | MacroUse | src/MacroUse.py |
| scan_properties.dfy | ScanProperties | what `SearchUseOfMacro` of src/MacroUse.py returns |
| occurrence.dfy | OccurrenceModel | Occurrence.py |
| old_parser.dfy | OldParser | `compactization`, `SearchFitBrace`, `SearchArguments`, `SearchUseOfMacro` of LaTeXparser.py and __init__.py |
| old_text.dfy | OldText | the old `RemoveComments` and `CodeLaTeX.replace` |
| old_code.dfy | OldCode | `Occurrence_newcommand` and `CodeLaTeX` of LaTeXparser.py |
| old_package.dfy | OldPackage | `arguments_list`, `Occurrence_newlabel` and `CodeLaTeX` of __init__.py |
| bibtex.dfy | Bibtex | src/__init__.py |
| create_bbl.dfy | CreateBbl | create_bbl.py |
| pytex_tools.dfy | PytexTools | src/PytexTools.py |
| log_warnings.dfy | LogWarnings | chunk parsing, warning lists, overfull-hbox scanner, deduplication, summary |
| log_chunks.dfy | LogChunks | the chunk loop of `search_for_errors` |
| log_code.dfy | LogReader | the `LogCode` classes of src/log_code.py, src/LogCode.py and LogCode.py |

## Model

| member | source | states |
|---|---|---|
| MacroUse.Closer | src/MacroUse.py:27 | The pairs table gives each opening character a closer different from itself. |
| MacroUse.AcceptedChars | src/MacroUse.py:28 | A single character is accepted between arguments iff it is `%`, a newline or a space. The fourth entry is four spaces, not a tab. |
| MacroUse.CompactizationLoop | src/MacroUse.py:30-33 | The loop that removes each accepted string in turn equals the specification `Compactization`. |
| MacroUse.CompactizationRemovesSeparators | src/MacroUse.py:30-33 | With this list, `compactization` removes exactly the `%`, newline and space characters and keeps the others in order. The result holds none of the three. |
| MacroUse.MatchBraceLoop | src/MacroUse.py:36-56 | The depth loop equals the specification `MatchBrace`. |
| MacroUse.SearchFitBrace | src/MacroUse.py:36-56 | `SearchFitBrace` equals `FitBrace`. |
| MacroUse.MatchBraceSpec | src/MacroUse.py:36-56 | The walk starts at the first `opening` at or after `position`. On success: the closer sits at `end`; `inner` is `text[start+1:end]`; depth is back to 0 at `end` and positive strictly inside. When no match is found, the depth never returns to 0. |
| MacroUse.StartPositionSpec | src/MacroUse.py:49-50 | When an `opening` follows `position`, the start index is the first such index. |
| MacroUse.MatchBraceEnters | src/MacroUse.py:49-56 | From its first `opening`, the walk goes on at depth 1 from the next index. |
| MacroUse.WalkFinds | src/MacroUse.py:51-56 | From inside a group, the loop stops at the first index where the depth is 0, and it finds none only when the depth stays positive to the end. |
| MacroUse.FitBraceSpec | src/MacroUse.py:36-56 | `SearchFitBrace` is the depth matcher for the closer in the pairs table. |
| MacroUse.FitBraceWithoutOpening | src/MacroUse.py:48-56 | With no `opening` in the text and `position` 0, the walk starts at index -1, which Python reads as the last character. The "argument" is then the whole text but its last character. |
| MacroUse.ContinueSearch | src/MacroUse.py:58-86 | The turtle loop equals `ContinueSearchOf`. |
| MacroUse.ContinueSearchSound | src/MacroUse.py:58-86 | `(True, k)` is returned only when `s[k]` is the opening character and every earlier character is a space, a newline or inside a `%` comment. Otherwise the offset is -1. |
| MacroUse.ContinueSearchFinds | src/MacroUse.py:58-86 | Spaces and newlines followed by the opening character give `(True, k)` at that character. |
| MacroUse.ContinueSearchUnterminatedComment | src/MacroUse.py:69-78 | A `%` with no later newline ends the search with `(False, -1)`. |
| MacroUse.SearchArguments | src/MacroUse.py:88-126 | The loop equals `SearchArgumentsOf`. |
| MacroUse.NextPass | src/MacroUse.py:106-126 | One pass of the loop body equals `ArgumentPass`. |
| MacroUse.NextAfterArgument | src/MacroUse.py:115-126 | The rest of a pass equals `AfterArgument`. |
| MacroUse.ArgumentPass | src/MacroUse.py:106-126 | A pass that goes on has appended exactly one argument to those found. |
| MacroUse.ArgumentsFromBounds | src/MacroUse.py:104-126 | From any state, a successful search adds at least one argument, keeps those found, stays within the requested count, and its `as_written` is a prefix of the text. |
| MacroUse.SearchArgumentsBounds | src/MacroUse.py:104-126 | A successful `SearchArguments` returns between 1 and `number_of_arguments` arguments, and its `as_written` is a prefix of `s`. |
| MacroUse.SearchArgumentsStopsEarly | src/MacroUse.py:120-126 | When the first argument closes before a character that is neither `{` nor a separator, the search stops there without error, whatever the count. |
| MacroUse.SearchArgumentsFallsOff | src/MacroUse.py:106-126 | Once the count is reached, a `{` right after the last closing brace makes the loop exit without `return`: the result is `None`. |
| MacroUse.ArgumentsFromIntendedSpec | src/MacroUse.py:106-126 | The corrected loop never returns `None`. It agrees with the written loop wherever that one returns a value. Where the written loop falls off, it returns the requested number of arguments. |
| MacroUse.SearchArgumentsIntended | src/MacroUse.py:104-126 | The corrected `SearchArguments` never returns `None` and otherwise returns what the written one returns. |
| MacroUse.CandidateFromSpec | src/MacroUse.py:138-142 | The regular-expression search `name[^A-Za-z@]` finds the leftmost match at or after the start, or reports that there is none. |
| MacroUse.LineStart | src/MacroUse.py:147-149 | `init_line` is at or before the candidate. |
| MacroUse.NextMacroCandidateSpec | src/MacroUse.py:128-155 | `NextMacroCandidate` returns the leftmost index where the name is followed by a character outside `[A-Za-z@]`, or `(False, -1, False)`. The use is flagged in a comment iff a non-backslash followed by `%` lies between the last newline and the name. |
| MacroUse.PatternShift | src/MacroUse.py:150-153 | Searching `[^\\]%` in the slice `remaining[init_line:position]` is searching it in the text between those bounds. |
| MacroUse.NextTurn | src/MacroUse.py:210-231 | One turn of the scan loop equals `TurnAt`. |
| MacroUse.ClassifyUse | src/MacroUse.py:217-231 | For a candidate outside comments, unpacking the arguments (`TypeError` on `None`) and the definition test equal `TurnAt`. |
| MacroUse.TurnAt | src/MacroUse.py:210-231 | A comment candidate moves the turtle forward. A use lies inside the text, at or after the turtle, and its `as_written`, at least as long as the name, ends within the text. |
| MacroUse.CandidateEnd | src/MacroUse.py:214-216 | The turtle after a candidate lies past the name and inside the text. |
| MacroUse.ScanTurn | src/MacroUse.py:210-237 | The scan from a turtle continues from the turn found there, and every turn moves the turtle forward. |
| MacroUse.ScanStepComment | src/MacroUse.py:211-215 | A candidate in a comment is passed over with nothing collected. |
| MacroUse.ScanStepUse | src/MacroUse.py:217-237 | Collecting a use and going on from its end gives the same result as the scan after the turn. |
| MacroUse.NewOccurrence | src/MacroUse.py:224 | The `Occurrence` built for a use is fresh, valid, and holds the use's name, arguments, `as_written` and position. |
| MacroUse.SearchUseOfMacro | src/MacroUse.py:157-242 | A text without the name gives a bare `[]`. Otherwise: the error of the scan, or a result that has a configuration iff `give_configuration` is set, one fresh `Occurrence` per use with the values `ScanFrom` finds, and that configuration. |
| ScanProperties.TurnAtCandidate | src/MacroUse.py:212-231 | A use found from the turtle lies at or after it. Its `as_written` is the text slice at its position and starts with the name. Its definition flag is the test on the compactized `as_written`. |
| ScanProperties.ScanFromUses | src/MacroUse.py:210-237 | Every use a scan keeps is a use of the name in the text, not a definition, and positions strictly increase. Configuration segments number one more than uses. |
| ScanProperties.SearchUseOfMacroUses | src/MacroUse.py:210-241 | The kept occurrences are uses of the name, with `as_written == text[position:position+len(as_written)]` starting with the name. None is a definition, and positions strictly increase. The scan has one more configuration segment than there are uses. |
| ScanProperties.InterleaveFrom | src/MacroUse.py:210-241 | When no candidate from the turtle on is dropped as a definition, the configuration from `config_turtle` has one more segment than there are uses. Interleaved with the uses' `as_written`, it is at least as long as the text from `config_turtle`. It equals that text when the uses lie one after the other, and only then. |
| ScanProperties.ConfigurationComplete | src/MacroUse.py:204-242 | When no candidate is dropped as a definition, the configuration interleaved with the kept uses' `as_written` gives back the text iff no kept use starts inside the `as_written` of the one before it. |
| ScanProperties.NestedUseBreaksConfiguration | src/MacroUse.py:214-231 | On `\Foo{\Foo{a}}` with one argument, the scan resumes right after the outer name and also keeps the nested use. The configuration is `["", "", "}"]`, the two uses overlap, and the interleaving is not the text. |
| ScanProperties.ScanFromIntendedComplete | src/MacroUse.py:204-242 | In the corrected scan, the configuration cursor moves only past kept uses and the search resumes after a kept use's `as_written`. From any turtle it keeps uses of the name that are not definitions, one after the other, and its configuration interleaved with them is the text from the cursor. |
| ScanProperties.SearchUseOfMacroIntended | src/MacroUse.py:204-242 | The corrected `SearchUseOfMacro`: one more segment than uses, the interleaving is the whole text, the uses do not overlap, and each is a use of the name in the text, not a definition. |
| ScanProperties.TurnWithCandidate | src/MacroUse.py:220-231 | A decided use is the name followed by what the argument search consumed, with its definition flag. |
| OccurrenceModel.Occurrence.constructor | Occurrence.py:37-43 | `number_of_arguments` is the length of `arguments`. `arguments_list` is the same array as `arguments`. Name, text and position are stored. |
| OccurrenceModel.Occurrence.GetItem | Occurrence.py:86-87 | Python indexing: succeeds iff `-len <= a < len`, and a non-negative index gives that argument. |
| OccurrenceModel.ConfigurationOf | Occurrence.py:44-68 | `configuration` yields one separator per argument or raises. |
| OccurrenceModel.Occurrence.Configuration | Occurrence.py:44-68 | The loop equals `ConfigurationOf` on the stored text and arguments; on success it gives one separator per argument. |
| OccurrenceModel.SeparatorsOfTail | Occurrence.py:57-68 | Separators read back from a rendered tail, with each braced argument unambiguous, are the separators it was rendered from. |
| OccurrenceModel.ConfigurationRoundTrip | Occurrence.py:54-55 | The docstring's identity: reading the separators off `name + c0 + "{a0}" + c1 + ...` gives back `c0, c1, ...`. This holds when the name does not recur and each braced argument first occurs after its separator and nowhere later. |
| OccurrenceModel.RepeatedArgumentFails | Occurrence.py:57-66 | `\Foo{x}{x}` with arguments `x, x` raises IndexError. |
| OccurrenceModel.FirstSplitRoundTrip | Occurrence.py:57-68 | Corrected reading, cutting at the first copy only: the separators come back whenever each braced argument first occurs right after its separator, repeated arguments included. |
| OccurrenceModel.RepeatedArgumentFirstSplit | Occurrence.py:57-68 | With the corrected reading, `{x}{x}` gives two empty separators. |
| OccurrenceModel.Occurrence.ChangeArgument | Occurrence.py:69-83 | Argument `num` (1-based, read as a Python index) becomes `func(old)` in the shared array, and the other arguments are unchanged. The new occurrence shares that array, keeps name and position, and is rendered from the separators. IndexError for an out-of-range `num`. The configuration's error is passed on. |
| OccurrenceModel.Rebuild | Occurrence.py:77-82 | The loop writes the name followed by each separator and its braced argument, in order. That is the text `Render` gives, which `ConfigurationRoundTrip` reads back. |
| OccurrenceModel.FirstArgument | Occurrence.py:117-149 | The `label` of `Occurrence_cite`, `_label`, `_ref`, `_eqref` and the `filename` of `Occurrence_input` is argument 0. It exists iff there is an argument. |
| OccurrenceModel.StrictFilename | Occurrence.py:174-177 | `.tex` is added to a name without a dot. A name with a dot is kept. The result extends the name and holds a dot. |
| OccurrenceModel.StrictFilenameIdempotent | Occurrence.py:174-177 | Completing a completed name changes nothing. |
| CommentStripper.SearchPattern | src/utilities.py:203-211 | The search for `[^\\]%` returns its leftmost match, or -1 when there is none. |
| CommentStripper.StripLine | src/utilities.py:207-217 | A line keeps a prefix of itself with no unescaped `%` before its last character. When it is cut, it ends at its first unescaped `%`. |
| CommentStripper.StripLineUnique | src/utilities.py:207-217 | Those properties single out the stripped line. |
| CommentStripper.EscapedPercentKept | src/utilities.py:202-206 | A line whose every `%` is escaped by a backslash is kept whole. |
| CommentStripper.LeadingPercent | src/utilities.py:215-217 | A line starting with `%` becomes `"%"`. |
| CommentStripper.StripAll | src/utilities.py:207-219 | Line k of the result is line k stripped. |
| CommentStripper.RemoveComments | src/utilities.py:195-227 | The loop and the cut after `\end{document}` equal `WithoutComments`. The same code is at src/Utilities.py:123-155. |
| CommentStripper.LineByLine | src/utilities.py:207-220 | Without `\end{document}`, the result has as many lines as the input, and line k is input line k stripped. |
| CommentStripper.CutPrefix | src/utilities.py:224-226 | With `\end{document}` present, the result ends at its first occurrence. |
| CommentStripper.CutFixed | src/utilities.py:224-226 | Cutting keeps a prefix ending with the first `\end{document}`, and cutting again changes nothing. |
| CommentStripper.StripPrefixFixed | src/utilities.py:207-217 | Every prefix of a stripped line strips to itself. |
| CommentStripper.RemoveCommentsIdempotent | src/utilities.py:195-227 | `RemoveComments(RemoveComments(t)) == RemoveComments(t)`. The same code is at src/Utilities.py:123-155. |
| CommentStripper.IsEmptyLine | src/utilities.py:89-93 | `is_empty_line` holds iff every character is whitespace. |
| CommentStripper.StripEmptyIff | src/utilities.py:91 | `strip()` gives `""` iff the line is whitespace only. |
| OldParser.CompactizationSpec | LaTeXparser.py:32-35 | The old `compactization` removes exactly `%`, newline, space and tab. Its output holds none of them, and it is a subsequence of the input. |
| OldParser.CompactLoop | LaTeXparser.py:32-35 | The loop over the accepted strings equals `Compact`. |
| OldParser.KeptOutSubsequence | LaTeXparser.py:32-35 | The filtered text is a subsequence of the input. |
| OldParser.OldCloser | LaTeXparser.py:27 | The old pairs table knows `{` and `[` only. |
| OldParser.SearchFitBrace | LaTeXparser.py:37-57 | The old loop equals `OldFitBrace`. |
| OldParser.OldFitBraceSpec | LaTeXparser.py:37-57 | For `{` and `[` the old matcher is the newer one, with the same contract. Any other opening raises KeyError. |
| OldParser.SearchArguments | LaTeXparser.py:73-95 | The loop equals `SearchArgumentsOf`. |
| OldParser.SearchArgumentsShape | LaTeXparser.py:73-95 | IndexError iff only separators are left. The only other error is the TypeError of an unmatched group. On success: at most `number_of_arguments` arguments, each of kind `{}` or `[]`; `as_written` is empty iff there is no argument, and otherwise ends with `}`, even after a `[]` group. |
| OldParser.SearchArgumentsStart | LaTeXparser.py:77-84 | An argument is taken only when the first non-separator character opens a group. Otherwise, or with a count of 0, the result is `([], "")`. |
| OldParser.FirstGroupKept | LaTeXparser.py:81-85 | Once the first group matches, the result holds at least one argument. |
| OldParser.SearchArgumentsWritten | LaTeXparser.py:73-95 | When all arguments are `{}` groups, `as_written` is a prefix of the text searched. |
| OldParser.ArgumentsLoopTexts | LaTeXparser.py:80-87 | Each pass appends the text up to the group's closing character to `as_written`, so the text of every argument taken occurs in the `as_written` the loop returns. |
| OldParser.SearchArgumentsTexts | LaTeXparser.py:73-95 | The text of every argument `SearchArguments` returns occurs in the `as_written` it returns. |
| OldParser.NoIndexError | LaTeXparser.py:82 | Matching from a character that occurs in the text never raises. |
| OldParser.SearchUseOfMacro | LaTeXparser.py:97-132 | The loop equals `UsesFrom`, the plain-`find` scan. |
| OldParser.TestDefinition | LaTeXparser.py:124-126 | The definition test equals `IsDefinitionContext`. |
| OldParser.NextUse | LaTeXparser.py:124-131 | One turn of the loop equals `UseAt`. |
| OldParser.UsesShape | LaTeXparser.py:111-131 | Every use has the searched name, at most `number_of_arguments` arguments of kind `{}` or `[]`, and an `as_written` led by the name. The only errors are those of `SearchArguments`. |
| OldParser.UsesWrittenInText | LaTeXparser.py:128-129 | With `as_written = name + consumed`, every use whose arguments are all `{}` groups has an `as_written` that occurs in the scanned text. |
| OldParser.DefinitionContextIff | LaTeXparser.py:124-126 | A use is skipped iff the compactized text before it ends with `\newcommand{` or `\renewcommand{`, or is exactly `newcommand{` or `renewcommand{`. The same code is at __init__.py:192-194. |
| OldParser.NoWordBoundary | LaTeXparser.py:113-131 | There is no word boundary after the name: the name at the start of the text is a use whatever follows it, a letter included. |
| OldParser.LastPieceForm | LaTeXparser.py:124 | The last piece of `split("\\")` holds no backslash. It is the whole text, or it follows the text's last backslash. |
| OldParser.SplitLastIsLastPiece | LaTeXparser.py:124 | The last piece of `split("\\")` is what follows the last backslash. |
| OldParser.TestIsOpening | LaTeXparser.py:126 | `"\\" + last` is a definition opening iff `last` is `newcommand{` or `renewcommand{`. |
| OldText.RemoveComments | LaTeXparser.py:208-229 | The old loop equals `RemoveCommentsOf`: each line cut after its first `%`, then a newline after every line, then the cut after `\end{document}`. The same code is at __init__.py:273-294. |
| OldText.CutOneLine | LaTeXparser.py:217-222 | One loop turn equals `CutLine`. |
| OldText.CutLineSpec | LaTeXparser.py:217-222 | A line without `%` is kept. Otherwise it is cut right after its first `%`, escaped or not. |
| OldText.CutLineFree | LaTeXparser.py:217-222 | A cut line holds no newline. |
| OldText.CodeLines | LaTeXparser.py:214-223 | Before the cut, the text is the cut lines joined by newlines, plus one more newline. |
| OldText.RemoveCommentsTwice | LaTeXparser.py:208-229 | A second pass changes nothing when the result holds `\end{document}`. Otherwise it only adds one more newline at the end. |
| OldText.ReplaceInText | LaTeXparser.py:303-319 | The loop of `replace` equals `ReplacedText`. The same code is at __init__.py:424-440. |
| OldText.ReplaceOneLine | LaTeXparser.py:310-314 | One loop turn equals `ReplaceLine`. |
| OldText.ReplacedLines | LaTeXparser.py:307-315 | Line k of the result is input line k replaced. |
| OldText.ReplaceKeepsComment | LaTeXparser.py:313-314 | Everything after the first `%` of a line comes out untouched, before the newline that ends the line. |
| OldText.ReplaceWithoutTarget | LaTeXparser.py:303-319 | When the text does not hold the pattern, `replace` only adds a newline at the end of the text (one after every line). |
| OldText.ReplaceIdentity | LaTeXparser.py:303-319 | Replacing a pattern by itself only adds that final newline. |
| OldText.LineWithoutTarget | LaTeXparser.py:309-314 | A line that does not hold the pattern comes out as itself followed by a newline, with or without a `%`. |
| OldText.ReplaceFirstOccurrence | LaTeXparser.py:303-319 | On one line without `%` that holds the pattern, the first occurrence becomes the replacement, what follows is replaced as `str.replace` does, and a newline ends the text. |
| OldText.ReplaceAtFirst | LaTeXparser.py:311 | `str.replace` rewrites the first occurrence of the pattern, then goes on after it. |
| OldText.ReplaceAcrossLines | LaTeXparser.py:307-315 | A pattern that holds a newline is never replaced, since each line is replaced on its own: the result is the text plus a newline. |
| OldCode.NewCommandShape | LaTeXparser.py:180-187 | A scanned definition gives a definition iff it has two or three arguments. The name is argument 0. The `[]` count is present iff argument 1 is a `[]` group (absent stands for the default 0). The body is the last argument. |
| OldCode.AddDefinitionsError | LaTeXparser.py:264-271 | Adding the uses fails, with IndexError, iff some use lacks its second argument. |
| OldCode.AddDefinitionsKeeps | LaTeXparser.py:268-271 | Entries already in the table are never replaced. |
| OldCode.AddDefinitionsNames | LaTeXparser.py:264-271 | The table holds the names it had and the defined names, and nothing else. |
| OldCode.AddDefinitionsFirst | LaTeXparser.py:266-271 | A name new to the table gets the definition of its first use. |
| OldCode.AddDefinitionsAppend | LaTeXparser.py:264-271 | Adding two runs of uses is adding the first, then the second. The first error wins. |
| OldCode.AddUses | LaTeXparser.py:265-271 | The inner loop equals `AddDefinitions`. |
| OldCode.BuildDefinitions | LaTeXparser.py:263-272 | The two loops equal `DefinitionsFrom`. |
| OldCode.DefinitionsInOrder | LaTeXparser.py:264-272 | The table is built iff scanning and adding all uses of the definition commands succeed. It is then the table of all those uses, taken in order. |
| OldCode.DefinitionsFirstWins | LaTeXparser.py:248-273 | The table holds exactly the names the definition commands define, each with its first definition. |
| OldCode.DictSecondCallNone | LaTeXparser.py:261-273 | After a call that builds a non-empty table, the next call answers `None`. An empty table is not cached and is built again. |
| OldCode.InputTargetsSpec | LaTeXparser.py:288-292 | The targets are the `as_written` of exactly the `\input` uses naming the file. The loop fails, with IndexError, iff some use has no argument. |
| OldCode.InputTargetsEmpty | LaTeXparser.py:288-292 | No target is collected iff no use names the file. |
| OldCode.CollectTargets | LaTeXparser.py:288-292 | The loop equals `InputTargets`. |
| OldCode.SubstituteNothing | LaTeXparser.py:282-296 | With no `\input` of the file, the substituted raw text is the raw text itself. |
| OldCode.SubstituteTargetsWritten | LaTeXparser.py:289-295 | Every target of an `\input{file}` use (a `{}` argument) occurs in the comment-stripped text that was scanned. `replace` works on the raw text line by line, only before each line's first `%`, so this alone does not make it find the target. |
| OldCode.SubstituteSingleTarget | LaTeXparser.py:282-296 | With one target, on a raw text of one line without `%` that holds it, substitution happens: the first occurrence of the target becomes the file's text, later ones are replaced as `str.replace` does, and a newline ends the text. |
| OldCode.SubstituteAcrossLines | LaTeXparser.py:282-296 | A target that spans a line break, such as `\input` and `{a}` on two lines, is found in the comment-stripped text but never replaced: the raw text only gets a newline at its end. |
| OldCode.CodeLaTeX.constructor | LaTeXparser.py:233-241 | The raw text is stored. Its comment-stripped copy is kept, and the definition cache is empty. |
| OldCode.CodeLaTeX.DictOfDefinitionMacros | LaTeXparser.py:248-273 | The answer and the new cache are those of one `DictCall`. |
| OldCode.CodeLaTeX.Replace | LaTeXparser.py:303-319 | A new object on the replaced raw text, with an empty cache. |
| OldCode.CodeLaTeX.SubstituteInput | LaTeXparser.py:282-296 | A new object on the substituted raw text, or the error raised. |
| OldPackage.ArgumentsListWritten | __init__.py:134 | For the occurrence the scanner builds from what `SearchArguments` found, `arguments_list` has one text per argument, and each text occurs in the occurrence's `as_written`. |
| OldPackage.NewLabelSpec | __init__.py:228-243 | No argument gives the definition record. One argument raises IndexError. A label takes its name from argument 0. Value, page, fourth and fifth are groups 1, 2, 4 and 5 of the five groups of argument 1. The section is group 3 when that group holds no `\relax`. |
| OldPackage.CachedDictStable | __init__.py:370-382 | A successful call returns the table it caches, and the next call returns the same table. |
| OldPackage.CodeLaTeX.constructor | __init__.py:303-312 | Raw text and file name are stored. The comment-stripped copy is kept, and the cache is empty. |
| OldPackage.CodeLaTeX.DictOfDefinitionMacros | __init__.py:357-382 | The answer and the new cache are those of one `CachedDictCall`. |
| OldPackage.CodeLaTeX.Replace | __init__.py:424-440 | A new object, without a file name, on the replaced raw text. |
| OldPackage.CodeLaTeX.SubstituteInput | __init__.py:391-419 | With no text given, the content is read from the file under the `.tex` rule. A file that cannot be read gives the object itself. Otherwise the result is a new object on the substituted raw text, or the error raised. |
| OldPackage.SubstitutedUnchanged | __init__.py:416-418 | Replacing targets that all start with `\\input`, in a text without `\\input`, changes nothing but one newline per target. |
| OldPackage.SubstituteNeverReplaces | __init__.py:197 | Since the scanner adds a backslash in front of `as_written`, substitution in a text without `\\input` only appends newlines. |
| OldPackage.Newlines | __init__.py:433-436 | `k` newlines. |
| Bibtex.NewEntry | src/__init__.py:106-112 | The entry keeps its given text. |
| Bibtex.EntryHead | src/__init__.py:106-112 | On `@TYPE{LABEL,...` the type is `TYPE` lower-cased and the label is `LABEL` without blanks. |
| Bibtex.LabelHasNoBlank | src/__init__.py:112 | A label never holds a blank. |
| Bibtex.EntriesShaped | src/__init__.py:126-129 | Every entry the constructor cuts starts with `@` and holds no other line-starting `@`. |
| Bibtex.EntriesOfJoined | src/__init__.py:94-97 | For entries shaped that way, `EntryListToCodeBibtex` followed by the cut (with a cleaning that leaves the text as it is) gives back the same texts, in order. |
| Bibtex.RebuildFromEntries | src/__init__.py:94-97 | Rebuilding a bibliography from its own entries gives the same entry texts back. |
| Bibtex.DictOfSpec | src/__init__.py:130-133 | The dictionary holds the label of every entry and nothing else. Under each label it files the last entry carrying it: a later entry overwrites an earlier one. |
| Bibtex.BuildDict | src/__init__.py:130-133 | The constructor's loop equals `DictOf`. |
| Bibtex.StoreSpec | src/__init__.py:132 | `dico[label] = entry` keeps the dictionary well formed and keeps its keys. |
| Bibtex.Lookup | src/__init__.py:153-154 | `self[key]` raises KeyError iff the key is absent. |
| Bibtex.LookupEntries | src/__init__.py:153-154 | On a bibliography built from entries, `self[key]` answers the last entry labelled `key`, and fails iff none is. |
| Bibtex.ExtractedSpec | src/__init__.py:134-147 | `extract_list` returns the texts of the requested entries in request order. It raises KeyError iff a label is unknown. |
| Bibtex.ExtractTexts | src/__init__.py:140-146 | The loop equals `Extracted`. |
| Bibtex.MergeSpec | src/__init__.py:155-168 | `__add__` raises iff some entry of the other side has a label already present with a different text. Either way the dictionary stays well formed and keeps its labels. Without a conflict it holds the union of labels and the other side's entries. |
| Bibtex.MergeLoop | src/__init__.py:162-167 | The loop equals `Merge`. |
| Bibtex.MergeStops | src/__init__.py:163-166 | After the loop stops on a conflict, later entries change nothing. |
| Bibtex.CodeBibtex.constructor | src/__init__.py:124-133 | A newline is put in front. The cleaned text is cut into entries, and the dictionary is built from them. |
| Bibtex.CodeBibtex.GetItem | src/__init__.py:153-154 | KeyError iff the label is absent. Otherwise the entry filed under it, which carries that label. |
| Bibtex.CodeBibtex.ExtractList | src/__init__.py:134-147 | KeyError iff a label is unknown. Otherwise a new bibliography of the requested texts joined by newlines. |
| Bibtex.CodeBibtex.Add | src/__init__.py:155-168 | This object's dictionary becomes the merge with the other side (mutated in place, even when raising). NameError iff there is a conflict. Otherwise a new bibliography of the merged entries. |
| Bibtex.EntryListToCodeBibtex | src/__init__.py:94-97 | A new bibliography on the entries' texts joined by newlines. |
| Bibtex.ValuesLabels | src/__init__.py:168 | `dico.values()` of a well-formed dictionary carries its labels in order, each once. |
| CreateBbl.LineToLabels | create_bbl.py:13-18 | A line gives at least one label. |
| CreateBbl.LineToLabelsBraced | create_bbl.py:13-18 | On `...{a,b,c}...` the labels, joined back with commas, are the braced text. |
| CreateBbl.LabelsOfLineIn | create_bbl.py:52-61 | A line contributes a label iff the label is non-empty, the line starts with `\citation`, and the label is among its braced labels. |
| CreateBbl.NonEmptyIn | create_bbl.py:60-61 | The `if label:` filter keeps exactly the non-empty labels. |
| CreateBbl.CitedLabelsIn | create_bbl.py:52-61 | A label is cited iff some line contributes it. |
| CreateBbl.CitedLabelsStep | create_bbl.py:53-61 | One more line of the aux file appends exactly what that line contributes. |
| CreateBbl.AppendLabels | create_bbl.py:57-61 | The inner loop appends the non-empty labels of a line, in order. |
| CreateBbl.FilterDuplicates | create_bbl.py:26-36 | The loop equals `Dedup`. |
| CreateBbl.DedupElements | create_bbl.py:26-36 | `filter_duplicates` keeps exactly the elements of its input. |
| CreateBbl.DedupNoDuplicates | create_bbl.py:26-36 | Its output has no duplicate. |
| CreateBbl.DedupOrder | create_bbl.py:26-36 | Elements come in order of first occurrence. |
| CreateBbl.DedupOfDistinct | create_bbl.py:26-36 | A list without duplicates is left as it is. |
| CreateBbl.DedupIdempotent | create_bbl.py:26-36 | `filter_duplicates` is idempotent. |
| CreateBbl.GetLabels | create_bbl.py:39-64 | A missing aux file gives `[]`. Otherwise the labels of the citation lines, deduplicated in order. |
| CreateBbl.GetLabelsSpec | create_bbl.py:39-64 | The result has no duplicate. A label is in it iff it is non-empty and listed on a citation line. |
| CreateBbl.LookupSpec | create_bbl.py:67-71 | `get_json` finds the first element with the label. It finds nothing iff no element has it. |
| CreateBbl.GetJson | create_bbl.py:67-71 | The loop equals `Lookup`. |
| CreateBbl.EntryEnd | create_bbl.py:77-81 | The first line at or after `from` starting with `@`, or the end. |
| CreateBbl.FirstHolding | create_bbl.py:77-84 | The first line holding the label, or -1. |
| CreateBbl.GetBibtexLines | create_bbl.py:74-87 | The loop with its `found` flag returns the lines strictly after the first line holding the label, up to the next line starting with `@`. It returns `None` when no line holds the label. |
| CreateBbl.AuthorNames | create_bbl.py:109-110 | One `given family` name per author, in order. |
| CreateBbl.BblLines | create_bbl.py:131-148 | A block starts with `\bibitem[num]{label}`. |
| CreateBbl.BblLinesShape | create_bbl.py:96-148 | A block is the bibitem line, then the author line exactly when there is an `author` key (names joined by `and`, then a full stop), then one `\newblock` line for each truthy title, date, url and note. |
| CreateBbl.UtfSubstitutionPlain | create_bbl.py:115-123 | Text without a dotless i passes `utf_substitution` unchanged. |
| CreateBbl.UtfSubstitutionBreve | create_bbl.py:121 | The dotless i with a breve becomes `i`. |
| CreateBbl.JsonToBblElemLines | create_bbl.py:126-151 | For an entry without newlines or dotless i, the rendered block cut at newlines gives back its lines, starting with the bibitem line. |
| CreateBbl.BblBlocks | create_bbl.py:158-164 | One block per label. |
| CreateBbl.BblBlocksNumbered | create_bbl.py:158-164 | Block k is the entry of the k-th label, numbered k + 1. |
| CreateBbl.GetBblCode | create_bbl.py:154-167 | The blocks of the cited labels, joined by blank lines, replace the `**BBL_CODE**` mark of the template. With no aux file the mark is replaced by nothing. |
| CreateBbl.ReplaceMarkOnce | create_bbl.py:167 | A template with one mark gets the code in its place, and nothing else changes. |
| PytexTools.Tags | src/PytexTools.py:231 | A tag list has at least one tag. |
| PytexTools.FilterComplement | src/PytexTools.py:220-257 | `PytexOnlyIn` keeps argument 2 iff the name is among the tags and drops it otherwise. `PytexNotIn` does the opposite. |
| PytexTools.FilterUsesRaises | src/PytexTools.py:230-236 | A filter raises, with IndexError, iff some occurrence lacks an argument it reads. |
| PytexTools.FilterWithoutMacro | src/PytexTools.py:220-257 | Text without the macro comes back unchanged. |
| PytexTools.FilterUsesStep | src/PytexTools.py:230-236 | One turn replaces the first occurrence's `as_written` by its code and goes on with the rest. |
| PytexTools.FilterLoop | src/PytexTools.py:230-237 | The loop equals `FilterUses`. |
| PytexTools.ApplyFilter | src/PytexTools.py:228-237 | Searching the occurrences, then the loop, equals `Filtered`. |
| PytexTools.PytexOnlyIn | src/PytexTools.py:240-257 | `PytexOnlyIn` equals the filter that keeps tagged code. |
| PytexTools.PytexNotIn | src/PytexTools.py:220-237 | `PytexNotIn` equals the filter that keeps untagged code. |
| PytexTools.PutFirst | src/PytexTools.py:188-207 | An occurrence not selected by its tags is removed. A selected one with an unknown label raises KeyError. A selected one whose box exists and holds no `\Put` is replaced by that box's content. |
| PytexTools.PutFuel | src/PytexTools.py:188-207 | Once `put` succeeds within a recursion limit, a higher limit gives the same text. |
| PytexTools.PutWithoutMacro | src/PytexTools.py:188-207 | Text without the `\Put<name>` macro comes back unchanged. |
| PytexTools.PutText | src/PytexTools.py:175-207 | The recursive loop equals `PutOf`. |
| PytexTools.CodeBox.constructor | src/PytexTools.py:143-146 | An empty box named `name`, whose macro is `\Put` + name. |
| PytexTools.CodeBox.Store | src/PytexTools.py:172-173 | `box[label] = code`: one entry set, and nothing else changes. |
| PytexTools.CodeBox.Put | src/PytexTools.py:175-207 | `put` equals `PutOf` on the box's contents. |
| PytexTools.RecordedSpec | src/PytexTools.py:345-350 | Recording a list stores the digest of this run for every listed file. Files not listed keep their digest. |
| PytexTools.RecordedIsUnchanged | src/PytexTools.py:340-343 | A file recorded by this run counts as unchanged next time if its digest stays the same. |
| PytexTools.FileTracking.constructor | src/PytexTools.py:320-332 | The current table starts as a copy of the followed files. |
| PytexTools.FileTracking.IsOneFileChanged | src/PytexTools.py:334-343 | The file's digest, or `XXX` when unreadable, is recorded. The answer is true iff the file was not followed or its digest differs. |
| PytexTools.FileTracking.RecordAll | src/PytexTools.py:349 | Every file is recorded, with one answer each. |
| PytexTools.FileTracking.IsFileChanged | src/PytexTools.py:345-350 | One file; or every file of a list recorded before answering whether any changed; or `None`, with nothing recorded, when neither is given. |
| PytexTools.ScriptMarkDict | src/PytexTools.py:449-464 | The loop equals `ScriptMarkDictOf` on the lines of the text. |
| PytexTools.PartsAtMarks | src/PytexTools.py:458-462 | Part k+1 is named after the k-th mark line and starts just after it. |
| PytexTools.PartStartsIncrease | src/PytexTools.py:449-464 | Parts start at 0, their starts strictly increase, and none exceeds the number of lines. |
| PytexTools.ScriptMarkDictSpec | src/PytexTools.py:449-464 | With distinct marks, the keys are `"init"` then the marks in document order. Each key maps to its part's range: from its start to the next part's start, or to the last line. |
| PytexTools.KeysDistinct | src/PytexTools.py:449-464 | With distinct marks, the keys are distinct. |
| PytexTools.SortByStartSpec | src/PytexTools.py:486 | The sort keeps every range and orders them by start. |
| PytexTools.SortSorted | src/PytexTools.py:486 | Ranges already in order are left as they are. |
| PytexTools.KeepScriptMarks.constructor | src/PytexTools.py:477-478 | The list of marks to keep is stored. |
| PytexTools.KeepScriptMarks.Apply | src/PytexTools.py:480-495 | The call equals `KeptText`. |
| PytexTools.KeptTextInOrder | src/PytexTools.py:467-495 | With distinct marks, the output is the lines of the kept parts in document order. |
| PytexTools.SelectedByMembership | src/PytexTools.py:485 | Only which marks are listed matters, not their order or repetition. |
| PytexTools.RepeatedMarkRaises | src/PytexTools.py:460-463 | A kept mark on two consecutive mark lines makes the plugin raise TypeError. |
| PytexTools.RepeatedMarkDict | src/PytexTools.py:450-465 | On the lines `[A, x, B, A]`, the second `A` line moves the start of `A` to the end, where it is closed as an empty range. The key order stays `init, A, B`. |
| PytexTools.RepeatedMarkLosesPart | src/PytexTools.py:450-495 | On the lines `[A, x, B, A]`, the first part named `A` spans lines 1 to 3 (`x` and `B`). Keeping `A` gives the empty text, so that part is lost. |
| PytexTools.KeptPartsComplete | src/PytexTools.py:467-495 | In the corrected plugin, which keeps every part whose mark is listed, each such part comes out whole, as one block of the kept lines, whether or not marks repeat. |
| PytexTools.KeptPartsAsPlugin | src/PytexTools.py:467-495 | With distinct marks, the corrected plugin gives what the plugin gives. |
| PytexTools.ChosenSplit | src/PytexTools.py:485-486 | The ranges chosen are those before a key, that key's range if it is listed, then those after it. |
| PytexTools.NewArray | src/PytexTools.py:418-428 | An empty dictionary raises ValueError. Otherwise a new array on the dictionary. |
| PytexTools.Extent | src/PytexTools.py:427-428 | Line and column counts are one more than the largest line and column index. |
| PytexTools.Array.constructor | src/PytexTools.py:418-428 | The counts are one more than the largest indices. |
| PytexTools.ArrayLatex | src/PytexTools.py:430-446 | KeyError iff a cell of the grid is missing. Otherwise the pieces of `latex()` concatenated. |
| PytexTools.RowPieces | src/PytexTools.py:439-441 | The inner loop fails iff a cell of the line is missing. Otherwise it gives each cell followed by `&`. |
| PytexTools.RowJoined | src/PytexTools.py:442 | Dropping the last `&` leaves the cells of the line joined by `&`. |
| PytexTools.LatexLayout | src/PytexTools.py:430-446 | With at least one column, the text is the header, then each line's cells joined by `&` and ended by `\\` and `\hline`. |
| PytexTools.HeaderColumns | src/PytexTools.py:432-436 | The header names `ncols` columns: `|c|`, then `c|` for each further column. |
| PytexTools.LatexWithoutColumns | src/PytexTools.py:434-444 | With no column, the first line end removes the header's closing piece instead of a `&`, and each later one removes the previous line end. The pieces are the array opening, the column opening and one line end, whatever the number of lines. |
| PytexTools.Array.Latex | src/PytexTools.py:430-446 | `latex()` equals `ArrayLatex` on the stored counts. |
| LogWarnings.LabelAttr | src/log_code.py:196 | `warn.label` fails on the rerun notice and the capacity warning, and is `None` exactly for overfull warnings. |
| LogWarnings.WordsRejoin | src/log_code.py:91-92 | The words are the chunk cut at its first `.`. A chunk without `.` loses its last character instead. |
| LogWarnings.ParseChunkSpec | src/log_code.py:89-103 | The genre is the first word. The label is the second word without its first and last characters. The page is the word after the first `page`, or none. Parsing fails iff there is no second word, or the first `page` is the last word. |
| LogWarnings.CollectStep | src/log_code.py:90-125 | One more chunk: a parsed chunk is absorbed into the lists, and any other chunk leaves them as they are. |
| LogWarnings.FirstRaiseSpec | src/LogCode.py:72-98 | The chunk loop stops at the first chunk that raises, and it runs through all chunks iff none does. |
| LogWarnings.FirstRaiseAt | src/LogCode.py:72-98 | At a chunk the loop reaches, the chunk raises iff the loop stops there. |
| LogWarnings.AbsorbDistinct | src/log_code.py:104-111 | Absorbing one chunk keeps references and citations free of repeated labels. |
| LogWarnings.CollectDistinct | src/log_code.py:104-125 | References and citations never hold two warnings with the same label. |
| LogWarnings.AbsorbLabels | src/log_code.py:104-111 | Absorbing one chunk adds its label to the list of its genre and to no other. |
| LogWarnings.CollectLabels | src/log_code.py:104-111 | A label is among the references (citations) iff some chunk announces it as one. |
| LogWarnings.CollectMultiply | src/log_code.py:112-117 | Since `undefined_labels` is never filled, every multiply-defined-label chunk is kept, duplicates included. |
| LogWarnings.CollectSaturated | src/log_code.py:104-111 | Chunks whose references and citations are all listed already leave those two lists as they are. |
| LogWarnings.SecondPass | src/LogCode.py:53-57 | Parsing the same chunks again leaves references and citations as they are but lists every multiply-defined label twice. |
| LogWarnings.OneLabelLogParse | src/log_code.py:89-117 | A log with one `Label ... multiply defined.` warning is one chunk announcing that label with no page. |
| LogWarnings.BlocksRanked | src/log_code.py:127-141 | Each block of `warnings` holds one kind of warning, ranked by its place in the list. |
| LogWarnings.OverfullWarningsSpec | src/log_code.py:175 | One overfull warning per emitted text, in order. |
| LogWarnings.HboxStepSpec | src/log_code.py:158-183 | A line emits a warning iff a block is open and the line is whitespace only. A `.bbl` line closes the block without a warning. An `Overfull` line outside a `.bbl` region opens one. |
| LogWarnings.HboxRunSpec | src/log_code.py:158-183 | No block is ever open inside a `.bbl` region, and at most one warning is emitted per whitespace-only line. |
| LogWarnings.HboxRunStep | src/log_code.py:158-183 | The run over one more line is one more `HboxStep`, and its emitted texts are appended. |
| LogWarnings.ScanLine | src/log_code.py:159-183 | One turn of the loop equals `HboxStep`. |
| LogWarnings.ScanLines | src/log_code.py:146-183 | The loop emits the texts of the blocks it closes, in order. |
| LogWarnings.RemoveDuplicatesSpec | src/log_code.py:191-199 | The filter fails, with AttributeError, iff a warning has no label. Otherwise it keeps the first warning of each label, in order. |
| LogWarnings.RemoveDuplicatesDistinct | src/log_code.py:191-199 | No two kept warnings share a label, so at most one overfull warning is left. |
| LogWarnings.RemoveDuplicatesOfDistinct | src/log_code.py:191-199 | A labelled list without duplicate labels passes unchanged. |
| LogWarnings.RemoveDuplicatesIdempotent | src/log_code.py:191-199 | Filtering twice is filtering once. |
| LogWarnings.KeepFirstPerLabel | src/log_code.py:193-199 | The loop equals `RemoveDuplicates`. The same code is at src/LogCode.py:120-127. |
| LogWarnings.SummarySpec | src/log_code.py:201-217 | Every warning is shown in order. One closing message follows when there is at least one problem: the last-problem line for 1, and for more a count whose digits read back as `probs_number`. |
| LogChunks.GatherChunks | src/LogCode.py:62-98 | The chunk loop raises IndexError iff a chunk raises. The lists are those gathered up to that chunk (all chunks when none raises). Deduplication is kept. |
| LogReader.SearchWarningsSpec | src/log_code.py:127-142 | `warnings` is ordered as references, citations, multiply-defined labels, rerun notice, overfull warnings, capacity warning. |
| LogReader.SearchWarningsLength | src/log_code.py:127-142 | One warning per gathered entry, one rerun notice iff the log has the rerun line, and, in the current reader, one per overfull block and one capacity warning iff reported. |
| LogReader.RemoveDuplicatesOfSearch | src/log_code.py:191-199 | On the current reader's list, `remove_duplicate_warnings` raises AttributeError iff the log has the rerun line or a capacity message. |
| LogReader.LogCode.constructor | src/log_code.py:46-66 | Attributes are set, the lists are empty, and no search has run. |
| LogReader.LogCode.ReadChunks | src/log_code.py:89-125 | The lists grow by the parsed chunks up to the first one that raises. |
| LogReader.LogCode.SearchForErrors | src/log_code.py:77-145 | With `stop_on_first` and the rerun line, the rerun flag is set and nothing is parsed. Otherwise the search raises iff `SearchRaises`. On success the lists are gathered from the chunks, the flag records the rerun line, and `warnings` and `probs_number` are set. |
| LogReader.LogCode.FillWarnings | src/log_code.py:127-142 | The warning list and its count. NameError iff the older reader (src/LogCode.py:99-115) meets a capacity message. |
| LogReader.LogCode.CheckOverfullHbox | src/log_code.py:146-183 | One overfull warning is appended per block the scanner closes. |
| LogReader.LogCode.CheckTexCapacityExceeded | src/log_code.py:185-190 | A capacity warning is appended iff the log reports one. |
| LogReader.LogCode.RerunToGetCrossReferences | src/log_code.py:67-86 | A set flag is answered without a search. An unset flag triggers a search. When `stop_on_first` is set and the log has the rerun line, the answer is `True` and the lists and warnings are untouched. Otherwise the search raises iff `SearchRaises`, and the answer is whether the log has the rerun line. |
| LogReader.LogCode.RemoveDuplicateWarnings | src/log_code.py:191-199 | Without a list: TypeError in the current reader, AttributeError in the older one. Otherwise the first warning of each label is kept, or AttributeError leaves the list as it was. |
| LogReader.LogCode.Summarize | src/log_code.py:201-217 | Duplicates are removed, then the summary lines, or the error of the deduplication. |
| LogReader.LogCode.SummarizeAsIs | LogCode.py:104-112 | Every warning, duplicates included, then the count message. AttributeError when no search has filled the list. |
| LogReader.NewCurrent | src/log_code.py:46-86 | Construction fails iff a full search raises, and a constructed reader always holds the rerun flag. With `stop_on_first` and the rerun line, the flag is `True`, the lists are empty and there is no warning list or count. Otherwise the reader holds the lists, warnings and count of a full search. |
| LogReader.NewEarly | src/LogCode.py:38-52 | Construction searches, then clears the rerun flag, so the first query searches again. A search stopped early leaves the lists empty and no warning list. The same code is at LogCode.py:36-48. |
| LogReader.EarlyRerun | src/LogCode.py:53-57 | Asking an older reader whether to rerun searches its log a second time. References and citations stay as they were, and every multiply-defined label is listed twice. |
| PyStr.SplitJoin | src/utilities.py:207-220 | `"\n".join(s.split("\n")) == s`, which makes the line stage keep every character outside comments. |
| PyStr.DecimalRoundTrip | src/log_code.py:211-212 | The decimal string of a count reads back as that count. |

## Left out

- The `fast=True` path of `SearchUseOfMacro` in src/MacroUse.py is not modelled. The scan modelled is the non-fast one.
- `number_of_arguments=None` in either scanner is not modelled: every scan takes an explicit count. In the old engine that path looks the count up in the definition table. That count is a string read from `[n]`.
- `analyse()` dispatch through `globals()` is not modelled. The views it reaches are modelled directly: `FirstArgument`, `NewCommandOf` and `NewLabelOf`.
- `Occurrence_newlabel` and `Occurrence_addInputPath` of Occurrence.py are not modelled. `Occurrence_newlabel` of LaTeXparser.py is not modelled either: it indexes the tuple that `SearchArguments` returns.
- `list_of_input_files`, `get_newlabel_value`, `analyse_use_of_macro`, `MacroDefinition`, `StatisticsOfTheMacro`, `remove_comments` and `find` of the two `CodeLaTeX` classes are not modelled.
- File reading and writing become parameters:
  - `save`, `FileToCodeLaTeX` and `FileToCodeBibtex` are left out;
  - the files `substitute_input` can open are a map;
  - the aux file and the template of `get_bbl_code` are `Option<string>` and string inputs;
  - the digest of a file is a function parameter;
  - `Occurrence_input.file_content` keeps only its `.tex` suffix rule.
- `ConvertToUTF8(RemoveComments(...))` in the `CodeBibtex` constructor is a `clean` function parameter. Those functions are not imported in that file.
- `print` calls, `IndentPrint`, `dprint` and the `sys.exit` on a `UnicodeDecodeError` in `get_labels` are left out.
- Regular expressions are written as explicit character predicates.
- The XML layers are not modelled: `CodeBox.feed` and the XML load and save of `FileTracking`. `CodeBox.Store` stands for what `feed` stores.
- `Compilation`, `CodeFactory`, warning message formatting, and the option and driver layers are not modelled.
- Warnings are records of kind, label and page. `Shown(w)` stands for `warn.__str__()`.
- PytexTools.PutText: Python's recursion limit becomes a `fuel` count. An exhausted count is reported as an error. `PutFuel` shows the result does not depend on the count once it succeeds.
- The `FileTracking` tables are instance fields. In the source they are class attributes shared by all instances.
- PyStr.Lower folds only the ASCII letters `A`-`Z`. Python's `str.lower` also folds non-ASCII letters, so Bibtex.EntryHead lower-cases an entry type only in its ASCII letters.
- PytexTools.UsesOf, PytexTools.FilterUses and PytexTools.PutOf assume two things. First, that `search_use_of_macro` of `LatexCode` is the `SearchUseOfMacro` scan of src/MacroUse.py. Second, that its `replace` is `str.replace` on the whole text. src/LatexCode.py, which src/PytexTools.py imports, is not part of this model. The older `CodeLaTeX.replace` (LaTeXparser.py:303-319) differs: it skips comments and appends a newline.
- OldCode.SubstituteSingleTarget: substitution is proved for a raw text of one line without `%` and a single target. On several lines, each line is replaced on its own, before its first `%`.

## Findings

| source | as written | input that shows it | evidently intended | confidence | as-written member | corrected member |
|---|---|---|---|---|---|---|
| src/MacroUse.py:104-126 | Once the requested count is reached, a `{` right after the last closing brace leaves the loop without `return`, so `SearchArguments` returns `None` and the caller's unpacking raises TypeError | `s = "{a}{b}"`, `number_of_arguments = 1` | return the arguments found and the text up to the last closing brace | not executed | MacroUse.SearchArgumentsFallsOff | MacroUse.SearchArgumentsIntended |
| Occurrence.py:57-68 | `a.split("{"+arg+"}")` cuts at every copy, so `split[1]` is empty or missing when an argument repeats, and `configuration` raises IndexError | `\Foo{x}{x}` with arguments `x, x` | cut at the first copy only (`split(..., 1)`), which reads back the separators | not executed | OccurrenceModel.RepeatedArgumentFails | OccurrenceModel.FirstSplitRoundTrip |
| LaTeXparser.py:261-273 | the `return` sits inside `if self._dict_of_definition_macros == {}`, so a call that finds a filled cache returns `None` | any text with one `\newcommand{\a}{b}`, calling `dict_of_definition_macros` twice | return the cached table, as __init__.py:370-382 does | not executed | OldCode.DictSecondCallNone | OldPackage.CachedDictStable |
| __init__.py:197 | `as_written = "\\" + name + as_written` adds a backslash in front of the name, so `substitute_input` searches for `\\input{...}` and replaces nothing in ordinary text | a raw text `\input{a}` and `substitute_input("a", "X")` | `as_written = name + as_written`, as LaTeXparser.py:129 writes it: the targets occur in the scanned text, and on a line without `%` the target is replaced | not executed | OldPackage.SubstituteNeverReplaces | OldCode.SubstituteSingleTarget |
| src/MacroUse.py:214-231 | after a use, the scan resumes right after the name, and `config_turtle` moves past every candidate outside comments, dropped definitions included; a use nested in an argument is kept too, and the configuration no longer fits between the uses | `\Foo{\Foo{a}}` with `number_of_arguments = 1`: configuration `["", "", "}"]`, and interleaving it with the two uses is not the text | resume after a kept use's `as_written`, and move `config_turtle` only past kept uses, so the configuration interleaved with the uses is the text | not executed | ScanProperties.NestedUseBreaksConfiguration | ScanProperties.SearchUseOfMacroIntended |
| src/PytexTools.py:450-465 | `dic[l] = i+1` overwrites the start of a mark that was seen before, so the plugin keeps only the last part named by a repeated mark (or raises TypeError on consecutive repeats) | the lines `[A, x, B, A]` with `A` kept: the output is empty although the first `A` part holds `x` | keep every part whose mark is listed, in document order | not executed | PytexTools.RepeatedMarkLosesPart | PytexTools.KeptPartsComplete |
