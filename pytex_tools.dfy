/**
 * The plugin helpers of src/PytexTools.py: the inline tag filters
 * `\PytexOnlyIn`/`\PytexNotIn`, the tagged boxes of `CodeBox.put`, the
 * change decision of `FileTracking`, the `% SCRIPT MARK` partition of a
 * document and its filtering plugin `keep_script_marks`, and the `Array`
 * renderer.
 *
 * A `LatexCode` is represented by its text: `search_use_of_macro` is the
 * scanner of the MacroUse module on that text, and `replace` is `str.replace`.
 */
module PytexTools {
  import opened PyStr
  import opened OccurrenceModel
  import MacroUse

  // ---------------------------------------------------------------------
  // Looking up the uses of a macro

  /** `code.search_use_of_macro(macro, n)`: the occurrences, in text order. */
  function UsesOf(text: string, macro: string, n: nat): Result<seq<OccurrenceValue>>
    requires |macro| > 0
  {
    if !Contains(text, macro) then Ok([])
    else
      match MacroUse.ScanFrom(text, macro, n, 0, 0)
      case Err(e) => Err(e)
      case Ok(sc) => Ok(sc.uses)
  }

  // ---------------------------------------------------------------------
  // PytexOnlyIn and PytexNotIn

  const OnlyInMacro: string := "\\PytexOnlyIn"
  const NotInMacro: string := "\\PytexNotIn"

  /** The comma-separated tag list of a first argument. */
  function Tags(argument: string): (r: seq<string>)
    ensures |r| >= 1
  {
    Split(argument, ",")
  }

  /**
   * What one occurrence becomes: its second argument when the test
   * `name in tags` comes out as `onlyIn` (true for `\PytexOnlyIn`, false for
   * `\PytexNotIn`), nothing otherwise. A missing argument raises IndexError.
   */
  function FilterReplacement(name: string, arguments: seq<string>, onlyIn: bool): Result<string>
  {
    if |arguments| == 0 then Err(IndexError)
    else if (name in Tags(arguments[0])) == onlyIn then At(arguments, 1)
    else Ok("")
  }

  /** The loop of `PytexOnlyIn`/`PytexNotIn` over the occurrences still to do, on the text `a`. */
  function FilterUses(a: string, name: string, uses: seq<OccurrenceValue>, onlyIn: bool): Result<string>
    decreases |uses|
  {
    if |uses| == 0 then Ok(a)
    else
      match FilterReplacement(name, uses[0].arguments, onlyIn)
      case Err(e) => Err(e)
      case Ok(code) => FilterUses(Replace(a, uses[0].asWritten, code), name, uses[1..], onlyIn)
  }

  /** The whole filter: find the occurrences of the macro, then rewrite each. */
  function Filtered(name: string, text: string, onlyIn: bool): Result<string>
  {
    var macro := if onlyIn then OnlyInMacro else NotInMacro;
    match UsesOf(text, macro, 2)
    case Err(e) => Err(e)
    case Ok(uses) => FilterUses(text, name, uses, onlyIn)
  }

  /** The two filters make opposite choices on every well-formed occurrence. */
  lemma FilterComplement(name: string, arguments: seq<string>)
    requires |arguments| >= 2
    ensures FilterReplacement(name, arguments, true) == (if name in Tags(arguments[0]) then Ok(arguments[1]) else Ok(""))
    ensures FilterReplacement(name, arguments, false) == (if name in Tags(arguments[0]) then Ok("") else Ok(arguments[1]))
  {
  }

  /** A filter raises exactly when some occurrence lacks an argument it needs. */
  lemma {:induction false} FilterUsesRaises(a: string, name: string, uses: seq<OccurrenceValue>, onlyIn: bool)
    ensures FilterUses(a, name, uses, onlyIn).Err? <==> exists i :: 0 <= i < |uses| && FilterReplacement(name, uses[i].arguments, onlyIn).Err?
    ensures FilterUses(a, name, uses, onlyIn).Err? ==> FilterUses(a, name, uses, onlyIn) == Err(IndexError)
    decreases |uses|
  {
    if |uses| > 0 {
      var first := FilterReplacement(name, uses[0].arguments, onlyIn);
      if first.Ok? {
        FilterUsesRaises(Replace(a, uses[0].asWritten, first.value), name, uses[1..], onlyIn);
        forall i | 1 <= i < |uses|
          ensures uses[i] == uses[1..][i - 1]
        {
        }
      }
    }
  }

  /** Text without the macro comes back unchanged. */
  lemma FilterWithoutMacro(name: string, text: string, onlyIn: bool)
    requires !Contains(text, if onlyIn then OnlyInMacro else NotInMacro)
    ensures Filtered(name, text, onlyIn) == Ok(text)
  {
  }

  /** One turn of the loop of `FilterUses`. */
  lemma FilterUsesStep(a: string, name: string, uses: seq<OccurrenceValue>, onlyIn: bool)
    requires |uses| > 0
    ensures var code := FilterReplacement(name, uses[0].arguments, onlyIn);
      FilterUses(a, name, uses, onlyIn) == if code.Err? then Err(code.error) else FilterUses(Replace(a, uses[0].asWritten, code.value), name, uses[1..], onlyIn)
  {
  }

  /** The whole filter: find the occurrences of the macro, then rewrite each. */
  method ApplyFilter(name: string, text: string, onlyIn: bool) returns (r: Result<string>)
    ensures r == Filtered(name, text, onlyIn)
  {
    var macro := if onlyIn then OnlyInMacro else NotInMacro;
    var found := UsesOf(text, macro, 2);
    if found.Err? {
      return Err(found.error);
    }
    r := FilterLoop(text, name, found.value, onlyIn);
  }

  /** Replacing the occurrences one after the other, as the Python loop does. */
  method FilterLoop(text: string, name: string, uses: seq<OccurrenceValue>, onlyIn: bool) returns (r: Result<string>)
    ensures r == FilterUses(text, name, uses, onlyIn)
  {
    var a := text;
    var i := 0;
    while i < |uses|
      invariant i <= |uses|
      invariant FilterUses(text, name, uses, onlyIn) == FilterUses(a, name, uses[i..], onlyIn)
    {
      var rest := uses[i..];
      assert rest[0] == uses[i] && rest[1..] == uses[i + 1..];
      FilterUsesStep(a, name, rest, onlyIn);
      var code := FilterReplacement(name, uses[i].arguments, onlyIn);
      if code.Err? {
        return Err(code.error);
      }
      a := Replace(a, uses[i].asWritten, code.value);
      i := i + 1;
    }
    return Ok(a);
  }

  /** `PytexOnlyIn(name, code)`: keep the code of the occurrences tagged with `name`. */
  method PytexOnlyIn(name: string, text: string) returns (r: Result<string>)
    ensures r == Filtered(name, text, true)
  {
    r := ApplyFilter(name, text, true);
  }

  /** `PytexNotIn(name, code)`: keep the code of the occurrences not tagged with `name`. */
  method PytexNotIn(name: string, text: string) returns (r: Result<string>)
    ensures r == Filtered(name, text, false)
  {
    r := ApplyFilter(name, text, false);
  }

  // ---------------------------------------------------------------------
  // CodeBox

  /** Whether an occurrence of `\Put<name>{tags}{label}` is kept for `tag`. */
  predicate TagSelected(tags: seq<string>, tag: string)
  {
    tags == [""] || tag in tags
  }

  /**
   * `box.put(code, tag)` on the text `text`, with `fuel` more nested calls
   * allowed before Python's recursion limit raises.
   */
  function PutOf(boxes: map<string, string>, macro: string, text: string, tag: string, fuel: nat): Result<string>
    requires |macro| > 0
    decreases fuel, 1, 0
  {
    match UsesOf(text, macro, 2)
    case Err(e) => Err(e)
    case Ok(uses) => PutUses(boxes, macro, text, uses, tag, fuel)
  }

  /** The loop of `put` over the occurrences still to do, on the text `a`. */
  function PutUses(boxes: map<string, string>, macro: string, a: string, uses: seq<OccurrenceValue>, tag: string, fuel: nat): Result<string>
    requires |macro| > 0
    decreases fuel, 0, |uses|
  {
    if |uses| == 0 then Ok(a)
    else
      var arguments := uses[0].arguments;
      if |arguments| == 0 then Err(IndexError)
      else if !TagSelected(Tags(arguments[0]), tag) then
        PutUses(boxes, macro, Replace(a, uses[0].asWritten, ""), uses[1..], tag, fuel)
      else if |arguments| < 2 then Err(IndexError)
      else if arguments[1] !in boxes then Err(KeyError)
      else if fuel == 0 then Err(RecursionError)
      else
        match PutOf(boxes, macro, boxes[arguments[1]], tag, fuel - 1)
        case Err(e) => Err(e)
        case Ok(b) => PutUses(boxes, macro, Replace(a, uses[0].asWritten, b), uses[1..], tag, fuel)
  }

  /**
   * Once `put` succeeds within a recursion limit, a higher limit gives the
   * same text: the result does not depend on the limit.
   */
  lemma {:induction false} PutFuel(boxes: map<string, string>, macro: string, text: string, tag: string, fuel: nat)
    requires |macro| > 0
    requires PutOf(boxes, macro, text, tag, fuel) != Err(RecursionError)
    ensures PutOf(boxes, macro, text, tag, fuel + 1) == PutOf(boxes, macro, text, tag, fuel)
    decreases fuel, 1, 0
  {
    var found := UsesOf(text, macro, 2);
    if found.Ok? {
      PutUsesFuel(boxes, macro, text, found.value, tag, fuel);
    }
  }

  /** `PutFuel` for the loop over the occurrences. */
  lemma {:induction false} PutUsesFuel(boxes: map<string, string>, macro: string, a: string, uses: seq<OccurrenceValue>, tag: string, fuel: nat)
    requires |macro| > 0
    requires PutUses(boxes, macro, a, uses, tag, fuel) != Err(RecursionError)
    ensures PutUses(boxes, macro, a, uses, tag, fuel + 1) == PutUses(boxes, macro, a, uses, tag, fuel)
    decreases fuel, 0, |uses|
  {
    if |uses| > 0 {
      var arguments := uses[0].arguments;
      if |arguments| > 0 {
        if !TagSelected(Tags(arguments[0]), tag) {
          PutUsesFuel(boxes, macro, Replace(a, uses[0].asWritten, ""), uses[1..], tag, fuel);
        } else if |arguments| >= 2 && arguments[1] in boxes && fuel > 0 {
          var inner := PutOf(boxes, macro, boxes[arguments[1]], tag, fuel - 1);
          if inner != Err(RecursionError) {
            PutFuel(boxes, macro, boxes[arguments[1]], tag, fuel - 1);
            if inner.Ok? {
              PutUsesFuel(boxes, macro, Replace(a, uses[0].asWritten, inner.value), uses[1..], tag, fuel);
            }
          }
        }
      }
    }
  }

  /** Text without the `\Put<name>` macro comes back unchanged. */
  lemma PutWithoutMacro(boxes: map<string, string>, macro: string, text: string, tag: string, fuel: nat)
    requires |macro| > 0 && !Contains(text, macro)
    ensures PutOf(boxes, macro, text, tag, fuel) == Ok(text)
  {
  }

  /**
   * One occurrence's fate: dropped when not selected; when selected, the
   * box content with its own `\Put` occurrences put, or the error raised.
   */
  lemma PutFirst(boxes: map<string, string>, macro: string, a: string, uses: seq<OccurrenceValue>, tag: string, fuel: nat)
    requires |macro| > 0 && |uses| > 0 && |uses[0].arguments| >= 2
    ensures var arguments := uses[0].arguments;
      && (!TagSelected(Tags(arguments[0]), tag) ==>
            PutUses(boxes, macro, a, uses, tag, fuel) == PutUses(boxes, macro, Replace(a, uses[0].asWritten, ""), uses[1..], tag, fuel))
      && (TagSelected(Tags(arguments[0]), tag) && arguments[1] !in boxes ==>
            PutUses(boxes, macro, a, uses, tag, fuel) == Err(KeyError))
      && (TagSelected(Tags(arguments[0]), tag) && arguments[1] in boxes && fuel > 0 && !Contains(boxes[arguments[1]], macro) ==>
            PutUses(boxes, macro, a, uses, tag, fuel) == PutUses(boxes, macro, Replace(a, uses[0].asWritten, boxes[arguments[1]]), uses[1..], tag, fuel))
  {
    var arguments := uses[0].arguments;
    if TagSelected(Tags(arguments[0]), tag) && arguments[1] in boxes && fuel > 0 && !Contains(boxes[arguments[1]], macro) {
      PutWithoutMacro(boxes, macro, boxes[arguments[1]], tag, fuel - 1);
    }
  }

  /** The body of `put` on the boxes and the macro of a `CodeBox`. */
  method PutText(boxes: map<string, string>, macro: string, text: string, tag: string, fuel: nat) returns (r: Result<string>)
    requires |macro| > 0
    ensures r == PutOf(boxes, macro, text, tag, fuel)
    decreases fuel
  {
    var found := UsesOf(text, macro, 2);
    if found.Err? {
      return Err(found.error);
    }
    var uses := found.value;
    var a := text;
    var i := 0;
    while i < |uses|
      invariant i <= |uses|
      invariant PutUses(boxes, macro, text, uses, tag, fuel) == PutUses(boxes, macro, a, uses[i..], tag, fuel)
    {
      var rest := uses[i..];
      assert rest[0] == uses[i] && rest[1..] == uses[i + 1..];
      var arguments := uses[i].arguments;
      if |arguments| == 0 {
        return Err(IndexError);
      }
      if TagSelected(Tags(arguments[0]), tag) {
        if |arguments| < 2 {
          return Err(IndexError);
        }
        if arguments[1] !in boxes {
          return Err(KeyError);
        }
        if fuel == 0 {
          return Err(RecursionError);
        }
        var b := PutText(boxes, macro, boxes[arguments[1]], tag, fuel - 1);
        if b.Err? {
          return Err(b.error);
        }
        a := Replace(a, uses[i].asWritten, b.value);
      } else {
        a := Replace(a, uses[i].asWritten, "");
      }
      i := i + 1;
    }
    return Ok(a);
  }

  /** `CodeBox(name)`: a dictionary of labelled LaTeX texts, used through `\Put<name>`. */
  class CodeBox {
    var name: string
    var putMacro: string
    var boxes: map<string, string>

    predicate Valid()
      reads this
    {
      putMacro == "\\Put" + name
    }

    constructor(name: string)
      ensures Valid() && this.name == name && boxes == map[]
    {
      this.name := name;
      putMacro := "\\Put" + name;
      boxes := map[];
    }

    /** `box[label] = code`, as `feed` does for each box it reads. */
    method Store(key: string, code: string)
      requires Valid()
      modifies this
      ensures Valid() && name == old(name) && boxes == old(boxes)[key := code]
    {
      boxes := boxes[key := code];
    }

    /** `put(code, tag)`, recursive through the boxes it substitutes. */
    method Put(text: string, tag: string, fuel: nat) returns (r: Result<string>)
      requires Valid()
      ensures r == PutOf(boxes, putMacro, text, tag, fuel)
    {
      r := PutText(boxes, putMacro, text, tag, fuel);
    }
  }

  // ---------------------------------------------------------------------
  // FileTracking

  /** The digest recorded for a file that cannot be read. */
  const UnreadableSha: string := "XXX"

  /** The digest `_is_file_changed` records: the file's hash, or "XXX" when reading fails. */
  function ShaNow(digest: Option<string>): string
  {
    if digest.Some? then digest.value else UnreadableSha
  }

  /** A file counts as changed when it was not followed before or its digest differs. */
  predicate Changed(oldSha: map<string, string>, filename: string, shaNow: string)
  {
    filename !in oldSha || shaNow != oldSha[filename]
  }

  /** `sha` after recording each of `filenames` in turn. */
  function Recorded(sha: map<string, string>, filenames: seq<string>, digest: string -> Option<string>): map<string, string>
    decreases |filenames|
  {
    if |filenames| == 0 then sha
    else
      var last := filenames[|filenames| - 1];
      Recorded(sha, filenames[..|filenames| - 1], digest)[last := ShaNow(digest(last))]
  }

  /** Every listed file ends up with its digest of this run, and nothing else changes. */
  lemma {:induction false} RecordedSpec(sha: map<string, string>, filenames: seq<string>, digest: string -> Option<string>)
    ensures Recorded(sha, filenames, digest).Keys == sha.Keys + set f | f in filenames
    ensures forall f :: f in filenames ==> Recorded(sha, filenames, digest)[f] == ShaNow(digest(f))
    ensures forall f :: f in sha && f !in filenames ==> Recorded(sha, filenames, digest)[f] == sha[f]
    decreases |filenames|
  {
    if |filenames| > 0 {
      var front := filenames[..|filenames| - 1];
      RecordedSpec(sha, front, digest);
      assert forall f :: f in filenames <==> f in front || f == filenames[|filenames| - 1];
    }
  }

  /**
   * The digests known from the previous run (`old_sha`) and those of this
   * run (`sha`), which start as a copy of the former. `digest` stands for
   * reading and hashing a file, `None` for an unreadable one.
   */
  class FileTracking {
    var oldSha: map<string, string>
    var sha: map<string, string>

    constructor(followed: map<string, string>)
      ensures oldSha == followed && sha == followed
    {
      oldSha := followed;
      sha := followed;
    }

    /** `_is_file_changed(filename)`. */
    method IsOneFileChanged(filename: string, digest: Option<string>) returns (changed: bool)
      modifies this
      ensures oldSha == old(oldSha)
      ensures sha == old(sha)[filename := ShaNow(digest)]
      ensures changed <==> Changed(oldSha, filename, ShaNow(digest))
    {
      var shaNow := ShaNow(digest);
      sha := sha[filename := shaNow];
      if filename !in oldSha {
        return true;
      }
      return shaNow != oldSha[filename];
    }

    /** `[self._is_file_changed(f) for f in filenames]`: every file recorded, one answer each. */
    method RecordAll(filenames: seq<string>, digest: string -> Option<string>) returns (boos: seq<bool>)
      modifies this
      ensures oldSha == old(oldSha)
      ensures sha == Recorded(old(sha), filenames, digest)
      ensures |boos| == |filenames|
      ensures forall k :: 0 <= k < |filenames| ==> (boos[k] <==> Changed(oldSha, filenames[k], ShaNow(digest(filenames[k]))))
    {
      boos := [];
      var i := 0;
      while i < |filenames|
        invariant i <= |filenames| && |boos| == i
        invariant oldSha == old(oldSha)
        invariant sha == Recorded(old(sha), filenames[..i], digest)
        invariant forall k :: 0 <= k < i ==> (boos[k] <==> Changed(oldSha, filenames[k], ShaNow(digest(filenames[k]))))
      {
        RecordedStep(old(sha), filenames, i, digest);
        var changed := IsOneFileChanged(filenames[i], digest(filenames[i]));
        boos := boos + [changed];
        i := i + 1;
      }
      assert filenames[..i] == filenames;
    }

    /**
     * `is_file_changed(filename=..., filenames=...)`: one file, or every
     * file of the list recorded before answering whether any changed; `None`
     * when neither is given (an empty name or list counts as not given).
     */
    method IsFileChanged(filename: Option<string>, filenames: Option<seq<string>>, digest: string -> Option<string>)
      returns (r: Option<bool>)
      modifies this
      ensures oldSha == old(oldSha)
      ensures filename.Some? && filename.value != "" ==>
        sha == old(sha)[filename.value := ShaNow(digest(filename.value))] &&
        r == Some(Changed(oldSha, filename.value, ShaNow(digest(filename.value))))
      ensures !(filename.Some? && filename.value != "") && filenames.Some? && |filenames.value| > 0 ==>
        sha == Recorded(old(sha), filenames.value, digest) &&
        r == Some(exists f :: f in filenames.value && Changed(oldSha, f, ShaNow(digest(f))))
      ensures !(filename.Some? && filename.value != "") && !(filenames.Some? && |filenames.value| > 0) ==>
        sha == old(sha) && r == None
    {
      if filename.Some? && filename.value != "" {
        var changed := IsOneFileChanged(filename.value, digest(filename.value));
        return Some(changed);
      }
      if filenames.Some? && |filenames.value| > 0 {
        var boos := RecordAll(filenames.value, digest);
        r := Some(true in boos);
        if true in boos {
          var k :| 0 <= k < |boos| && boos[k];
          assert filenames.value[k] in filenames.value;
        }
        return;
      }
      return None;
    }
  }

  /** Recording one more file extends the record of the files before it. */
  lemma RecordedStep(sha: map<string, string>, filenames: seq<string>, i: nat, digest: string -> Option<string>)
    requires i < |filenames|
    ensures Recorded(sha, filenames[..i + 1], digest) == Recorded(sha, filenames[..i], digest)[filenames[i] := ShaNow(digest(filenames[i]))]
  {
    assert filenames[..i + 1][..i] == filenames[..i];
  }

  /** A file recorded by this run is unchanged for the next run if its digest stays the same. */
  lemma RecordedIsUnchanged(sha: map<string, string>, filenames: seq<string>, digest: string -> Option<string>, f: string)
    requires f in filenames
    ensures !Changed(Recorded(sha, filenames, digest), f, ShaNow(digest(f)))
  {
    RecordedSpec(sha, filenames, digest);
  }

  // ---------------------------------------------------------------------
  // script_mark_dict and keep_script_marks

  const ScriptMark: string := "% SCRIPT MARK"
  const InitKey: string := "init"

  /** A line that opens a new part of the document. */
  predicate IsMark(line: string)
  {
    StartsWith(line, ScriptMark)
  }

  /** A value of the mark dictionary: an int, or a pair wrapped around an earlier value. */
  datatype MarkValue = Line(n: int) | Pair(first: MarkValue, end: int)

  /** A Python dict from strings: the keys in insertion order, and the value of each. */
  datatype MarkDict = MarkDict(keys: seq<string>, values: map<string, MarkValue>)

  /** `d[k] = v`: a new key goes last, an existing key keeps its place. */
  function Assign(d: MarkDict, k: string, v: MarkValue): MarkDict
  {
    MarkDict(if k in d.values then d.keys else d.keys + [k], d.values[k := v])
  }

  /** The dictionary and the last mark `lp` of the loop of `script_mark_dict`. */
  datatype MarkState = MarkState(dict: MarkDict, last: string)

  /** The state of the loop of `script_mark_dict` after the given lines. */
  function MarkScan(lines: seq<string>): (st: MarkState)
    ensures st.last in st.dict.values
    decreases |lines|
  {
    if |lines| == 0 then MarkState(MarkDict([InitKey], map[InitKey := Line(0)]), InitKey)
    else
      var i := |lines| - 1;
      var st := MarkScan(lines[..i]);
      if IsMark(lines[i]) then MarkStep(st, lines[i], i + 1) else st
  }

  /** A mark line: it gets the next line index, and the previous part is closed there. */
  function MarkStep(st: MarkState, line: string, next: int): (r: MarkState)
    requires st.last in st.dict.values
    ensures r.last in r.dict.values
  {
    var d := Assign(st.dict, line, Line(next));
    MarkState(Assign(d, st.last, Pair(d.values[st.last], next)), line)
  }

  /** `script_mark_dict` on the lines of a text. */
  function ScriptMarkDictOf(lines: seq<string>): MarkDict
  {
    var st := MarkScan(lines);
    Assign(st.dict, st.last, Pair(st.dict.values[st.last], |lines|))
  }

  /** `script_mark_dict(C)`. */
  method ScriptMarkDict(text: string) returns (d: MarkDict)
    ensures d == ScriptMarkDictOf(SplitLines(text))
  {
    d := MarkDict([InitKey], map[InitKey := Line(0)]);
    var lp := InitKey;
    var lines := SplitLines(text);
    var i := 0;
    while i < |lines|
      invariant i <= |lines|
      invariant MarkState(d, lp) == MarkScan(lines[..i])
    {
      assert lines[..i + 1][..i] == lines[..i];
      if IsMark(lines[i]) {
        d := Assign(d, lines[i], Line(i + 1));
        d := Assign(d, lp, Pair(d.values[lp], i + 1));
        lp := lines[i];
      }
      i := i + 1;
    }
    assert lines[..i] == lines;
    d := Assign(d, lp, Pair(d.values[lp], |lines|));
  }

  /** The indices of the mark lines, in document order. */
  function Positions(lines: seq<string>): (p: seq<nat>)
    ensures forall k :: 0 <= k < |p| ==> p[k] < |lines| && IsMark(lines[p[k]])
    ensures forall a, b :: 0 <= a < b < |p| ==> p[a] < p[b]
    decreases |lines|
  {
    if |lines| == 0 then []
    else
      var i := |lines| - 1;
      Positions(lines[..i]) + if IsMark(lines[i]) then [i] else []
  }

  /** The keys of the parts: "init", then the mark lines in document order. */
  function PartKeys(lines: seq<string>): (keys: seq<string>)
    ensures |keys| >= 1 && keys[0] == InitKey
    ensures forall k :: 1 <= k < |keys| ==> IsMark(keys[k])
    decreases |lines|
  {
    if |lines| == 0 then [InitKey]
    else
      var i := |lines| - 1;
      PartKeys(lines[..i]) + if IsMark(lines[i]) then [lines[i]] else []
  }

  /** Where each part starts: 0, then the line after each mark. */
  function PartStarts(lines: seq<string>): (starts: seq<int>)
    ensures |starts| == |PartKeys(lines)| && starts[0] == 0
    decreases |lines|
  {
    if |lines| == 0 then [0]
    else
      var i := |lines| - 1;
      PartStarts(lines[..i]) + if IsMark(lines[i]) then [i + 1] else []
  }

  /** Where part k ends: where the next one starts, or at the last line. */
  function PartEnd(lines: seq<string>, k: nat): int
    requires k < |PartKeys(lines)|
  {
    if k + 1 < |PartStarts(lines)| then PartStarts(lines)[k + 1] else |lines|
  }

  /** No mark line is repeated. */
  predicate DistinctMarks(lines: seq<string>)
  {
    var keys := PartKeys(lines);
    forall a, b :: 1 <= a < b < |keys| ==> keys[a] != keys[b]
  }

  /** Part k+1 is named after the k-th mark line and starts just after it. */
  lemma {:induction false} PartsAtMarks(lines: seq<string>)
    ensures |PartKeys(lines)| == |Positions(lines)| + 1
    ensures forall k :: 0 <= k < |Positions(lines)| ==>
      PartKeys(lines)[k + 1] == lines[Positions(lines)[k]] && PartStarts(lines)[k + 1] == Positions(lines)[k] + 1
    decreases |lines|
  {
    if |lines| > 0 {
      var i := |lines| - 1;
      var front := lines[..i];
      PartsAtMarks(front);
      var p0, p := Positions(front), Positions(lines);
      assert p[..|p0|] == p0;
      forall k | 0 <= k < |p0|
        ensures PartKeys(lines)[k + 1] == lines[p[k]] && PartStarts(lines)[k + 1] == p[k] + 1
      {
        assert front[p0[k]] == lines[p0[k]];
      }
    }
  }

  /** The parts start at 0 and their starts strictly increase, up to the number of lines. */
  lemma {:induction false} PartStartsIncrease(lines: seq<string>)
    ensures forall a, b :: 0 <= a < b < |PartStarts(lines)| ==> PartStarts(lines)[a] < PartStarts(lines)[b] <= |lines|
    decreases |lines|
  {
    if |lines| > 0 {
      var i := |lines| - 1;
      PartStartsIncrease(lines[..i]);
      var s0, s1 := PartStarts(lines[..i]), PartStarts(lines);
      assert s1[..|s0|] == s0;
      assert |s1| > |s0| ==> s1[|s0|] == i + 1;
      forall a, b | 0 <= a < b < |s1|
        ensures s1[a] < s1[b] <= |lines|
      {
        assert s1[a] == s0[a];
        if b < |s0| {
          assert s1[b] == s0[b];
        }
      }
    }
  }

  lemma MarkIsNotInit(line: string)
    requires IsMark(line)
    ensures line != InitKey
  {
    assert |InitKey| < |ScriptMark|;
  }

  /** The loop state: the parts so far with their keys and starts, all closed but the last. */
  ghost predicate Describes(st: MarkState, keys: seq<string>, starts: seq<int>)
    requires |keys| == |starts| >= 1
  {
    var n := |keys| - 1;
    && st.dict.keys == keys
    && (forall x :: x in st.dict.values <==> x in keys)
    && st.last == keys[n]
    && (forall k :: 0 <= k < n ==> st.dict.values[keys[k]] == Pair(Line(starts[k]), starts[k + 1]))
    && st.dict.values[keys[n]] == Line(starts[n])
  }

  /** A new mark opens a new part and closes the one before. */
  lemma MarkStepSpec(st: MarkState, keys: seq<string>, starts: seq<int>, line: string, next: int)
    requires |keys| == |starts| >= 1 && Describes(st, keys, starts) && line !in keys
    requires forall a, b :: 0 <= a < b < |keys| ==> keys[a] != keys[b]
    ensures Describes(MarkStep(st, line, next), keys + [line], starts + [next])
  {
    var r := MarkStep(st, line, next);
    var keys1, starts1 := keys + [line], starts + [next];
    var n := |keys| - 1;
    assert r.dict.keys == keys1;
    forall k | 0 <= k < n + 1
      ensures r.dict.values[keys1[k]] == Pair(Line(starts1[k]), starts1[k + 1])
    {
      assert keys1[k] == keys[k] && starts1[k] == starts[k];
      if k < n {
        assert keys[k] != keys[n] && keys[k] != line;
      }
    }
  }

  lemma {:induction false} MarkScanSpec(lines: seq<string>)
    requires DistinctMarks(lines)
    ensures Describes(MarkScan(lines), PartKeys(lines), PartStarts(lines))
    decreases |lines|
  {
    if |lines| > 0 {
      var i := |lines| - 1;
      var front := lines[..i];
      var keys0 := PartKeys(front);
      var keys := PartKeys(lines);
      assert keys[..|keys0|] == keys0;
      assert DistinctMarks(front) by {
        forall a, b | 1 <= a < b < |keys0|
          ensures keys0[a] != keys0[b]
        {
          assert keys0[a] == keys[a] && keys0[b] == keys[b];
        }
      }
      MarkScanSpec(front);
      var st0, starts0 := MarkScan(front), PartStarts(front);
      if !IsMark(lines[i]) {
        assert keys == keys0 && PartStarts(lines) == starts0 && MarkScan(lines) == st0;
      } else {
        assert PartStarts(lines) == starts0 + [i + 1];
        assert MarkScan(lines) == MarkStep(st0, lines[i], i + 1);
        MarkIsNotInit(lines[i]);
        assert keys == keys0 + [lines[i]];
        assert lines[i] !in keys0 by {
          forall k | 0 <= k < |keys0|
            ensures keys0[k] != lines[i]
          {
            if k > 0 {
              assert keys[k] != keys[|keys0|];
            }
          }
        }
        KeysDistinct(front);
        MarkStepSpec(st0, keys0, starts0, lines[i], i + 1);
      }
    }
  }

  /**
   * With distinct marks, `script_mark_dict` lists "init" and the marks in
   * document order, and maps each to the line range of its part.
   */
  lemma ScriptMarkDictSpec(lines: seq<string>)
    requires DistinctMarks(lines)
    ensures var d := ScriptMarkDictOf(lines);
      && d.keys == PartKeys(lines)
      && (forall x :: x in d.values <==> x in d.keys)
      && forall k :: 0 <= k < |d.keys| ==> d.values[d.keys[k]] == Pair(Line(PartStarts(lines)[k]), PartEnd(lines, k))
  {
    var st, keys, starts := MarkScan(lines), PartKeys(lines), PartStarts(lines);
    MarkScanSpec(lines);
    KeysDistinct(lines);
    CloseSpec(st, keys, starts, |lines|);
    var d := ScriptMarkDictOf(lines);
    assert d == Assign(st.dict, st.last, Pair(st.dict.values[st.last], |lines|));
    forall k | 0 <= k < |d.keys|
      ensures d.values[d.keys[k]] == Pair(Line(starts[k]), PartEnd(lines, k))
    {
      assert PartEnd(lines, k) == if k + 1 < |keys| then starts[k + 1] else |lines|;
    }
  }

  /** The keys of the parts are distinct when the marks are. */
  lemma KeysDistinct(lines: seq<string>)
    requires DistinctMarks(lines)
    ensures forall a, b :: 0 <= a < b < |PartKeys(lines)| ==> PartKeys(lines)[a] != PartKeys(lines)[b]
  {
    var keys := PartKeys(lines);
    forall a, b | 0 <= a < b < |keys|
      ensures keys[a] != keys[b]
    {
      if a == 0 {
        MarkIsNotInit(keys[b]);
      }
    }
  }

  /** The final assignment closes the last part at `end`. */
  lemma CloseSpec(st: MarkState, keys: seq<string>, starts: seq<int>, end: int)
    requires |keys| == |starts| >= 1 && Describes(st, keys, starts)
    requires forall a, b :: 0 <= a < b < |keys| ==> keys[a] != keys[b]
    ensures var d := Assign(st.dict, st.last, Pair(st.dict.values[st.last], end));
      && d.keys == keys
      && (forall x :: x in d.values <==> x in keys)
      && forall k :: 0 <= k < |keys| ==> d.values[keys[k]] == Pair(Line(starts[k]), if k + 1 < |keys| then starts[k + 1] else end)
  {
    var n := |keys| - 1;
    var d := Assign(st.dict, st.last, Pair(st.dict.values[st.last], end));
    forall k | 0 <= k < |keys|
      ensures d.values[keys[k]] == Pair(Line(starts[k]), if k + 1 < |keys| then starts[k + 1] else end)
    {
      if k < n {
        assert keys[k] != keys[n];
      }
    }
  }

  /** `[x for x in keys if x in keep]`. */
  function Selected(keys: seq<string>, keep: seq<string>): seq<string>
    decreases |keys|
  {
    if |keys| == 0 then [] else (if keys[0] in keep then [keys[0]] else []) + Selected(keys[1..], keep)
  }

  /** The range `(a, b)` held by a value, when `a` is an int: anything else makes Python raise TypeError. */
  function RangeOf(v: MarkValue): Option<(int, int)>
  {
    if v.Pair? && v.first.Line? then Some((v.first.n, v.end)) else None
  }

  /** The ranges of the selected marks, or the TypeError raised by sorting or slicing with a pair. */
  function Ranges(d: MarkDict, marks: seq<string>): Result<seq<(int, int)>>
    decreases |marks|
  {
    if |marks| == 0 then Ok([])
    else if marks[0] !in d.values then Err(KeyError)
    else
      match RangeOf(d.values[marks[0]])
      case None => Err(TypeError)
      case Some(r) => Prepend([r], Ranges(d, marks[1..]))
  }

  predicate SortedByStart(s: seq<(int, int)>)
  {
    forall a, b :: 0 <= a < b < |s| ==> s[a].0 <= s[b].0
  }

  /** Insert `x` after every range that starts no later, as a stable sort does. */
  function InsertByStart(x: (int, int), s: seq<(int, int)>): seq<(int, int)>
    decreases |s|
  {
    if |s| == 0 || s[|s| - 1].0 <= x.0 then s + [x]
    else InsertByStart(x, s[..|s| - 1]) + [s[|s| - 1]]
  }

  /** `list.sort(key=lambda a: smd[a][0])`: a stable sort on the start of each range. */
  function SortByStart(s: seq<(int, int)>): seq<(int, int)>
    decreases |s|
  {
    if |s| == 0 then [] else InsertByStart(s[|s| - 1], SortByStart(s[..|s| - 1]))
  }

  /** Inserting adds `x` and keeps every range. */
  lemma {:induction false} InsertByStartMultiset(x: (int, int), s: seq<(int, int)>)
    ensures multiset(InsertByStart(x, s)) == multiset(s) + multiset{x}
    decreases |s|
  {
    if |s| > 0 && s[|s| - 1].0 > x.0 {
      var front, last := s[..|s| - 1], s[|s| - 1];
      assert s == front + [last];
      InsertByStartMultiset(x, front);
    }
  }

  /** Every range of the result was in `s` or is `x`. */
  lemma {:induction false} InsertByStartMembers(x: (int, int), s: seq<(int, int)>)
    ensures forall y :: y in InsertByStart(x, s) ==> y in s || y == x
    decreases |s|
  {
    if |s| > 0 && s[|s| - 1].0 > x.0 {
      var front := s[..|s| - 1];
      InsertByStartMembers(x, front);
      assert forall y :: y in front ==> y in s;
    }
  }

  /** A range that starts no earlier than all others can go last. */
  lemma AppendSorted(s: seq<(int, int)>, last: (int, int))
    requires SortedByStart(s)
    requires forall j :: 0 <= j < |s| ==> s[j].0 <= last.0
    ensures SortedByStart(s + [last])
  {
    var r := s + [last];
    forall a, b | 0 <= a < b < |r|
      ensures r[a].0 <= r[b].0
    {
      assert r[a] == s[a];
      if b < |s| {
        assert r[b] == s[b];
      }
    }
  }

  /** Inserting into ranges in order of their starts keeps them in order. */
  lemma {:induction false} InsertByStartSorted(x: (int, int), s: seq<(int, int)>)
    requires SortedByStart(s)
    ensures SortedByStart(InsertByStart(x, s))
    decreases |s|
  {
    if |s| > 0 && s[|s| - 1].0 > x.0 {
      var front, last := s[..|s| - 1], s[|s| - 1];
      assert SortedByStart(front);
      InsertByStartSorted(x, front);
      InsertByStartMembers(x, front);
      var r0 := InsertByStart(x, front);
      forall j | 0 <= j < |r0|
        ensures r0[j].0 <= last.0
      {
        assert r0[j] in r0;
        if r0[j] != x {
          var i :| 0 <= i < |front| && front[i] == r0[j];
          assert s[i] == front[i];
        }
      }
      AppendSorted(r0, last);
    } else {
      forall j | 0 <= j < |s|
        ensures s[j].0 <= x.0
      {
        assert s[j].0 <= s[|s| - 1].0;
      }
      AppendSorted(s, x);
    }
  }

  /** The sort puts the ranges in order of their starts, and keeps every one of them. */
  lemma {:induction false} SortByStartSpec(s: seq<(int, int)>)
    ensures multiset(SortByStart(s)) == multiset(s)
    ensures SortedByStart(SortByStart(s))
    decreases |s|
  {
    if |s| > 0 {
      var front := s[..|s| - 1];
      assert s == front + [s[|s| - 1]];
      SortByStartSpec(front);
      InsertByStartMultiset(s[|s| - 1], SortByStart(front));
      InsertByStartSorted(s[|s| - 1], SortByStart(front));
    }
  }

  /** Ranges already in order come out of the sort as they went in. */
  lemma {:induction false} SortSorted(s: seq<(int, int)>)
    requires SortedByStart(s)
    ensures SortByStart(s) == s
    decreases |s|
  {
    if |s| > 0 {
      var front := s[..|s| - 1];
      assert SortedByStart(front);
      SortSorted(front);
      assert s == front + [s[|s| - 1]];
    }
  }

  /** The lines of the given ranges, one range after the other (`B.extend(lignes[a:b])`). */
  function Extract(lines: seq<string>, ranges: seq<(int, int)>): seq<string>
    decreases |ranges|
  {
    if |ranges| == 0 then []
    else
      var last := ranges[|ranges| - 1];
      Extract(lines, ranges[..|ranges| - 1]) + Slice(lines, last.0, last.1)
  }

  /** `keep_script_marks(keep)(text)`. */
  function KeptText(keep: seq<string>, text: string): Result<string>
  {
    var lines := SplitLines(text);
    var d := ScriptMarkDictOf(lines);
    match Ranges(d, Selected(d.keys, keep))
    case Err(e) => Err(e)
    case Ok(rs) => Ok(Join(Extract(lines, SortByStart(rs)), "\n"))
  }

  /** The plugin that keeps only the listed parts of a document. */
  class KeepScriptMarks {
    var keepMarkList: seq<string>

    constructor(keepMarkList: seq<string>)
      ensures this.keepMarkList == keepMarkList
    {
      this.keepMarkList := keepMarkList;
    }

    /** `__call__(text)`. */
    method Apply(text: string) returns (r: Result<string>)
      ensures r == KeptText(keepMarkList, text)
    {
      var smd := ScriptMarkDict(text);
      var b: seq<string> := [];
      var lines := SplitLines(text);
      var marks := Selected(smd.keys, keepMarkList);
      var ranges := Ranges(smd, marks);
      if ranges.Err? {
        return Err(ranges.error);
      }
      var sorted := SortByStart(ranges.value);
      var i := 0;
      while i < |sorted|
        invariant i <= |sorted|
        invariant b == Extract(lines, sorted[..i])
      {
        assert sorted[..i + 1][..i] == sorted[..i];
        b := b + Slice(lines, sorted[i].0, sorted[i].1);
        i := i + 1;
      }
      assert sorted[..i] == sorted;
      r := Ok(Join(b, "\n"));
    }
  }

  /** The line range of each part, in document order. */
  function PartRanges(lines: seq<string>): (rs: seq<(int, int)>)
    ensures |rs| == |PartKeys(lines)|
  {
    seq(|PartKeys(lines)|, k requires 0 <= k < |PartKeys(lines)| => (PartStarts(lines)[k], PartEnd(lines, k)))
  }

  /** The ranges whose key is kept, in their order. */
  function Chosen(keys: seq<string>, rs: seq<(int, int)>, keep: seq<string>): seq<(int, int)>
    requires |keys| == |rs|
    decreases |keys|
  {
    if |keys| == 0 then [] else (if keys[0] in keep then [rs[0]] else []) + Chosen(keys[1..], rs[1..], keep)
  }

  lemma {:induction false} RangesOfParts(d: MarkDict, keys: seq<string>, rs: seq<(int, int)>, keep: seq<string>)
    requires |keys| == |rs|
    requires forall k :: 0 <= k < |keys| ==> keys[k] in d.values && d.values[keys[k]] == Pair(Line(rs[k].0), rs[k].1)
    ensures Ranges(d, Selected(keys, keep)) == Ok(Chosen(keys, rs, keep))
    decreases |keys|
  {
    if |keys| > 0 {
      RangesOfParts(d, keys[1..], rs[1..], keep);
      var rest := Selected(keys[1..], keep);
      if keys[0] in keep {
        var marks := [keys[0]] + rest;
        assert Selected(keys, keep) == marks;
        assert marks[1..] == rest;
        assert RangeOf(d.values[keys[0]]) == Some(rs[0]);
        assert Chosen(keys, rs, keep) == [rs[0]] + Chosen(keys[1..], rs[1..], keep);
      } else {
        assert Selected(keys, keep) == [] + rest == rest;
        assert Chosen(keys, rs, keep) == [] + Chosen(keys[1..], rs[1..], keep) == Chosen(keys[1..], rs[1..], keep);
        assert Ranges(d, rest) == Ok(Chosen(keys[1..], rs[1..], keep));
      }
    }
  }

  lemma {:induction false} ChosenSorted(keys: seq<string>, rs: seq<(int, int)>, keep: seq<string>)
    requires |keys| == |rs| && SortedByStart(rs)
    ensures SortedByStart(Chosen(keys, rs, keep))
    ensures forall y :: y in Chosen(keys, rs, keep) ==> y in rs
    decreases |keys|
  {
    if |keys| > 0 {
      assert SortedByStart(rs[1..]);
      ChosenSorted(keys[1..], rs[1..], keep);
      var tail := Chosen(keys[1..], rs[1..], keep);
      forall y | y in tail
        ensures rs[0].0 <= y.0
      {
        var j :| 0 <= j < |rs[1..]| && rs[1..][j] == y;
        assert rs[j + 1] == y;
      }
    }
  }

  /**
   * With distinct marks, the plugin outputs the lines of the kept parts in
   * document order, whatever the order of the list of marks to keep.
   */
  lemma KeptTextInOrder(keep: seq<string>, text: string)
    requires DistinctMarks(SplitLines(text))
    ensures KeptText(keep, text) == Ok(Join(Extract(SplitLines(text), Chosen(PartKeys(SplitLines(text)), PartRanges(SplitLines(text)), keep)), "\n"))
  {
    var lines := SplitLines(text);
    var keys, rs := PartKeys(lines), PartRanges(lines);
    ScriptMarkDictSpec(lines);
    RangesOfParts(ScriptMarkDictOf(lines), keys, rs, keep);
    PartStartsIncrease(lines);
    assert SortedByStart(rs);
    ChosenSorted(keys, rs, keep);
    SortSorted(Chosen(keys, rs, keep));
  }

  /** Only which marks are listed matters, not their order or repetition. */
  lemma {:induction false} SelectedByMembership(keys: seq<string>, keep1: seq<string>, keep2: seq<string>)
    requires forall x :: x in keep1 <==> x in keep2
    ensures Selected(keys, keep1) == Selected(keys, keep2)
    decreases |keys|
  {
    if |keys| > 0 {
      SelectedByMembership(keys[1..], keep1, keep2);
    }
  }

  /** A mark that appears twice and is kept makes the plugin raise TypeError. */
  lemma RepeatedMarkRaises(m: string)
    requires IsMark(m)
    ensures var d := ScriptMarkDictOf([m, m]); Ranges(d, Selected(d.keys, [m])) == Err(TypeError)
  {
    MarkIsNotInit(m);
    assert [m, m][..1] == [m];
    assert [m][..0] == [];
    var st0 := MarkScan([]);
    var st1 := MarkScan([m]);
    assert st1 == MarkStep(st0, m, 1);
    assert st1.dict.keys == [InitKey, m] && st1.last == m && st1.dict.values[m] == Line(1);
    var st2 := MarkScan([m, m]);
    assert st2 == MarkStep(st1, m, 2);
    assert st2.dict.keys == [InitKey, m] && st2.last == m && st2.dict.values[m] == Pair(Line(2), 2);
    var d := ScriptMarkDictOf([m, m]);
    assert d.keys == [InitKey, m];
    assert d.values[m] == Pair(Pair(Line(2), 2), 2);
    assert [InitKey, m][1..] == [m] && [m][1..] == [];
    assert Selected([m], [m]) == [m];
    assert Selected(d.keys, [m]) == [m];
  }

  /**
   * The dictionary of `[A, x, B, A]`: the second `A` line moves the start
   * of `A` to the end, where it is closed with an empty range; the first
   * `A` part is overwritten.
   */
  lemma RepeatedMarkDict(ma: string, x: string, mb: string)
    requires IsMark(ma) && IsMark(mb) && ma != mb && !IsMark(x)
    ensures var d := ScriptMarkDictOf([ma, x, mb, ma]);
      d.keys == [InitKey, ma, mb] && ma in d.values && d.values[ma] == Pair(Line(4), 4)
  {
    MarkIsNotInit(ma);
    var lines := [ma, x, mb, ma];
    assert lines[..3] == [ma, x, mb] && lines[..3][..2] == [ma, x] && lines[..3][..2][..1] == [ma] && [ma][..0] == [];
    var st1 := MarkScan([ma]);
    assert st1 == MarkStep(MarkScan([]), ma, 1);
    assert st1.dict.keys == [InitKey, ma] && st1.last == ma && st1.dict.values[ma] == Line(1);
    var st2 := MarkScan([ma, x]);
    assert st2 == st1;
    var st3 := MarkScan([ma, x, mb]);
    assert st3 == MarkStep(st2, mb, 3);
    assert st3.dict.keys == [InitKey, ma, mb] && st3.last == mb && st3.dict.values[ma] == Pair(Line(1), 3);
    var st4 := MarkScan(lines);
    assert st4 == MarkStep(st3, ma, 4);
    assert st4.dict.keys == [InitKey, ma, mb] && st4.last == ma && st4.dict.values[ma] == Line(4);
  }

  /**
   * A mark that appears again further down loses its first part: on the
   * lines `[A, x, B, A]`, keeping `A` gives the empty text, although the
   * first part named `A` holds the lines `x` and `B`.
   */
  lemma RepeatedMarkLosesPart(ma: string, x: string, mb: string, text: string)
    requires IsMark(ma) && IsMark(mb) && ma != mb && !IsMark(x)
    requires SplitLines(text) == [ma, x, mb, ma]
    ensures PartKeys(SplitLines(text))[1] == ma && PartRanges(SplitLines(text))[1] == (1, 3)
    ensures Slice(SplitLines(text), 1, 3) == [x, mb]
    ensures KeptText([ma], text) == Ok("")
  {
    RepeatedMarkKept(ma, x, mb);
    RepeatedMarkParts(ma, x, mb);
  }

  /** On `[A, x, B, A]`, the plugin keeping `A` extracts no line. */
  lemma RepeatedMarkKept(ma: string, x: string, mb: string)
    requires IsMark(ma) && IsMark(mb) && ma != mb && !IsMark(x)
    ensures var lines := [ma, x, mb, ma]; var d := ScriptMarkDictOf(lines);
      Ranges(d, Selected(d.keys, [ma])) == Ok([(4, 4)]) && Extract(lines, SortByStart([(4, 4)])) == []
  {
    var lines := [ma, x, mb, ma];
    MarkIsNotInit(ma);
    RepeatedMarkDict(ma, x, mb);
    var d := ScriptMarkDictOf(lines);
    assert Selected([mb], [ma]) == [] by {
      assert [mb][1..] == [];
    }
    assert Selected([ma, mb], [ma]) == [ma] by {
      assert [ma, mb][1..] == [mb];
    }
    assert Selected([InitKey, ma, mb], [ma]) == [ma] by {
      assert [InitKey, ma, mb][1..] == [ma, mb];
    }
    assert [ma][1..] == [];
    assert RangeOf(d.values[ma]) == Some((4, 4));
    assert Ranges(d, [ma]) == Prepend([(4, 4)], Ranges(d, []));
    assert [(4, 4)] + [] == [(4, 4)];
    assert SortByStart([(4, 4)]) == [(4, 4)] by {
      assert [(4, 4)][..0] == [];
      assert InsertByStart((4, 4), []) == [] + [(4, 4)];
    }
    ExtractSnoc(lines, [], (4, 4));
    assert [] + [(4, 4)] == [(4, 4)];
  }

  /** On `[A, x, B, A]`, the first part is named `A` and spans the lines 1 to 3. */
  lemma RepeatedMarkParts(ma: string, x: string, mb: string)
    requires IsMark(ma) && IsMark(mb) && !IsMark(x)
    ensures var lines := [ma, x, mb, ma];
      PartKeys(lines)[1] == ma && PartRanges(lines)[1] == (1, 3) && Slice(lines, 1, 3) == [x, mb]
  {
    var lines := [ma, x, mb, ma];
    assert lines[..3] == [ma, x, mb] && lines[..3][..2] == [ma, x] && lines[..3][..2][..1] == [ma] && [ma][..0] == [];
    assert PartKeys([ma]) == [InitKey, ma] && PartStarts([ma]) == [0, 1];
    assert PartKeys([ma, x]) == [InitKey, ma] && PartStarts([ma, x]) == [0, 1];
    assert PartStarts([ma, x, mb]) == [0, 1, 3];
    assert PartStarts(lines) == [0, 1, 3, 4];
    assert lines[1..3] == [x, mb];
  }

  /** The lines of the parts whose mark is listed, each part in full, in document order. */
  function KeptPartLines(keep: seq<string>, lines: seq<string>): seq<string>
  {
    Extract(lines, Chosen(PartKeys(lines), PartRanges(lines), keep))
  }

  /** Extracting one more range appends its lines. */
  lemma ExtractSnoc(lines: seq<string>, rs: seq<(int, int)>, r: (int, int))
    ensures Extract(lines, rs + [r]) == Extract(lines, rs) + Slice(lines, r.0, r.1)
  {
    assert (rs + [r])[..|rs|] == rs;
  }

  /** Extracting two lists of ranges one after the other. */
  lemma {:induction false} ExtractAppend(lines: seq<string>, a: seq<(int, int)>, b: seq<(int, int)>)
    ensures Extract(lines, a + b) == Extract(lines, a) + Extract(lines, b)
    decreases |b|
  {
    if |b| == 0 {
      assert a + b == a;
    } else {
      var front, last := b[..|b| - 1], b[|b| - 1];
      SnocOfLast(b);
      ExtractAppend(lines, a, front);
      ExtractAppendStep(lines, a, front, last);
    }
  }

  lemma SnocOfLast<T>(b: seq<T>)
    requires |b| > 0
    ensures b[..|b| - 1] + [b[|b| - 1]] == b
  {
  }

  /** One more range at the end of the second list. */
  lemma ExtractAppendStep(lines: seq<string>, a: seq<(int, int)>, front: seq<(int, int)>, last: (int, int))
    requires Extract(lines, a + front) == Extract(lines, a) + Extract(lines, front)
    ensures Extract(lines, a + (front + [last])) == Extract(lines, a) + Extract(lines, front + [last])
  {
    SnocAssoc(a, front, last);
    ExtractSnoc(lines, a + front, last);
    ExtractSnoc(lines, front, last);
    ConcatAssoc(Extract(lines, a), Extract(lines, front), Slice(lines, last.0, last.1));
  }

  lemma ConcatAssoc<T>(x: seq<T>, y: seq<T>, z: seq<T>)
    ensures (x + y) + z == x + (y + z)
  {
  }

  lemma SnocAssoc<T>(a: seq<T>, front: seq<T>, last: T)
    ensures (a + front) + [last] == a + (front + [last])
  {
  }

  /** The ranges chosen before the key `k`, the range of `k` if listed, and those after it. */
  lemma {:induction false} ChosenSplit(keys: seq<string>, rs: seq<(int, int)>, keep: seq<string>, k: nat)
    requires |keys| == |rs| && k < |keys|
    ensures Chosen(keys, rs, keep)
      == Chosen(keys[..k], rs[..k], keep) + (if keys[k] in keep then [rs[k]] else []) + Chosen(keys[k + 1..], rs[k + 1..], keep)
    decreases k
  {
    var head := if keys[0] in keep then [rs[0]] else [];
    if k == 0 {
      assert keys[..0] == [] && rs[..0] == [];
    } else {
      ChosenSplit(keys[1..], rs[1..], keep, k - 1);
      TailSlices(keys, k);
      TailSlices(rs, k);
      var mid := if keys[k] in keep then [rs[k]] else [];
      var b1 := Chosen(keys[..k][1..], rs[..k][1..], keep);
      var after := Chosen(keys[k + 1..], rs[k + 1..], keep);
      assert Chosen(keys[1..], rs[1..], keep) == (b1 + mid) + after;
      assert Chosen(keys, rs, keep) == head + ((b1 + mid) + after);
      assert Chosen(keys[..k], rs[..k], keep) == head + b1;
      ConcatAssoc(head, b1, mid);
      ConcatAssoc(head, b1 + mid, after);
    }
  }

  /** Slicing after the head, then at `k - 1`, is slicing at `k`. */
  lemma TailSlices<T>(xs: seq<T>, k: nat)
    requires 0 < k < |xs|
    ensures xs[1..][..k - 1] == xs[..k][1..] && xs[1..][k - 1] == xs[k]
    ensures xs[1..][k..] == xs[k + 1..] && xs[..k][0] == xs[0]
  {
  }

  /**
   * Whether or not marks repeat, every part whose mark is listed comes out
   * whole: its lines form one block of the kept lines.
   */
  lemma KeptPartsComplete(keep: seq<string>, lines: seq<string>, k: nat)
    requires k < |PartKeys(lines)| && PartKeys(lines)[k] in keep
    ensures exists u, v :: KeptPartLines(keep, lines) == u + Slice(lines, PartStarts(lines)[k], PartEnd(lines, k)) + v
  {
    var keys, rs := PartKeys(lines), PartRanges(lines);
    ChosenSplit(keys, rs, keep, k);
    var before, after := Chosen(keys[..k], rs[..k], keep), Chosen(keys[k + 1..], rs[k + 1..], keep);
    ExtractAppend(lines, before + [rs[k]], after);
    ExtractAppend(lines, before, [rs[k]]);
    assert [rs[k]][..0] == [];
    var block := Slice(lines, PartStarts(lines)[k], PartEnd(lines, k));
    assert Extract(lines, [rs[k]]) == block;
    assert KeptPartLines(keep, lines) == Extract(lines, before) + block + Extract(lines, after);
  }

  /** With distinct marks, keeping whole parts is what the plugin does. */
  lemma KeptPartsAsPlugin(keep: seq<string>, text: string)
    requires DistinctMarks(SplitLines(text))
    ensures KeptText(keep, text) == Ok(Join(KeptPartLines(keep, SplitLines(text)), "\n"))
  {
    KeptTextInOrder(keep, text);
  }

  // ---------------------------------------------------------------------
  // Array

  const ArrayBegin: string := "\\begin{array}[]"
  const ColumnsOpen: string := "{|c|"
  const Column: string := "c|"
  const HeaderClose: string := "}\n\\hline\n"
  const CellSeparator: string := "&"
  const RowEnd: string := "\\\\\n\\hline\n"
  const ArrayEnd: string := "\\end{array}"

  /** The pieces before the rows: the column specification, one `c` per column. */
  function HeaderPieces(ncols: int): seq<string>
  {
    [ArrayBegin, ColumnsOpen] + seq(if ncols > 1 then ncols - 1 else 0, _ => Column) + [HeaderClose]
  }

  /** The text of cell `(x, y)`, when present. */
  function CellText(dic: map<(int, int), string>, x: int, y: int): string
  {
    if (x, y) in dic then dic[(x, y)] else ""
  }

  /** The first `m` cells of line `y`, each followed by `&`. */
  function CellPieces(dic: map<(int, int), string>, y: int, m: nat): (r: seq<string>)
    ensures |r| == 2 * m
  {
    if m == 0 then [] else CellPieces(dic, y, m - 1) + [CellText(dic, m - 1, y), CellSeparator]
  }

  /** `a[:-1]`. */
  function DropLast(a: seq<string>): seq<string>
  {
    if |a| == 0 then [] else a[..|a| - 1]
  }

  /** The list `a` of `latex()` after the first `n` lines. */
  function LatexPieces(dic: map<(int, int), string>, ncols: int, n: nat): seq<string>
  {
    if n == 0 then HeaderPieces(ncols)
    else DropLast(LatexPieces(dic, ncols, n - 1) + CellPieces(dic, n - 1, if ncols > 0 then ncols else 0)) + [RowEnd]
  }

  /** A cell of the `ncols` by `nlines` grid is missing. */
  predicate MissingCell(dic: map<(int, int), string>, nlines: int, ncols: int)
  {
    exists x, y :: 0 <= x < ncols && 0 <= y < nlines && (x, y) !in dic
  }

  /** `latex()` on the cells and the counts; KeyError for a missing cell. */
  method ArrayLatex(dic: map<(int, int), string>, nlines: int, ncols: int) returns (r: Result<string>)
    ensures r.Err? <==> MissingCell(dic, nlines, ncols)
    ensures r.Err? ==> r == Err(KeyError)
    ensures r.Ok? ==> r.value == Concat(LatexPieces(dic, ncols, if nlines > 0 then nlines else 0) + [ArrayEnd])
  {
    var a := [ArrayBegin, ColumnsOpen];
    var k := 0;
    while k < ncols - 1
      invariant 0 <= k && (ncols > 1 ==> k <= ncols - 1) && (ncols <= 1 ==> k == 0)
      invariant a == [ArrayBegin, ColumnsOpen] + seq(k, _ => Column)
    {
      a := a + [Column];
      k := k + 1;
    }
    assert k == (if ncols > 1 then ncols - 1 else 0);
    a := a + [HeaderClose];
    var i := 0;
    while i < nlines
      invariant 0 <= i && (nlines > 0 ==> i <= nlines) && (nlines <= 0 ==> i == 0)
      invariant a == LatexPieces(dic, ncols, i)
      invariant forall x, y :: 0 <= x < ncols && 0 <= y < i ==> (x, y) in dic
    {
      var row := RowPieces(dic, i, ncols);
      if row.Err? {
        return Err(KeyError);
      }
      a := DropLast(a + row.value) + [RowEnd];
      i := i + 1;
    }
    assert !MissingCell(dic, nlines, ncols);
    r := Ok(Concat(a + [ArrayEnd]));
  }

  /** The inner loop of `latex()`: the cells of line `y`, each followed by `&`. */
  method RowPieces(dic: map<(int, int), string>, y: int, ncols: int) returns (r: Result<seq<string>>)
    ensures r.Err? <==> exists x :: 0 <= x < ncols && (x, y) !in dic
    ensures r.Ok? ==> r.value == CellPieces(dic, y, if ncols > 0 then ncols else 0)
  {
    var cells: seq<string> := [];
    var j := 0;
    while j < ncols
      invariant 0 <= j && (ncols > 0 ==> j <= ncols) && (ncols <= 0 ==> j == 0)
      invariant cells == CellPieces(dic, y, j)
      invariant forall x :: 0 <= x < j ==> (x, y) in dic
    {
      if (j, y) !in dic {
        return Err(KeyError);
      }
      cells := cells + [dic[(j, y)], CellSeparator];
      j := j + 1;
    }
    return Ok(cells);
  }

  /** Line `y` of the array: its `m` cells separated by `&`. */
  function RowText(dic: map<(int, int), string>, y: int, m: nat): string
    requires m >= 1
  {
    if m == 1 then CellText(dic, 0, y) else RowText(dic, y, m - 1) + CellSeparator + CellText(dic, m - 1, y)
  }

  /** The lines of the array, each ending in `\\` and `\hline`. */
  function RowsText(dic: map<(int, int), string>, m: nat, n: nat): string
    requires m >= 1
  {
    if n == 0 then "" else RowsText(dic, m, n - 1) + RowText(dic, n - 1, m) + RowEnd
  }

  /** Dropping the last `&` of a line leaves its cells joined by `&`. */
  lemma {:induction false} RowJoined(dic: map<(int, int), string>, y: int, m: nat)
    requires m >= 1
    ensures DropLast(CellPieces(dic, y, m)) == CellPieces(dic, y, m - 1) + [CellText(dic, m - 1, y)]
    ensures Concat(DropLast(CellPieces(dic, y, m))) == RowText(dic, y, m)
    decreases m
  {
    var prev := CellPieces(dic, y, m - 1);
    var cell := CellText(dic, m - 1, y);
    assert CellPieces(dic, y, m) == prev + [cell, CellSeparator];
    assert DropLast(prev + [cell, CellSeparator]) == prev + [cell];
    ConcatSnoc(prev, cell);
    if m > 1 {
      RowJoined(dic, y, m - 1);
      var front := DropLast(prev);
      assert prev[|prev| - 1] == CellSeparator;
      assert prev == front + [CellSeparator];
      ConcatSnoc(front, CellSeparator);
      assert RowText(dic, y, m) == RowText(dic, y, m - 1) + CellSeparator + cell;
    }
  }

  /**
   * With at least one column, the array is the header with one `c` per
   * column, then each line's cells joined by `&` and ended by `\\` and
   * `\hline`.
   */
  lemma {:induction false} LatexLayout(dic: map<(int, int), string>, ncols: int, n: nat)
    requires ncols >= 1
    ensures Concat(LatexPieces(dic, ncols, n)) == Concat(HeaderPieces(ncols)) + RowsText(dic, ncols, n)
    decreases n
  {
    if n > 0 {
      var before := LatexPieces(dic, ncols, n - 1);
      var cells := CellPieces(dic, n - 1, ncols);
      var row := DropLast(cells);
      assert LatexPieces(dic, ncols, n) == DropLast(before + cells) + [RowEnd];
      assert DropLast(before + cells) == before + row;
      var header := Concat(HeaderPieces(ncols));
      var rows := RowsText(dic, ncols, n - 1);
      var line := RowText(dic, n - 1, ncols);
      var pieces := before + row + [RowEnd];
      assert LatexPieces(dic, ncols, n) == pieces;
      LatexLayout(dic, ncols, n - 1);
      RowJoined(dic, n - 1, ncols);
      var cb, cr := Concat(before), Concat(row);
      assert cb == header + rows;
      assert cr == line;
      calc {
        Concat(pieces);
        { ConcatSnoc(before + row, RowEnd); }
        Concat(before + row) + RowEnd;
        { ConcatAppend(before, row); }
        cb + cr + RowEnd;
        header + rows + line + RowEnd;
      }
      assert RowsText(dic, ncols, n) == rows + line + RowEnd;
      StringAssoc(header, rows, line, RowEnd);
    } else {
      var header := Concat(HeaderPieces(ncols));
      assert header + "" == header;
    }
  }

  lemma StringAssoc(a: string, b: string, c: string, d: string)
    ensures a + b + c + d == a + (b + c + d)
  {
  }

  /** The header names `ncols` columns: one `|c|` and then `c|` for each further column. */
  lemma HeaderColumns(ncols: int)
    requires ncols >= 1
    ensures |HeaderPieces(ncols)| == ncols + 2
    ensures forall k :: 2 <= k < ncols + 1 ==> HeaderPieces(ncols)[k] == Column
  {
  }

  /** With no column (every x negative), the line ends eat the header's closing brace. */
  lemma {:induction false} LatexWithoutColumns(dic: map<(int, int), string>, ncols: int, n: nat)
    requires ncols < 1 && n >= 1
    ensures LatexPieces(dic, ncols, n) == [ArrayBegin, ColumnsOpen, RowEnd]
    decreases n
  {
    if n > 1 {
      LatexWithoutColumns(dic, ncols, n - 1);
    }
  }

  /** `Array(dic)`: the cells and the number of lines and columns they span. */
  class Array {
    var dic: map<(int, int), string>
    var nlines: int
    var ncols: int

    constructor(dic: map<(int, int), string>)
      requires |dic| > 0
      ensures this.dic == dic
      ensures (forall k :: k in dic ==> k.1 < nlines && k.0 < ncols)
      ensures (exists k :: k in dic && k.1 == nlines - 1) && (exists k :: k in dic && k.0 == ncols - 1)
    {
      var y, x := Extent(dic);
      this.dic := dic;
      nlines, ncols := y, x;
    }

    /** `latex()`. */
    method Latex() returns (r: Result<string>)
      ensures r.Err? <==> MissingCell(dic, nlines, ncols)
      ensures r.Err? ==> r == Err(KeyError)
      ensures r.Ok? ==> r.value == Concat(LatexPieces(dic, ncols, if nlines > 0 then nlines else 0) + [ArrayEnd])
    {
      r := ArrayLatex(dic, nlines, ncols);
    }
  }

  /** `Array(dic)`, which raises ValueError (`max` of an empty list) when there is no cell. */
  method NewArray(dic: map<(int, int), string>) returns (r: Result<Array>)
    ensures r.Err? <==> |dic| == 0
    ensures r.Err? ==> r == Err(ValueError)
    ensures r.Ok? ==> fresh(r.value) && r.value.dic == dic
  {
    if |dic| == 0 {
      return Err(ValueError);
    }
    var a := new Array(dic);
    return Ok(a);
  }

  /**
   * `max([x[1] for x in dic.keys()]) + 1` and `max([x[0] for x in dic.keys()]) + 1`:
   * one more than the largest line and column index.
   */
  method Extent(dic: map<(int, int), string>) returns (nlines: int, ncols: int)
    requires |dic| > 0
    ensures forall k :: k in dic ==> k.1 < nlines && k.0 < ncols
    ensures (exists k :: k in dic && k.1 == nlines - 1) && (exists k :: k in dic && k.0 == ncols - 1)
  {
    var rest := dic.Keys;
    SomeKey(rest);
    var first :| first in rest;
    var y, x := first.1, first.0;
    var ky, kx := first, first;
    rest := rest - {first};
    while |rest| > 0
      invariant rest <= dic.Keys
      invariant ky in dic && ky.1 == y && kx in dic && kx.0 == x
      invariant forall k :: k in dic && k !in rest ==> k.1 <= y && k.0 <= x
      decreases |rest|
    {
      SomeKey(rest);
      var k :| k in rest;
      if k.1 > y {
        y, ky := k.1, k;
      }
      if k.0 > x {
        x, kx := k.0, k;
      }
      rest := rest - {k};
    }
    nlines, ncols := y + 1, x + 1;
  }

  /** A non-empty set of cell positions has an element. */
  lemma SomeKey(s: set<(int, int)>)
    requires |s| > 0
    ensures exists k :: k in s
  {
    if forall k :: k !in s {
      assert false;
    }
  }
}
