/**
 * One use of a macro in a LaTeX text (Occurrence.py): the macro name, its
 * brace arguments, the text as written in the source and its position.
 * `arguments` and `arguments_list` are one and the same list object, and
 * `change_argument` writes into it, so the model keeps the list as an array
 * shared by both fields and by every occurrence built from it.
 */
module OccurrenceModel {
  import opened PyStr

  /** `"{" + arg + "}"`. */
  function Braced(arg: string): (r: string)
    ensures |r| == |arg| + 2
  {
    "{" + arg + "}"
  }

  /** `name + c0 + "{a0}" + c1 + "{a1}" + ...`: an occurrence written from its separators. */
  function Render(name: string, separators: seq<string>, args: seq<string>): string
    requires |separators| == |args|
  {
    name + Tail(separators, args)
  }

  /** The written text after the name: `c0 + "{a0}" + c1 + "{a1}" + ...`. */
  function Tail(separators: seq<string>, args: seq<string>): string
    requires |separators| == |args|
  {
    if |args| == 0 then "" else separators[0] + Braced(args[0]) + Tail(separators[1..], args[1..])
  }

  /**
   * The separators `configuration` reads off `a` (what follows the name): before
   * each argument, the text up to its braced copy; then `a` becomes the piece of
   * text between that copy and the next copy of the same braced argument.
   */
  function Separators(a: string, args: seq<string>): (r: Result<seq<string>>)
    ensures r.Ok? ==> |r.value| == |args|
    decreases |args|
  {
    if |args| == 0 then Ok([])
    else
      var split := Split(a, Braced(args[0]));
      if |split| < 2 then Err(IndexError)
      else
        Prepend([split[0]], Separators(split[1], args[1..]))
  }

  /** `configuration()` on an occurrence with the given name, text and arguments. */
  function ConfigurationOf(asWritten: string, name: string, args: seq<string>): (r: Result<seq<string>>)
    ensures r.Ok? ==> |r.value| == |args|
  {
    if |name| == 0 then Err(ValueError)
    else
      var split := Split(asWritten, name);
      if |split| < 2 then Err(IndexError) else Separators(split[1], args)
  }

  /** What an occurrence holds at a given moment. */
  datatype OccurrenceValue = OccurrenceValue(name: string, arguments: seq<string>, asWritten: string, position: int)

  /** The `for` loop of `change_argument`: the name, then each separator and its braced argument. */
  method Rebuild(name: string, configuration: seq<string>, args: array<string>) returns (newText: string)
    requires |configuration| == args.Length
    ensures newText == Render(name, configuration, args[..])
  {
    newText := name;
    assert args[0..] == args[..] && configuration[0..] == configuration;
    var i := 0;
    while i < args.Length
      invariant 0 <= i <= args.Length
      invariant Render(name, configuration, args[..]) == newText + Tail(configuration[i..], args[i..])
    {
      assert args[i..][1..] == args[i + 1..] && configuration[i..][1..] == configuration[i + 1..];
      newText := newText + configuration[i] + Braced(args[i]);
      i := i + 1;
    }
  }

  class Occurrence {
    const name: string
    /** `self.arguments`. */
    const arguments: array<string>
    /** `self.arguments_list`: the same list as `self.arguments`. */
    const argumentsList: array<string>
    const numberOfArguments: nat
    const asWritten: string
    const position: int

    constructor (name: string, arguments: array<string>, asWritten: string, position: int)
      ensures this.name == name && this.arguments == arguments && this.argumentsList == arguments
      ensures numberOfArguments == arguments.Length
      ensures this.asWritten == asWritten && this.position == position
    {
      this.name := name;
      this.arguments := arguments;
      this.argumentsList := arguments;
      this.numberOfArguments := arguments.Length;
      this.asWritten := asWritten;
      this.position := position;
    }

    predicate Valid()
    {
      argumentsList == arguments && numberOfArguments == arguments.Length
    }

    function Value(): OccurrenceValue
      reads arguments
    {
      OccurrenceValue(name, arguments[..], asWritten, position)
    }

    /** `__getitem__`: the argument at a Python index. */
    function GetItem(a: int): (r: Result<string>)
      reads arguments
      ensures r.Ok? <==> -arguments.Length <= a < arguments.Length
      ensures 0 <= a < arguments.Length ==> r == Ok(arguments[a])
    {
      At(arguments[..], a)
    }

    /** `configuration()`: the separators that precede each argument in `asWritten`. */
    method Configuration() returns (r: Result<seq<string>>)
      requires Valid()
      ensures r == ConfigurationOf(asWritten, name, arguments[..])
      ensures r.Ok? ==> |r.value| == arguments.Length
    {
      if |name| == 0 {
        return Err(ValueError);
      }
      var parts := Split(asWritten, name);
      if |parts| < 2 {
        return Err(IndexError);
      }
      var a := parts[1];
      var l: seq<string> := [];
      var i := 0;
      assert arguments[0..] == arguments[..];
      PrependNothing(Separators(a, arguments[..]));
      while i < argumentsList.Length
        invariant 0 <= i <= argumentsList.Length && |l| == i
        invariant Separators(parts[1], arguments[..]) == Prepend(l, Separators(a, arguments[i..]))
      {
        var arg := argumentsList[i];
        assert arguments[i..][0] == arg && arguments[i..][1..] == arguments[i + 1..];
        var split := Split(a, Braced(arg));
        var separator := split[0];
        if |split| < 2 {
          return Err(IndexError);
        }
        PrependTwice(l, [separator], Separators(split[1], arguments[i + 1..]));
        a := split[1];
        l := l + [separator];
        i := i + 1;
      }
      assert arguments[i..] == [];
      assert l + [] == l;
      r := Ok(l);
    }

    /**
     * `change_argument(num, func)`: applies `func` to argument `num` (counted
     * from 1, read as a Python index after subtracting one) in the shared list,
     * then builds a new occurrence, sharing that list, from the name, the
     * separators and the new arguments.
     */
    method ChangeArgument(num: int, func: string -> string) returns (r: Result<Occurrence>)
      requires Valid()
      modifies arguments
      ensures var config := ConfigurationOf(asWritten, name, old(arguments[..]));
        var n := arguments.Length;
        var k := if num - 1 < 0 then num - 1 + n else num - 1;
        if config.Err? then r == Err(config.error) && arguments[..] == old(arguments[..])
        else if !(-n <= num - 1 < n) then r == Err(IndexError) && arguments[..] == old(arguments[..])
        else
          && arguments[..] == old(arguments[..])[k := func(old(arguments[k]))]
          && r.Ok? && fresh(r.value) && r.value.Valid()
          && r.value.arguments == arguments
          && r.value.name == name && r.value.position == position
          && r.value.asWritten == Render(name, config.value, arguments[..])
    {
      var n := num - 1;
      var args := argumentsList;
      var configuration := Configuration();
      if configuration.Err? {
        return Err(configuration.error);
      }
      if !(-args.Length <= n < args.Length) {
        return Err(IndexError);
      }
      var idx := if n < 0 then n + args.Length else n;
      args[idx] := func(args[idx]);
      // `configuration` has one separator per argument, so the source's
      // ValueError on differing lengths cannot be raised.
      var newText := Rebuild(name, configuration.value, args);
      var o := new Occurrence(name, args, newText, position);
      return Ok(o);
    }
  }

  /**
   * Each braced argument first occurs right after its separator and does not
   * occur again in what follows it.
   */
  predicate Unambiguous(separators: seq<string>, args: seq<string>)
    requires |separators| == |args|
  {
    |args| == 0 ||
      (&& Find(Tail(separators, args), Braced(args[0])) == |separators[0]|
       && !Contains(Tail(separators[1..], args[1..]), Braced(args[0]))
       && Unambiguous(separators[1..], args[1..]))
  }

  /** The rendered tail starts with the first separator and its braced argument. */
  lemma TailParts(separators: seq<string>, args: seq<string>)
    requires |separators| == |args| > 0
    ensures var t := Tail(separators, args); var k := |separators[0]|;
      && k + |Braced(args[0])| <= |t|
      && t[..k] == separators[0]
      && t[k + |Braced(args[0])|..] == Tail(separators[1..], args[1..])
  {
  }

  lemma {:induction false} SeparatorsOfTail(separators: seq<string>, args: seq<string>)
    requires |separators| == |args|
    requires Unambiguous(separators, args)
    ensures Separators(Tail(separators, args), args) == Ok(separators)
    decreases |args|
  {
    if |args| > 0 {
      var t := Tail(separators, args);
      var b := Braced(args[0]);
      var next := Tail(separators[1..], args[1..]);
      var k := |separators[0]|;
      TailParts(separators, args);
      assert Find(t, b) == k;
      assert Find(next, b) == -1;
      assert Split(next, b) == [next];
      assert Split(t, b) == [separators[0], next];
      SeparatorsOfTail(separators[1..], args[1..]);
      assert Separators(t, args) == Prepend([separators[0]], Separators(next, args[1..]));
      assert separators == [separators[0]] + separators[1..];
    }
  }

  /**
   * `configuration()` followed by the rebuilding of `change_argument` gives
   * back the written text, when the name does not occur again after itself
   * and each braced argument occurs where its separator ends and nowhere after.
   */
  lemma ConfigurationRoundTrip(name: string, separators: seq<string>, args: seq<string>)
    requires |name| > 0 && |separators| == |args|
    requires !Contains(Tail(separators, args), name)
    requires Unambiguous(separators, args)
    ensures ConfigurationOf(Render(name, separators, args), name, args) == Ok(separators)
  {
    var aw := Render(name, separators, args);
    var t := Tail(separators, args);
    assert aw[..|name|] == name;
    FindIs(aw, name, 0);
    assert aw[|name|..] == t;
    assert Split(aw, name) == ["", t];
    SeparatorsOfTail(separators, args);
  }

  /** An occurrence with two equal arguments `\Foo{x}{x}` has no configuration. */
  lemma RepeatedArgumentFails()
    ensures ConfigurationOf("\\Foo{x}{x}", "\\Foo", ["x", "x"]) == Err(IndexError)
  {
    SplitName();
    SplitRepeated();
    assert ["x", "x"][1..] == ["x"];
    assert Separators("", ["x"]) == Err(IndexError) by {
      assert Split("", "{x}") == [""];
    }
  }

  lemma SplitName()
    ensures Split("\\Foo{x}{x}", "\\Foo") == ["", "{x}{x}"]
  {
    var aw := "\\Foo{x}{x}";
    assert aw[..4] == "\\Foo";
    FindIs(aw, "\\Foo", 0);
    assert aw[4..] == "{x}{x}";
    NoBackslash("{x}{x}");
  }

  lemma SplitRepeated()
    ensures Split("{x}{x}", "{x}") == ["", "", ""]
  {
    var b := "{x}";
    assert "{x}{x}"[..3] == b;
    FindIs("{x}{x}", b, 0);
    assert "{x}{x}"[3..] == b;
    assert b[..3] == b;
    FindIs(b, b, 0);
    assert b[3..] == "";
    assert Split("", b) == [""];
  }

  lemma NoBackslash(s: string)
    requires forall k :: 0 <= k < |s| ==> s[k] != '\\'
    ensures Find(s, "\\Foo") == -1
  {
    forall j | 0 <= j && j + 4 <= |s| ensures !OccursAt(s, "\\Foo", j) {
      assert s[j..j + 4][0] == s[j];
    }
  }

  /**
   * The reading `configuration` evidently intends: cut at the first braced copy
   * of the argument and keep everything after it (`split(..., 1)`).
   */
  function SeparatorsFirstSplit(a: string, args: seq<string>): (r: Result<seq<string>>)
    ensures r.Ok? ==> |r.value| == |args|
    decreases |args|
  {
    if |args| == 0 then Ok([])
    else
      var b := Braced(args[0]);
      var k := Find(a, b);
      if k < 0 then Err(IndexError)
      else
        Prepend([a[..k]], SeparatorsFirstSplit(a[k + |b|..], args[1..]))
  }

  /** Cutting at the first copy reads the separators back even with repeated arguments. */
  lemma {:induction false} FirstSplitRoundTrip(separators: seq<string>, args: seq<string>)
    requires |separators| == |args|
    requires FirstAfterSeparators(separators, args)
    ensures SeparatorsFirstSplit(Tail(separators, args), args) == Ok(separators)
    decreases |args|
  {
    if |args| > 0 {
      var t := Tail(separators, args);
      var b := Braced(args[0]);
      TailParts(separators, args);
      FirstSplitRoundTrip(separators[1..], args[1..]);
      assert separators == [separators[0]] + separators[1..];
    }
  }

  /** Each braced argument first occurs right after its separator. */
  predicate FirstAfterSeparators(separators: seq<string>, args: seq<string>)
    requires |separators| == |args|
  {
    |args| == 0 ||
      (Find(Tail(separators, args), Braced(args[0])) == |separators[0]|
       && FirstAfterSeparators(separators[1..], args[1..]))
  }

  /** With `\Foo{x}{x}` the intended reading finds the two empty separators. */
  lemma RepeatedArgumentFirstSplit()
    ensures SeparatorsFirstSplit("{x}{x}", ["x", "x"]) == Ok(["", ""])
  {
    assert "{x}{x}" == Tail(["", ""], ["x", "x"]);
    assert "{x}{x}"[..3] == "{x}";
    FindIs("{x}{x}", "{x}", 0);
    assert "{x}"[..3] == "{x}";
    FindIs("{x}", "{x}", 0);
    assert ["", ""][1..] == [""] && ["x", "x"][1..] == ["x"];
    FirstSplitRoundTrip(["", ""], ["x", "x"]);
  }

  /**
   * `occurrence[0]`: the label of `\cite`, `\label`, `\ref` and `\eqref`, and
   * the file name of `\input`.
   */
  function FirstArgument(o: Occurrence): (r: Result<string>)
    reads o.arguments
    ensures r.Ok? <==> o.arguments.Length > 0
    ensures r.Ok? ==> r.value == o.arguments[0]
  {
    o.GetItem(0)
  }

  /** The name `file_content` looks for: ".tex" is added to a name without a dot. */
  function StrictFilename(filename: string): (r: string)
    ensures StartsWith(r, filename) && Contains(r, ".")
    ensures Contains(filename, ".") ==> r == filename
    ensures |r| <= |filename| + 4
  {
    if Contains(filename, ".") then filename
    else
      var r := filename + ".tex";
      assert OccursAt(r, ".", |filename|);
      r
  }

  /** Completing a file name twice is completing it once. */
  lemma StrictFilenameIdempotent(filename: string)
    ensures StrictFilename(StrictFilename(filename)) == StrictFilename(filename)
  {
  }
}
