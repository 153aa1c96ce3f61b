/**
 * What the scan of `SearchUseOfMacro` promises about the uses it keeps:
 * each is the macro's name written in the text outside comments, followed
 * by its arguments, not a definition, and the uses come in text order.
 */
module ScanProperties {
  import opened PyStr
  import opened OccurrenceModel
  import opened MacroUse

  /**
   * A use as the scanner reports it: `as_written` is the slice of the text
   * at `position` and starts with the name, and the name stands there as
   * a candidate (not preceded by a letter, not followed by a name character).
   */
  predicate UseIn(s: string, name: string, occ: OccurrenceValue)
  {
    && occ.name == name
    && 0 <= occ.position && occ.position + |occ.asWritten| <= |s|
    && s[occ.position..occ.position + |occ.asWritten|] == occ.asWritten
    && StartsWith(occ.asWritten, name)
    && CandidateAt(s, name, occ.position)
  }

  /** Positions strictly increase along the list. */
  predicate Increasing(uses: seq<OccurrenceValue>)
  {
    forall i, j :: 0 <= i < j < |uses| ==> uses[i].position < uses[j].position
  }

  lemma CandidateShift(s: string, name: string, turtle: nat, k: int)
    requires turtle <= |s| && CandidateAt(s[turtle..], name, k)
    ensures CandidateAt(s, name, turtle + k)
  {
    assert s[turtle..][k..k + |name|] == s[turtle + k..turtle + k + |name|];
    assert s[turtle..][k + |name|] == s[turtle + k + |name|];
  }

  /** A use decided by `TurnWith` is the name followed by what the argument search consumed. */
  lemma TurnWithCandidate(name: string, t: nat, outcome: ArgsOutcome)
    ensures var p := TurnWith(name, t, outcome);
      p.Candidate? ==>
        && outcome.Found?
        && p.occ == OccurrenceValue(name, outcome.arguments, name + outcome.asWritten, t - |name|)
        && IsDefinition(name, p.occ.asWritten) == Ok(p.definition)
  {
  }

  /** The name at `pos`, then a prefix of the text after it, is the slice they span. */
  lemma NameThenPrefix(s: string, name: string, pos: nat, rest: string)
    requires OccursAt(s, name, pos) && StartsWith(s[pos + |name|..], rest)
    ensures pos + |name + rest| <= |s| && s[pos..pos + |name + rest|] == name + rest
  {
    var t := pos + |name|;
    assert s[t..][..|rest|] == s[t..t + |rest|];
    assert s[pos..t + |rest|] == s[pos..t] + s[t..t + |rest|];
  }

  /** The name found at `turtle + k`, then a prefix of the text after it, make a use of the name. */
  lemma UseFromCandidate(s: string, name: string, turtle: nat, k: int, t: nat, arguments: seq<string>, rest: string)
    requires turtle <= |s| && CandidateAt(s[turtle..], name, k)
    requires t == turtle + k + |name| && t <= |s| && StartsWith(s[t..], rest)
    ensures UseIn(s, name, OccurrenceValue(name, arguments, name + rest, t - |name|))
  {
    var pos := turtle + k;
    var aw := name + rest;
    CandidateShift(s, name, turtle, k);
    NameThenPrefix(s, name, pos, rest);
    assert aw[..|name|] == name;
  }

  /** A use found outside comments: the name ends at `CandidateEnd` and the arguments are searched from there. */
  lemma TurnAtShape(s: string, name: string, n: nat, turtle: nat, p: Turn)
    requires |name| > 0 && turtle <= |s| && p == TurnAt(s, name, n, turtle) && p.Candidate?
    ensures var c := NextMacroCandidate(s[turtle..], name);
      && c.0 && !c.2
      && p == TurnWith(name, CandidateEnd(s, name, turtle), SearchArgumentsOf(s[CandidateEnd(s, name, turtle)..], n))
  {
  }

  /**
   * A use found outside comments from `turtle` is a use of the name in the
   * text, at or after `turtle`, and its definition flag is the definition
   * test on its `as_written`.
   */
  lemma TurnAtCandidate(s: string, name: string, n: nat, turtle: nat, p: Turn)
    requires |name| > 0 && turtle <= |s| && p == TurnAt(s, name, n, turtle) && p.Candidate?
    ensures UseIn(s, name, p.occ) && turtle <= p.occ.position
    ensures IsDefinition(name, p.occ.asWritten) == Ok(p.definition)
  {
    TurnAtShape(s, name, n, turtle, p);
    var c := NextMacroCandidate(s[turtle..], name);
    var t := CandidateEnd(s, name, turtle);
    var o := SearchArgumentsOf(s[t..], n);
    TurnWithCandidate(name, t, o);
    NextMacroCandidateSpec(s[turtle..], name);
    SearchArgumentsBounds(s[t..], n);
    UseFromCandidate(s, name, turtle, c.1, t, o.arguments, o.asWritten);
  }

  /**
   * What a scan from `from` may return: on success one configuration
   * segment more than uses, every use a use of the name in the text at or
   * after `from` and not a definition, in strictly increasing position.
   */
  predicate UsesFrom(s: string, name: string, from: int, r: Result<Scan>)
  {
    r.Ok? ==>
      && |r.value.configuration| == |r.value.uses| + 1
      && (forall i :: 0 <= i < |r.value.uses| ==>
            UseIn(s, name, r.value.uses[i]) && from <= r.value.uses[i].position && IsDefinition(name, r.value.uses[i].asWritten) == Ok(false))
      && Increasing(r.value.uses)
  }

  /** A use outside comments: the scan goes on after its name, keeping it unless it is a definition. */
  lemma ScanStepCandidate(s: string, name: string, n: nat, turtle: nat, configTurtle: nat, p: Turn)
    requires |name| > 0 && turtle <= |s| && Advances(s, name, turtle, p) && p.Candidate?
    ensures var rest := ScanFrom(s, name, n, p.occ.position + |name|, p.occ.position + |p.occ.asWritten|);
      ScanAfter(s, name, n, turtle, configTurtle, p)
        == if p.definition then rest else Keep(p.occ, Slice(s, configTurtle, p.occ.position), rest)
  {
  }

  /** A use in front of later uses, all after it and increasing, keeps them increasing. */
  lemma IncreasingCons(occ: OccurrenceValue, later: seq<OccurrenceValue>)
    requires forall i :: 0 <= i < |later| ==> occ.position < later[i].position
    requires Increasing(later)
    ensures Increasing([occ] + later)
  {
    var uses := [occ] + later;
    forall i, j | 0 <= i < j < |uses| ensures uses[i].position < uses[j].position {
      assert uses[j] == later[j - 1];
      if i > 0 {
        assert uses[i] == later[i - 1];
      }
    }
  }

  /** Putting a use in front of the uses found after it keeps them increasing and in the text. */
  lemma KeepUses(s: string, name: string, from: int, occ: OccurrenceValue, segment: string, rest: Result<Scan>)
    requires UseIn(s, name, occ) && from <= occ.position && IsDefinition(name, occ.asWritten) == Ok(false)
    requires UsesFrom(s, name, occ.position + 1, rest)
    ensures UsesFrom(s, name, from, Keep(occ, segment, rest))
  {
    if rest.Ok? {
      var later := rest.value.uses;
      IncreasingCons(occ, later);
      var uses := [occ] + later;
      forall i | 0 <= i < |uses|
        ensures UseIn(s, name, uses[i]) && from <= uses[i].position && IsDefinition(name, uses[i].asWritten) == Ok(false)
      {
        if i > 0 {
          assert uses[i] == later[i - 1];
        }
      }
    }
  }

  /** Uses found at or after `later` are found at or after any earlier point. */
  lemma UsesFromEarlier(s: string, name: string, from: int, later: int, r: Result<Scan>)
    requires from <= later && UsesFrom(s, name, later, r)
    ensures UsesFrom(s, name, from, r)
  {
  }

  /** A use, kept or dropped as a definition, in front of what the scan finds after it. */
  lemma CandidateUses(s: string, name: string, turtle: int, occ: OccurrenceValue, definition: bool, segment: string,
                      rest: Result<Scan>, r: Result<Scan>)
    requires |name| > 0 && UseIn(s, name, occ) && turtle <= occ.position && IsDefinition(name, occ.asWritten) == Ok(definition)
    requires UsesFrom(s, name, occ.position + |name|, rest)
    requires r == if definition then rest else Keep(occ, segment, rest)
    ensures UsesFrom(s, name, turtle, r)
  {
    if definition {
      UsesFromEarlier(s, name, turtle, occ.position + |name|, rest);
    } else {
      UsesFromEarlier(s, name, occ.position + 1, occ.position + |name|, rest);
      KeepUses(s, name, turtle, occ, segment, rest);
    }
  }

  /** The scan step at a use outside comments keeps what the scan after it promises. */
  lemma ScanStepUses(s: string, name: string, n: nat, turtle: nat, configTurtle: nat, p: Turn)
    requires |name| > 0 && turtle <= |s| && Advances(s, name, turtle, p) && p.Candidate?
    requires UseIn(s, name, p.occ) && turtle <= p.occ.position && IsDefinition(name, p.occ.asWritten) == Ok(p.definition)
    requires UsesFrom(s, name, p.occ.position + |name|, ScanFrom(s, name, n, p.occ.position + |name|, p.occ.position + |p.occ.asWritten|))
    ensures UsesFrom(s, name, turtle, ScanAfter(s, name, n, turtle, configTurtle, p))
  {
    ScanStepCandidate(s, name, n, turtle, configTurtle, p);
    var rest := ScanFrom(s, name, n, p.occ.position + |name|, p.occ.position + |p.occ.asWritten|);
    CandidateUses(s, name, turtle, p.occ, p.definition, Slice(s, configTurtle, p.occ.position), rest,
                  ScanAfter(s, name, n, turtle, configTurtle, p));
  }

  /** Every use the scan from `turtle` keeps is a use of the name in the text after `turtle`. */
  lemma ScanFromUses(s: string, name: string, n: nat, turtle: nat, configTurtle: nat)
    requires |name| > 0 && turtle <= |s|
    ensures UsesFrom(s, name, turtle, ScanFrom(s, name, n, turtle, configTurtle))
    decreases |s| - turtle
  {
    var p := TurnAt(s, name, n, turtle);
    ScanTurn(s, name, n, turtle, configTurtle, p);
    if p.InComment? {
      ScanStepComment(s, name, n, turtle, configTurtle, p);
      ScanFromUses(s, name, n, p.next, configTurtle);
    } else if p.Candidate? {
      TurnAtCandidate(s, name, n, turtle, p);
      ScanFromUses(s, name, n, p.occ.position + |name|, p.occ.position + |p.occ.asWritten|);
      ScanStepUses(s, name, n, turtle, configTurtle, p);
    }
  }

  /**
   * `SearchUseOfMacro` on a text holding the name: the kept uses (as values
   * of the `Occurrence` objects it returns) are uses of the name in the
   * text, not definitions, in strictly increasing position, and with the
   * configuration there is exactly one segment more than uses.
   */
  lemma SearchUseOfMacroUses(s: string, name: string, n: nat)
    requires |name| > 0
    ensures match ScanFrom(s, name, n, 0, 0)
      case Ok(sc) =>
        && |sc.configuration| == |sc.uses| + 1
        && (forall i :: 0 <= i < |sc.uses| ==> UseIn(s, name, sc.uses[i]) && IsDefinition(name, sc.uses[i].asWritten) == Ok(false))
        && Increasing(sc.uses)
      case Err(_) => true
  {
    ScanFromUses(s, name, n, 0, 0);
  }

  // ---------------------------------------------------------------------
  // Configuration completeness

  /** The configuration segments with each use's `as_written` between two consecutive ones. */
  function Interleave(configuration: seq<string>, uses: seq<OccurrenceValue>): string
    requires |configuration| == |uses| + 1
  {
    if |uses| == 0 then configuration[0]
    else configuration[0] + uses[0].asWritten + Interleave(configuration[1..], uses[1..])
  }

  /** Each use's `as_written` ends at or before the position of the next use. */
  predicate Disjoint(uses: seq<OccurrenceValue>)
  {
    forall i :: 0 <= i < |uses| - 1 ==> uses[i].position + |uses[i].asWritten| <= uses[i + 1].position
  }

  /** The uses lie one after the other in the text from `from` on. */
  predicate Spread(uses: seq<OccurrenceValue>, from: int)
  {
    Disjoint(uses) && (|uses| > 0 ==> from <= uses[0].position)
  }

  /** A turn that meets a definition of the macro, which the scan drops. */
  predicate DefinitionTurn(p: Turn)
  {
    p.Candidate? && p.definition
  }

  /** From no point at or after `turtle` does the scan meet a candidate outside comments that is a definition. */
  predicate NoDefinitionSkipped(s: string, name: string, n: nat, turtle: nat)
    requires |name| > 0 && turtle <= |s|
  {
    forall t :: turtle <= t <= |s| ==> !DefinitionTurn(TurnAt(s, name, n, t))
  }

  lemma SpreadCons(occ: OccurrenceValue, later: seq<OccurrenceValue>, from: int)
    ensures Spread([occ] + later, from) <==> from <= occ.position && Spread(later, occ.position + |occ.asWritten|)
  {
    var uses := [occ] + later;
    assert uses[0] == occ;
    if Spread(later, occ.position + |occ.asWritten|) {
      forall i | 0 <= i < |uses| - 1 ensures uses[i].position + |uses[i].asWritten| <= uses[i + 1].position {
        if i > 0 {
          assert uses[i] == later[i - 1] && uses[i + 1] == later[i];
        }
      }
    }
    if Spread(uses, from) {
      if |later| > 0 {
        assert uses[1] == later[0];
      }
      forall i | 0 <= i < |later| - 1 ensures later[i].position + |later[i].asWritten| <= later[i + 1].position {
        assert uses[i + 1] == later[i] && uses[i + 2] == later[i + 1];
      }
    }
  }

  /**
   * The scan result `sc` accounts for the text from `from`: the interleaving
   * is never shorter than that text, equals it when the uses lie one after
   * the other from `from`, and has its length only when they do.
   */
  predicate Covers(s: string, from: nat, sc: Scan)
    requires from <= |s|
  {
    && |sc.configuration| == |sc.uses| + 1
    && |Interleave(sc.configuration, sc.uses)| >= |s| - from
    && (Spread(sc.uses, from) ==> Interleave(sc.configuration, sc.uses) == s[from..])
    && (|Interleave(sc.configuration, sc.uses)| == |s| - from ==> Spread(sc.uses, from))
  }

  /** A kept use in front of a result that covers the text after it covers the text from `from`. */
  lemma CoversKeep(s: string, from: nat, occ: OccurrenceValue, sc: Scan)
    requires from <= |s| && 0 <= occ.position && occ.position + |occ.asWritten| <= |s|
    requires s[occ.position..occ.position + |occ.asWritten|] == occ.asWritten
    requires Covers(s, occ.position + |occ.asWritten|, sc)
    ensures Covers(s, from, Scan([occ] + sc.uses, [Slice(s, from, occ.position)] + sc.configuration))
  {
    var segment := Slice(s, from, occ.position);
    var tail := Interleave(sc.configuration, sc.uses);
    assert ([segment] + sc.configuration)[1..] == sc.configuration;
    assert ([occ] + sc.uses)[1..] == sc.uses;
    assert Interleave([segment] + sc.configuration, [occ] + sc.uses) == segment + occ.asWritten + tail;
    SpreadCons(occ, sc.uses, from);
    if Spread([occ] + sc.uses, from) {
      Glue(s, from, occ, tail);
    }
  }

  /** The segment before a use, the use and what follows it, glued back together. */
  lemma Glue(s: string, from: nat, occ: OccurrenceValue, tail: string)
    requires from <= occ.position && occ.position + |occ.asWritten| <= |s|
    requires s[occ.position..occ.position + |occ.asWritten|] == occ.asWritten
    requires tail == s[occ.position + |occ.asWritten|..]
    ensures Slice(s, from, occ.position) + occ.asWritten + tail == s[from..]
  {
    var p := occ.position;
    var e := p + |occ.asWritten|;
    assert s[from..] == s[from..p] + s[p..e] + s[e..];
  }

  /**
   * When the scan drops no candidate as a definition, its result covers
   * the text from `configTurtle`.
   */
  lemma {:induction false} InterleaveFrom(s: string, name: string, n: nat, turtle: nat, configTurtle: nat)
    requires |name| > 0 && turtle <= |s| && configTurtle <= |s|
    requires NoDefinitionSkipped(s, name, n, turtle)
    ensures ScanFrom(s, name, n, turtle, configTurtle).Ok? ==> Covers(s, configTurtle, ScanFrom(s, name, n, turtle, configTurtle).value)
    decreases |s| - turtle
  {
    var p := TurnAt(s, name, n, turtle);
    ScanTurn(s, name, n, turtle, configTurtle, p);
    if p.InComment? {
      ScanStepComment(s, name, n, turtle, configTurtle, p);
      InterleaveFrom(s, name, n, p.next, configTurtle);
    } else if p.Candidate? {
      TurnAtCandidate(s, name, n, turtle, p);
      var t := p.occ.position + |name|;
      var e := p.occ.position + |p.occ.asWritten|;
      InterleaveFrom(s, name, n, t, e);
      CoversCandidate(s, name, n, turtle, configTurtle, p, t, e);
    }
  }

  /** A use kept by the scan step, in front of a covering rest, covers the text from `configTurtle`. */
  lemma CoversCandidate(s: string, name: string, n: nat, turtle: nat, configTurtle: nat, p: Turn, t: nat, e: nat)
    requires |name| > 0 && turtle <= |s| && configTurtle <= |s| && Advances(s, name, turtle, p) && p.Candidate? && !p.definition
    requires UseIn(s, name, p.occ) && t == p.occ.position + |name| && e == p.occ.position + |p.occ.asWritten|
    requires ScanFrom(s, name, n, t, e).Ok? ==> Covers(s, e, ScanFrom(s, name, n, t, e).value)
    ensures ScanAfter(s, name, n, turtle, configTurtle, p).Ok? ==> Covers(s, configTurtle, ScanAfter(s, name, n, turtle, configTurtle, p).value)
  {
    ScanStepCandidate(s, name, n, turtle, configTurtle, p);
    var rest := ScanFrom(s, name, n, t, e);
    if rest.Ok? {
      CoversKeep(s, configTurtle, p.occ, rest.value);
    }
  }

  /**
   * Configuration completeness of `SearchUseOfMacro`: when no candidate is
   * dropped as a definition, the text is the interleaving of the
   * configuration with the kept uses' `as_written` if and only if no kept
   * use starts inside the `as_written` of the one before it.
   */
  lemma ConfigurationComplete(s: string, name: string, n: nat)
    requires |name| > 0 && NoDefinitionSkipped(s, name, n, 0)
    ensures match ScanFrom(s, name, n, 0, 0)
      case Ok(sc) =>
        && |sc.configuration| == |sc.uses| + 1
        && (Interleave(sc.configuration, sc.uses) == s <==> Disjoint(sc.uses))
      case Err(_) => true
  {
    InterleaveFrom(s, name, n, 0, 0);
    ScanFromUses(s, name, n, 0, 0);
  }

  /**
   * The scan as the configuration evidently intends it: the configuration
   * cursor moves only past kept uses, so a definition's text stays in the
   * segment around it, and the search goes on after a kept use's
   * `as_written` rather than right after its name.
   */
  function ScanFromIntended(s: string, name: string, n: nat, turtle: nat, configTurtle: nat): Result<Scan>
    requires |name| > 0 && turtle <= |s|
    decreases |s| - turtle, 1
  {
    IntendedAfter(s, name, n, turtle, configTurtle, TurnAt(s, name, n, turtle))
  }

  /** A use found by a turn ends within the text. */
  predicate EndsInText(s: string, name: string, p: Turn)
  {
    p.Candidate? ==> |name| <= |p.occ.asWritten| && p.occ.position + |p.occ.asWritten| <= |s|
  }

  /** The rest of the intended scan once the turn from `turtle` is known. */
  function IntendedAfter(s: string, name: string, n: nat, turtle: nat, configTurtle: nat, p: Turn): Result<Scan>
    requires |name| > 0 && turtle <= |s| && Advances(s, name, turtle, p) && EndsInText(s, name, p)
    decreases |s| - turtle, 0
  {
    match p
    case NoCandidate => Ok(Scan([], [Slice(s, configTurtle, |s|)]))
    case InComment(t) => ScanFromIntended(s, name, n, t, configTurtle)
    case Failed(e) => Err(e)
    case Candidate(occ, definition) =>
      if definition then ScanFromIntended(s, name, n, occ.position + |name|, configTurtle)
      else
        var e := occ.position + |occ.asWritten|;
        Keep(occ, Slice(s, configTurtle, occ.position), ScanFromIntended(s, name, n, e, e))
  }

  /**
   * The intended scan keeps uses of the name in the text, none of them a
   * definition, one after the other, and its configuration interleaved
   * with them gives back the text from the configuration cursor.
   */
  lemma {:induction false} ScanFromIntendedComplete(s: string, name: string, n: nat, turtle: nat, configTurtle: nat)
    requires |name| > 0 && configTurtle <= turtle <= |s|
    ensures UsesFrom(s, name, turtle, ScanFromIntended(s, name, n, turtle, configTurtle))
    ensures match ScanFromIntended(s, name, n, turtle, configTurtle)
      case Ok(sc) => Spread(sc.uses, configTurtle) && Interleave(sc.configuration, sc.uses) == s[configTurtle..]
      case Err(_) => true
    decreases |s| - turtle
  {
    var p := TurnAt(s, name, n, turtle);
    IntendedTurn(s, name, n, turtle, configTurtle, p);
    if p.InComment? {
      ScanFromIntendedComplete(s, name, n, p.next, configTurtle);
    } else if p.Candidate? {
      TurnAtCandidate(s, name, n, turtle, p);
      var t := p.occ.position + |name|;
      var e := p.occ.position + |p.occ.asWritten|;
      IntendedCandidate(s, name, n, turtle, configTurtle, p, t, e);
      if p.definition {
        ScanFromIntendedComplete(s, name, n, t, configTurtle);
        UsesFromEarlier(s, name, turtle, t, ScanFromIntended(s, name, n, t, configTurtle));
      } else {
        ScanFromIntendedComplete(s, name, n, e, e);
        IntendedKeep(s, name, turtle, configTurtle, p.occ, e, ScanFromIntended(s, name, n, e, e));
      }
    }
  }

  /** The intended scan from `turtle` goes on from the turn found there. */
  lemma IntendedTurn(s: string, name: string, n: nat, turtle: nat, configTurtle: nat, p: Turn)
    requires |name| > 0 && turtle <= |s| && p == TurnAt(s, name, n, turtle)
    ensures Advances(s, name, turtle, p) && EndsInText(s, name, p)
    ensures ScanFromIntended(s, name, n, turtle, configTurtle) == IntendedAfter(s, name, n, turtle, configTurtle, p)
  {
  }

  /** The intended scan at a use outside comments. */
  lemma IntendedCandidate(s: string, name: string, n: nat, turtle: nat, configTurtle: nat, p: Turn, t: nat, e: nat)
    requires |name| > 0 && turtle <= |s| && Advances(s, name, turtle, p) && EndsInText(s, name, p) && p.Candidate?
    requires t == p.occ.position + |name| && e == p.occ.position + |p.occ.asWritten|
    ensures p.definition ==> IntendedAfter(s, name, n, turtle, configTurtle, p) == ScanFromIntended(s, name, n, t, configTurtle)
    ensures !p.definition ==>
      IntendedAfter(s, name, n, turtle, configTurtle, p) == Keep(p.occ, Slice(s, configTurtle, p.occ.position), ScanFromIntended(s, name, n, e, e))
  {
  }

  /** A kept use in front of the intended scan after its `as_written`. */
  lemma IntendedKeep(s: string, name: string, turtle: nat, configTurtle: nat, occ: OccurrenceValue, e: nat, rest: Result<Scan>)
    requires |name| > 0 && configTurtle <= turtle <= occ.position && e == occ.position + |occ.asWritten|
    requires UseIn(s, name, occ) && IsDefinition(name, occ.asWritten) == Ok(false)
    requires UsesFrom(s, name, e, rest)
    requires rest.Ok? ==> Spread(rest.value.uses, e) && Interleave(rest.value.configuration, rest.value.uses) == s[e..]
    ensures UsesFrom(s, name, turtle, Keep(occ, Slice(s, configTurtle, occ.position), rest))
    ensures match Keep(occ, Slice(s, configTurtle, occ.position), rest)
      case Ok(sc) => Spread(sc.uses, configTurtle) && Interleave(sc.configuration, sc.uses) == s[configTurtle..]
      case Err(_) => true
  {
    var segment := Slice(s, configTurtle, occ.position);
    UsesFromEarlier(s, name, occ.position + 1, e, rest);
    KeepUses(s, name, turtle, occ, segment, rest);
    if rest.Ok? {
      var sc := rest.value;
      assert ([segment] + sc.configuration)[1..] == sc.configuration;
      assert ([occ] + sc.uses)[1..] == sc.uses;
      assert Interleave([segment] + sc.configuration, [occ] + sc.uses) == segment + occ.asWritten + Interleave(sc.configuration, sc.uses);
      SpreadCons(occ, sc.uses, configTurtle);
      Glue(s, configTurtle, occ, Interleave(sc.configuration, sc.uses));
    }
  }

  /**
   * `SearchUseOfMacro` as intended: its configuration interleaved with the
   * kept uses is the text, and the kept uses lie one after the other.
   */
  lemma SearchUseOfMacroIntended(s: string, name: string, n: nat)
    requires |name| > 0
    ensures match ScanFromIntended(s, name, n, 0, 0)
      case Ok(sc) =>
        && |sc.configuration| == |sc.uses| + 1
        && Interleave(sc.configuration, sc.uses) == s
        && Disjoint(sc.uses)
        && (forall i :: 0 <= i < |sc.uses| ==> UseIn(s, name, sc.uses[i]) && IsDefinition(name, sc.uses[i].asWritten) == Ok(false))
      case Err(_) => true
  {
    ScanFromIntendedComplete(s, name, n, 0, 0);
  }

  /**
   * `\Foo{\Foo{a}}` with one argument: the scan resumes right after the
   * name, so it keeps the use nested in the first argument as well; the
   * configuration is `["", "", "}"]` and the interleaving is not the text.
   */
  lemma NestedUseBreaksConfiguration()
    ensures var s := "\\Foo{\\Foo{a}}";
      var outer := OccurrenceValue("\\Foo", ["\\Foo{a}"], s, 0);
      var inner := OccurrenceValue("\\Foo", ["a"], "\\Foo{a}", 5);
      && ScanFrom(s, "\\Foo", 1, 0, 0) == Ok(Scan([outer, inner], ["", "", "}"]))
      && !Disjoint([outer, inner])
      && Interleave(["", "", "}"], [outer, inner]) != s
  {
    var s := "\\Foo{\\Foo{a}}";
    var name := "\\Foo";
    var outer := OccurrenceValue(name, ["\\Foo{a}"], s, 0);
    var inner := OccurrenceValue(name, ["a"], "\\Foo{a}", 5);
    NestedOuterTurn();
    NestedInnerTurn();
    NestedLastTurn();
    ScanTurn(s, name, 1, 9, 12, NoCandidate);
    assert Slice(s, 12, |s|) == "}";
    var last := ScanFrom(s, name, 1, 9, 12);
    assert last == Ok(Scan([], ["}"]));
    ScanTurn(s, name, 1, 4, 13, Candidate(inner, false));
    ScanStepCandidate(s, name, 1, 4, 13, Candidate(inner, false));
    assert Slice(s, 13, 5) == "";
    var middle := ScanFrom(s, name, 1, 4, 13);
    assert middle == Keep(inner, "", last);
    assert [inner] + [] == [inner] && [""] + ["}"] == ["", "}"];
    assert middle == Ok(Scan([inner], ["", "}"]));
    ScanTurn(s, name, 1, 0, 0, Candidate(outer, false));
    ScanStepCandidate(s, name, 1, 0, 0, Candidate(outer, false));
    assert Slice(s, 0, 0) == "";
    assert ScanFrom(s, name, 1, 0, 0) == Keep(outer, "", middle);
    assert [outer] + [inner] == [outer, inner] && [""] + ["", "}"] == ["", "", "}"];
    var uses := [outer, inner];
    var configuration := ["", "", "}"];
    assert uses[1..] == [inner] && configuration[1..] == ["", "}"];
    assert [inner][1..] == [] && ["", "}"][1..] == ["}"];
    assert Interleave(configuration, uses) == "" + s + Interleave(["", "}"], [inner]);
    assert |Interleave(configuration, uses)| > |s|;
  }

  /** The first turn on `\Foo{\Foo{a}}` keeps the whole text as a use. */
  lemma NestedOuterTurn()
    ensures TurnAt("\\Foo{\\Foo{a}}", "\\Foo", 1, 0)
      == Candidate(OccurrenceValue("\\Foo", ["\\Foo{a}"], "\\Foo{\\Foo{a}}", 0), false)
  {
    var s := "\\Foo{\\Foo{a}}";
    var name := "\\Foo";
    OuterCandidate();
    assert s[0..] == s;
    var s4 := s[4..];
    assert s4 == "{\\Foo{a}}";
    OuterArguments();
    assert name + s4 == s;
    OuterNotDefinition();
  }

  lemma OuterCandidate()
    ensures NextMacroCandidate("\\Foo{\\Foo{a}}", "\\Foo") == (true, 0, false)
  {
    var s := "\\Foo{\\Foo{a}}";
    assert CandidateAt(s, "\\Foo", 0) by { assert s[0..4] == "\\Foo"; }
  }

  lemma OuterNotDefinition()
    ensures IsDefinition("\\Foo", "\\Foo{\\Foo{a}}") == Ok(false)
  {
    var s := "\\Foo{\\Foo{a}}";
    forall k | 0 <= k < |s| ensures s[k] != '%' && s[k] != '\n' && s[k] != ' ' {
      assert k < 13;
      assert s[k] in "\\Foo{a}";
    }
    NotDefinition("\\Foo", s);
  }

  /** The second turn on `\Foo{\Foo{a}}`, from the end of the first name, keeps `\Foo{a}`. */
  lemma NestedInnerTurn()
    ensures TurnAt("\\Foo{\\Foo{a}}", "\\Foo", 1, 4)
      == Candidate(OccurrenceValue("\\Foo", ["a"], "\\Foo{a}", 5), false)
  {
    var s := "\\Foo{\\Foo{a}}";
    var name := "\\Foo";
    var s4 := s[4..];
    assert s4 == "{\\Foo{a}}";
    InnerCandidate();
    var s9 := s[9..];
    assert s9 == "{a}}";
    InnerArguments();
    assert name + "{a}" == "\\Foo{a}";
    InnerNotDefinition();
  }

  lemma InnerCandidate()
    ensures NextMacroCandidate("{\\Foo{a}}", "\\Foo") == (true, 1, false)
  {
    var s4 := "{\\Foo{a}}";
    var name := "\\Foo";
    assert CandidateAt(s4, name, 1) by { assert s4[1..5] == name; }
    assert !CandidateAt(s4, name, 0) by { assert s4[0] != name[0]; }
    assert CandidateFrom(s4, name, 1) == 1;
    assert CandidateFrom(s4, name, 0) == 1;
    assert s4[..1] == "{";
    assert RFind("{", '\n') == -1;
    assert LineStart(s4, 1) == 0;
    assert s4[0..1] == "{";
  }

  lemma InnerNotDefinition()
    ensures IsDefinition("\\Foo", "\\Foo{a}") == Ok(false)
  {
    var aw := "\\Foo{a}";
    forall k | 0 <= k < |aw| ensures aw[k] != '%' && aw[k] != '\n' && aw[k] != ' ' {
      assert k < 7;
      assert aw[k] in "\\Foo{a}";
    }
    NotDefinition("\\Foo", aw);
  }

  /** The argument search after the first name of `\Foo{\Foo{a}}` takes the rest of the text. */
  lemma OuterArguments()
    ensures SearchArgumentsOf("{\\Foo{a}}", 1) == Found(["\\Foo{a}"], "{\\Foo{a}}")
  {
    var s4 := "{\\Foo{a}}";
    assert FitBrace(s4, 0, '{') == Ok(Some(Fit("\\Foo{a}", 0, 8))) by {
      FitsFromOpening(s4);
      WalkStep(s4, 1, 1, 0, '{', '}');
      WalkStep(s4, 2, 1, 0, '{', '}');
      WalkStep(s4, 3, 1, 0, '{', '}');
      WalkStep(s4, 4, 1, 0, '{', '}');
      WalkStep(s4, 5, 1, 0, '{', '}');
      WalkStep(s4, 6, 2, 0, '{', '}');
      WalkStep(s4, 7, 2, 0, '{', '}');
      WalkStep(s4, 8, 1, 0, '{', '}');
      assert s4[1..8] == "\\Foo{a}";
    }
    assert [] + ["\\Foo{a}"] == ["\\Foo{a}"];
  }

  /** The argument search after the second name of `\Foo{\Foo{a}}` takes `{a}`. */
  lemma InnerArguments()
    ensures SearchArgumentsOf("{a}}", 1) == Found(["a"], "{a}")
  {
    var s9 := "{a}}";
    assert FitBrace(s9, 0, '{') == Ok(Some(Fit("a", 0, 2))) by {
      FitsFromOpening(s9);
      WalkStep(s9, 1, 1, 0, '{', '}');
      WalkStep(s9, 2, 1, 0, '{', '}');
      assert s9[1..2] == "a";
    }
    assert s9[3..] == "}";
    assert ContinueFrom(s9[3..], 0, '{') == (false, -1) by {
      AcceptedChars('}');
    }
    assert [] + ["a"] == ["a"];
    assert Slice(s9, 0, 3) == "{a}";
  }

  /** After the second name of `\Foo{\Foo{a}}` no candidate is left. */
  lemma NestedLastTurn()
    ensures TurnAt("\\Foo{\\Foo{a}}", "\\Foo", 1, 9) == NoCandidate
  {
    var s := "\\Foo{\\Foo{a}}";
    var name := "\\Foo";
    var s9 := s[9..];
    assert s9 == "{a}}";
    forall j ensures !CandidateAt(s9, name, j) {
      if OccursAt(s9, name, j) {
        assert s9[j..j + 4][0] == name[0];
      }
    }
    NextMacroCandidateSpec(s9, name);
  }

  /** A text without separators, whose character after the name is not `}`, is no definition. */
  lemma NotDefinition(name: string, asWritten: string)
    requires |name| < |asWritten| && asWritten[|name|] != '}'
    requires Free(asWritten, '%') && Free(asWritten, '\n') && Free(asWritten, ' ')
    ensures IsDefinition(name, asWritten) == Ok(false)
  {
    CompactizationRemovesSeparators(asWritten);
    WithoutFree(asWritten, '%');
    WithoutFree(asWritten, '\n');
    WithoutFree(asWritten, ' ');
  }

  /** A text opening with `{`: the match walks from index 1 at depth 1. */
  lemma FitsFromOpening(text: string)
    requires |text| > 0 && text[0] == '{'
    ensures FitBrace(text, 0, '{') == WalkFrom(text, 1, 1, 0, '{', '}')
  {
    assert Slice(text, 0, |text|) == text;
    FindChar(text, '{', 0);
    MatchBraceEnters(text, 0, '{', '}');
  }
}
