/**
 * The scanning loop of `Indenter::indent` (src/HTML/Indenter.php:81-148) as specification
 * functions: the log the loop writes, the subject it leaves behind, the indentation levels it
 * keeps and the output it builds.  The loop itself, with its invariants, is
 * `Html.Indenter.ScanInput`; the properties of the loop are proved here about these functions.
 */
module Scan {
  import opened Wrappers
  import opened Text
  import opened Patterns

  /** A log entry: the rule applied and the text the pattern matched. */
  datatype Entry = Entry(rule: Rule, text: string)

  // ---------------------------------------------------------------------------
  // One pass of the do-while loop

  /** The `foreach` over the pattern table from pattern `p` on: the first pattern that matches. */
  function FirstMatchFrom(s: string, p: nat): (r: Option<(nat, Hit)>)
    requires 1 <= p <= 10
    ensures r.Some? ==> p <= r.value.0 <= 9 && TryPattern(s, r.value.0) == Some(r.value.1)
    ensures r.Some? ==> forall q :: p <= q < r.value.0 ==> TryPattern(s, q).None?
    ensures r.None? ==> forall q :: p <= q <= 9 ==> TryPattern(s, q).None?
    decreases 10 - p
  {
    if p == 10 then None
    else if TryPattern(s, p).Some? then Some((p, TryPattern(s, p).value))
    else FirstMatchFrom(s, p + 1)
  }

  function FirstMatch(s: string): Option<(nat, Hit)> {
    FirstMatchFrom(s, 1)
  }

  /** The entry one pass logs; the pass then cuts as many characters as the match holds. */
  function NextStep(s: string): (r: Option<Entry>)
    ensures r.Some? ==> 0 < |r.value.text| <= |s|
  {
    match FirstMatch(s)
    case None => None
    case Some((p, h)) => Some(Entry(PatternRule(p), s[h.start..h.start + h.len]))
  }

  /** The log the whole loop writes. */
  function ScanLog(s: string): seq<Entry>
    decreases |s|
  {
    match NextStep(s)
    case None => []
    case Some(e) => [e] + ScanLog(s[|e.text|..])
  }

  /** The subject left over when no pattern matches any more. */
  function ScanRest(s: string): string
    decreases |s|
  {
    match NextStep(s)
    case None => s
    case Some(e) => ScanRest(s[|e.text|..])
  }

  /** Every pass matched at the very start of the subject (only pattern 9 can match further on). */
  predicate Anchored(s: string)
    decreases |s|
  {
    match FirstMatch(s)
    case None => true
    case Some((p, h)) => h.start == 0 && Anchored(s[h.len..])
  }

  /** The logged matches, concatenated in order. */
  function Joined(log: seq<Entry>): string {
    if log == [] then [] else Joined(log[..|log| - 1]) + log[|log| - 1].text
  }

  // ---------------------------------------------------------------------------
  // Indentation levels and output lines

  /** The change a rule makes to the level carried to the next line. */
  function StepCarried(rule: Rule, carried: int): int {
    match rule
    case Increase => carried + 1
    case Decrease => carried - 1
    case _ => carried
  }

  /** The level a rule gives its own line, before the clamp at zero. */
  function StepLevel(rule: Rule, carried: int): int {
    if rule == Decrease then carried - 1 else carried
  }

  /** `$next_line_indentation_level` once the entries of `log` have been processed. */
  function Carried(log: seq<Entry>): int {
    if log == [] then 0 else StepCarried(log[|log| - 1].rule, Carried(log[..|log| - 1]))
  }

  /** How many entries of `log` carry `rule`. */
  function CountRule(log: seq<Entry>, rule: Rule): nat {
    if log == [] then 0
    else CountRule(log[..|log| - 1], rule) + (if log[|log| - 1].rule == rule then 1 else 0)
  }

  function Clamp(level: int): nat {
    if level < 0 then 0 else level
  }

  /** The level the `i`-th entry is written at. */
  function EmitLevel(log: seq<Entry>, i: nat): nat
    requires i < |log|
  {
    Clamp(StepLevel(log[i].rule, Carried(log[..i])))
  }

  /** The output line of the `i`-th entry; a discarded match writes none. */
  function LineAt(log: seq<Entry>, i: nat, unit: string): string
    requires i < |log|
  {
    if log[i].rule == Discard then []
    else Repeat(unit, EmitLevel(log, i)) + log[i].text + "\n"
  }

  /** The output the loop has built once it has logged `log`. */
  function OutputOf(log: seq<Entry>, unit: string): string {
    if log == [] then [] else OutputOf(log[..|log| - 1], unit) + LineAt(log, |log| - 1, unit)
  }

  // ---------------------------------------------------------------------------
  // Properties

  /** One pass of the loop: the entry it logs heads the log, and the rest is scanned after the cut. */
  lemma ScanStep(s: string, p: nat, h: Hit)
    requires FirstMatch(s) == Some((p, h))
    ensures 0 < h.len && h.start + h.len <= |s|
    ensures ScanLog(s) == [Entry(PatternRule(p), s[h.start..h.start + h.len])] + ScanLog(s[h.len..])
  {
    NextStepOf(s, p, h);
    var e := NextStep(s).value;
    EntryOf(e, PatternRule(p), s[h.start..h.start + h.len]);
    ScanLogOf(s);
  }

  /** The log of a subject on which a pass matches: that pass's entry, then the rest's log. */
  lemma ScanLogOf(s: string)
    requires NextStep(s).Some?
    ensures ScanLog(s) == [NextStep(s).value] + ScanLog(s[|NextStep(s).value.text|..])
  {
  }

  /** One pass of the loop, seen from the whole log: the entry joins the part written so far. */
  lemma LogAdvance(whole: seq<Entry>, done: seq<Entry>, e: Entry, rest: seq<Entry>)
    requires whole == done + ([e] + rest)
    ensures whole == (done + [e]) + rest
  {
  }

  /** The entry of one pass, field by field. */
  lemma NextStepOf(s: string, p: nat, h: Hit)
    requires FirstMatch(s) == Some((p, h))
    ensures 1 <= p <= 9 && 0 < h.len && h.start + h.len <= |s|
    ensures NextStep(s).Some? && NextStep(s).value.rule == PatternRule(p)
    ensures NextStep(s).value.text == s[h.start..h.start + h.len] && |NextStep(s).value.text| == h.len
  {
  }

  /** An entry is determined by its rule and its text. */
  lemma EntryOf(e: Entry, rule: Rule, text: string)
    requires e.rule == rule && e.text == text
    ensures e == Entry(rule, text)
  {
  }

  /** The loop stops on the first pass where no pattern matches, logging nothing more. */
  lemma ScanStop(s: string)
    requires FirstMatch(s).None?
    ensures ScanLog(s) == []
  {
  }

  /** Appending an entry adds its line to the output and its rule's step to the carried level. */
  lemma AppendEntry(log: seq<Entry>, e: Entry, unit: string)
    ensures Carried(log + [e]) == StepCarried(e.rule, Carried(log))
    ensures EmitLevel(log + [e], |log|) == Clamp(StepLevel(e.rule, Carried(log)))
    ensures OutputOf(log + [e], unit) == OutputOf(log, unit) + LineAt(log + [e], |log|, unit)
  {
    assert (log + [e])[..|log|] == log;
  }

  lemma JoinedCons(e: Entry, log: seq<Entry>)
    ensures Joined([e] + log) == e.text + Joined(log)
    decreases |log|
  {
    if log != [] {
      assert ([e] + log)[..|log|] == [e] + log[..|log| - 1];
      JoinedCons(e, log[..|log| - 1]);
    } else {
      assert [e][..0] == [];
    }
  }

  /** One pass: either it cut the prefix it logged, or its match lies past a `<` it skipped. */
  lemma StepShape(s: string)
    requires FirstMatch(s).Some?
    ensures var h := FirstMatch(s).value.1;
            var e := NextStep(s).value;
            && e.text == s[h.start..h.start + h.len] && |e.text| == h.len
            && (h.start == 0 ==> s == e.text + s[h.len..])
            && (h.start != 0 ==> s[0] == '<' && e.text[0] != '<')
  {
    var p, h := FirstMatch(s).value.0, FirstMatch(s).value.1;
    assert FirstMatch(s) == Some((p, h));
    NextStepOf(s, p, h);
    SliceShape(s, NextStep(s).value.text, h.start, h.len);
    if h.start != 0 {
      UnanchoredHit(s, p, h);
    }
  }

  /** A non-empty slice starts with the character at its start; one taken at 0 is a prefix. */
  lemma SliceShape(s: string, t: string, start: nat, len: nat)
    requires 0 < len && start + len <= |s| && t == s[start..start + len]
    ensures start == 0 ==> s == t + s[len..]
    ensures t[0] == s[start]
  {
    if start == 0 {
      assert s == s[..len] + s[len..];
    }
  }

  /** A match that does not start the subject is pattern 9's, after a run of `<`. */
  lemma UnanchoredHit(s: string, p: nat, h: Hit)
    requires FirstMatch(s) == Some((p, h)) && h.start != 0
    ensures h.start < |s| && s[0] == '<' && s[h.start] != '<'
  {
    assert p == 9;
  }

  /**
   * The round-trip check fails exactly when the loop stopped with text left over or a pass cut
   * a prefix other than the one it logged (src/HTML/Indenter.php:149-155).
   */
  lemma {:induction false} ReproducesIff(s: string)
    ensures Joined(ScanLog(s)) == s <==> ScanRest(s) == [] && Anchored(s)
    decreases |s|
  {
    if FirstMatch(s).Some? {
      var h := FirstMatch(s).value.1;
      var e := NextStep(s).value;
      StepShape(s);
      var rest := s[h.len..];
      ReproducesIff(rest);
      JoinedCons(e, ScanLog(rest));
      assert ScanLog(s) == [e] + ScanLog(rest);
      assert ScanRest(s) == ScanRest(rest);
      assert Anchored(s) == (h.start == 0 && Anchored(rest));
      if h.start != 0 {
        assert Joined(ScanLog(s))[0] != s[0];
      }
    } else {
      assert ScanLog(s) == [] && ScanRest(s) == s;
    }
  }

  /** A subject that does not start with `<` is always matched, at its very start. */
  lemma NoAngleMatches(s: string)
    requires s != [] && s[0] != '<'
    ensures FirstMatch(s).Some? && FirstMatch(s).value.1.start == 0
  {
    assert !InClass(OpenAngles, s[0]);
    assert TryPattern(s, 9).Some?;
  }

  /** Text without `<` is cut into whitespace runs and text nodes and passes the round-trip check. */
  lemma {:induction false} TextOnlyRoundTrips(s: string)
    requires '<' !in s
    ensures ScanRest(s) == [] && Anchored(s)
    ensures Joined(ScanLog(s)) == s
    decreases |s|
  {
    if s != [] {
      NoAngleMatches(s);
      var (p, h) := FirstMatch(s).value;
      StepRest(s, p, h);
      NoAngleAfter(s, h.len);
      TextOnlyRoundTrips(s[h.len..]);
    }
    ReproducesIff(s);
  }

  /** One pass leaves the rest of the scan and the anchoring to the subject after the cut. */
  lemma StepRest(s: string, p: nat, h: Hit)
    requires FirstMatch(s) == Some((p, h))
    ensures h.len <= |s| && ScanRest(s) == ScanRest(s[h.len..])
    ensures Anchored(s) <==> h.start == 0 && Anchored(s[h.len..])
  {
    NextStepOf(s, p, h);
    ScanRestOf(s);
    AnchoredOf(s, p, h);
  }

  /** What is left after a subject on which a pass matches is what is left after the cut. */
  lemma ScanRestOf(s: string)
    requires NextStep(s).Some?
    ensures ScanRest(s) == ScanRest(s[|NextStep(s).value.text|..])
  {
  }

  /** A subject is anchored when its first match is at the start and the rest is anchored. */
  lemma AnchoredOf(s: string, p: nat, h: Hit)
    requires FirstMatch(s) == Some((p, h))
    ensures Anchored(s) <==> h.start == 0 && Anchored(s[h.len..])
  {
  }

  lemma NoAngleAfter(s: string, n: nat)
    requires '<' !in s && n <= |s|
    ensures '<' !in s[n..]
  {
    forall k | 0 <= k < |s| - n ensures s[n..][k] != '<' { assert s[n..][k] == s[n + k]; }
  }

  /** The carried level is the number of INCREASE entries minus the number of DECREASE entries. */
  lemma {:induction false} CarriedIsNet(log: seq<Entry>)
    ensures Carried(log) == CountRule(log, Increase) - CountRule(log, Decrease)
  {
    if log != [] {
      CarriedIsNet(log[..|log| - 1]);
    }
  }

  lemma {:induction false} CountAppend(a: seq<Entry>, b: seq<Entry>, rule: Rule)
    ensures CountRule(a + b, rule) == CountRule(a, rule) + CountRule(b, rule)
    decreases |b|
  {
    if b == [] {
      assert a + b == a;
    } else {
      assert (a + b)[..|a + b| - 1] == a + b[..|b| - 1];
      CountAppend(a, b[..|b| - 1], rule);
    }
  }

  /**
   * An opening tag and a closing tag with as many INCREASE as DECREASE entries between them are
   * written at the same indentation.
   */
  lemma MatchingLevels(log: seq<Entry>, i: nat, j: nat)
    requires i < j < |log| && log[i].rule == Increase && log[j].rule == Decrease
    requires CountRule(log[i + 1..j], Increase) == CountRule(log[i + 1..j], Decrease)
    ensures EmitLevel(log, i) == EmitLevel(log, j)
  {
    assert log[..j] == log[..i] + [log[i]] + log[i + 1..j];
    assert log[..i + 1] == log[..i] + [log[i]];
    CountAppend(log[..i + 1], log[i + 1..j], Increase);
    CountAppend(log[..i + 1], log[i + 1..j], Decrease);
    assert (log[..i] + [log[i]])[..i] == log[..i];
    CarriedIsNet(log[..j]);
    CarriedIsNet(log[..i]);
  }

  /** Every DISCARD entry of the scan log holds whitespace only. */
  lemma {:induction false} DiscardsAreSpace(s: string)
    ensures forall i :: 0 <= i < |ScanLog(s)| && ScanLog(s)[i].rule == Discard ==> AllSpace(ScanLog(s)[i].text)
    decreases |s|
  {
    match FirstMatch(s)
    case None =>
    case Some((p, h)) =>
      var e := NextStep(s).value;
      DiscardsAreSpace(s[|e.text|..]);
      if e.rule == Discard {
        DiscardIsSpace(s, p, h);
      }
  }

  /** A pass that logs a DISCARD entry matched whitespace (pattern 8). */
  lemma DiscardIsSpace(s: string, p: nat, h: Hit)
    requires FirstMatch(s) == Some((p, h)) && NextStep(s).value.rule == Discard
    ensures AllSpace(NextStep(s).value.text)
  {
    NextStepOf(s, p, h);
    DiscardRule(p);
    assert TryPattern(s, 8) == Some(h);
    assert h.start == 0 && AllSpace(s[..h.len]);
    assert NextStep(s).value.text == s[..h.len];
  }

  /** Only pattern 8 logs DISCARD. */
  lemma DiscardRule(p: nat)
    requires 1 <= p <= 9 && PatternRule(p) == Discard
    ensures p == 8
  {
  }

  /** A line holds the same non-whitespace characters as its match. */
  lemma LineContent(log: seq<Entry>, i: nat, unit: string)
    requires i < |log| && AllSpace(unit)
    requires log[i].rule == Discard ==> AllSpace(log[i].text)
    ensures NonSpace(LineAt(log, i, unit)) == NonSpace(log[i].text)
  {
    if log[i].rule == Discard {
      NonSpaceOfSpace(log[i].text);
    } else {
      var pad := Repeat(unit, EmitLevel(log, i));
      RepeatOfSpace(unit, EmitLevel(log, i));
      NonSpaceOfSpace(pad);
      NonSpaceAppend(pad + log[i].text, "\n");
      NonSpaceAppend(pad, log[i].text);
      assert NonSpace("\n") == [];
    }
  }

  /**
   * With an indentation unit of whitespace, the output holds exactly the non-whitespace
   * characters of the logged matches, in order: indenting only moves whitespace around.
   */
  lemma {:induction false} ContentPreserved(log: seq<Entry>, unit: string)
    requires AllSpace(unit)
    requires forall i :: 0 <= i < |log| && log[i].rule == Discard ==> AllSpace(log[i].text)
    ensures NonSpace(OutputOf(log, unit)) == NonSpace(Joined(log))
  {
    if log != [] {
      var init, last := log[..|log| - 1], |log| - 1;
      assert forall i :: 0 <= i < |init| ==> init[i] == log[i];
      ContentPreserved(init, unit);
      LineContent(log, last, unit);
      NonSpaceAppend(OutputOf(init, unit), LineAt(log, last, unit));
      NonSpaceAppend(Joined(init), log[last].text);
    }
  }
}
