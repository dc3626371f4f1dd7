/**
 * The `Indenter` class of src/HTML/Indenter.php: its options, its list of inline element names,
 * the placeholder tables it keeps between calls, the log of the last call, and `indent` with its
 * loops.  The specification functions before the class say what each operation computes; the
 * lemmas after it say what that means.
 */
module Html {
  import opened Wrappers
  import opened Text
  import opened Patterns
  import opened Scan
  import opened Passes
  import opened Placeholders
  import opened Scripts
  import opened Content

  /** `ELEMENT_TYPE_BLOCK` and `ELEMENT_TYPE_INLINE` (src/HTML/Indenter.php:19-20). */
  const ElementTypeBlock: int := 0
  const ElementTypeInline: int := 1

  /** The one option there is, and its default: four spaces (src/HTML/Indenter.php:13-15). */
  const IndentationOption: string := "indentation_character"
  const DefaultIndentation: string := "    "

  /** The elements treated as inline unless reconfigured (src/HTML/Indenter.php:16). */
  const DefaultInline: seq<string> := ["b", "big", "i", "small", "tt", "abbr", "acronym", "cite", "code",
    "dfn", "em", "kbd", "strong", "samp", "var", "a", "bdo", "br", "img", "span", "sub", "sup"]

  // ---------------------------------------------------------------------------
  // Configuration

  /** The constructor's loop over the options: an unknown name fails, a known one is overwritten. */
  function Configure(options: seq<(string, string)>, current: string): Result<string, IndentError> {
    if options == [] then Success(current)
    else if options[0].0 != IndentationOption then Failure(UnrecognizedOption)
    else Configure(options[1..], options[0].1)
  }

  /** `array_diff($list, array($name))`: every occurrence of `name` goes, the rest keep their order. */
  function Remove(list: seq<string>, name: string): (r: seq<string>)
    ensures name !in r
    ensures forall x :: x in r <==> x in list && x != name
  {
    if list == [] then []
    else (if list[0] == name then [] else [list[0]]) + Remove(list[1..], name)
  }

  predicate NoDuplicates(list: seq<string>) {
    forall i, j :: 0 <= i < j < |list| ==> list[i] != list[j]
  }

  /** `array_unique`: the first occurrence of each name stays, later ones go. */
  function Dedup(list: seq<string>): (r: seq<string>)
    ensures NoDuplicates(r)
    ensures forall x :: x in r <==> x in list
  {
    if list == [] then []
    else
      var init := Dedup(list[..|list| - 1]);
      var last := list[|list| - 1];
      assert forall x :: x in list <==> x in list[..|list| - 1] || x == last by {
        assert list == list[..|list| - 1] + [last];
      }
      if last in init then init else init + [last]
  }

  // ---------------------------------------------------------------------------
  // What one call of indent computes

  /** A placeholder table is replaced only when the pass found something (src/HTML/Indenter.php:63-64, :75-76). */
  function Refill(found: seq<string>, previous: seq<string>): seq<string> {
    if |found| > 0 then found else previous
  }

  /** The input with its script elements masked where they were found and its whitespace normalised. */
  function Normalized(input: string): string {
    Normalize(MaskScripts(input))
  }

  /** The text the scanning loop works on: inline runs masked as well. */
  function ScannedText(input: string, names: seq<string>): string {
    var normal := Normalized(input);
    MaskAll(normal, FindInlineRuns(normal, names), Inline)
  }

  /** The output of the scanning loop, with empty elements collapsed. */
  function LaidOut(scanned: string, unit: string): string {
    Collapse(OutputOf(ScanLog(scanned), unit))
  }

  /**
   * The result of `indent`: the failure of the round-trip check, or the laid-out text with the
   * scripts and then the inline runs restored, each in one pass, and the ends trimmed.
   */
  function IndentResult(input: string, unit: string, names: seq<string>, scripts: seq<string>, inlines: seq<string>)
    : Result<string, IndentError>
  {
    var scanned := ScannedText(input, names);
    if Joined(ScanLog(scanned)) != scanned then Failure(DidNotReproduceInput)
    else
      var scriptTable := Refill(FindScripts(input), scripts);
      var inlineTable := Refill(FindInlineRuns(Normalized(input), names), inlines);
      Success(Trim(RestoreOnce(RestoreScriptsOnce(LaidOut(scanned, unit), scriptTable), inlineTable)))
  }

  // ---------------------------------------------------------------------------
  // The class

  class Indenter {
    /** The log of the last call of `Indent` (src/HTML/Indenter.php:12). */
    var log: seq<Entry>
    /** `$options['indentation_character']` */
    var indentation: string
    var inlineElements: seq<string>
    /** `$temporary_replacements_script` and `$temporary_replacements_inline` */
    var scriptReplacements: seq<string>
    var inlineReplacements: seq<string>

    /** The field defaults (src/HTML/Indenter.php:11-18). */
    constructor Init()
      ensures log == [] && indentation == DefaultIndentation && inlineElements == DefaultInline
      ensures scriptReplacements == [] && inlineReplacements == []
    {
      log := [];
      indentation := DefaultIndentation;
      inlineElements := DefaultInline;
      scriptReplacements := [];
      inlineReplacements := [];
    }

    /** `new Indenter($options)` (src/HTML/Indenter.php:30-37): fails on an option it does not know. */
    static method Create(options: seq<(string, string)>) returns (r: Result<Indenter, IndentError>)
      ensures r.Success? <==> Configure(options, DefaultIndentation).Success?
      ensures r.Failure? ==> r.error == UnrecognizedOption
      ensures r.Success? ==> fresh(r.value) && r.value.indentation == Configure(options, DefaultIndentation).value
      ensures r.Success? ==> r.value.log == [] && r.value.inlineElements == DefaultInline
      ensures r.Success? ==> r.value.scriptReplacements == [] && r.value.inlineReplacements == []
    {
      var indenter := new Indenter.Init();
      var i := 0;
      while i < |options|
        invariant 0 <= i <= |options|
        invariant Configure(options, DefaultIndentation) == Configure(options[i..], indenter.indentation)
        invariant indenter.log == [] && indenter.inlineElements == DefaultInline
        invariant indenter.scriptReplacements == [] && indenter.inlineReplacements == []
      {
        assert options[i..][1..] == options[i + 1..];
        if options[i].0 != IndentationOption {
          return Failure(UnrecognizedOption);
        }
        indenter.indentation := options[i].1;
        i := i + 1;
      }
      return Success(indenter);
    }

    /**
     * `setElementType` (src/HTML/Indenter.php:44-53): a block element leaves the inline list, an
     * inline element joins it, duplicates go; any other type fails and changes nothing.
     */
    method SetElementType(name: string, elementType: int) returns (r: Result<(), IndentError>)
      modifies this
      ensures r.Failure? <==> elementType != ElementTypeBlock && elementType != ElementTypeInline
      ensures r.Failure? ==> r.error == UnrecognizedElementType && inlineElements == old(inlineElements)
      ensures r.Success? ==> NoDuplicates(inlineElements)
      ensures elementType == ElementTypeBlock ==> inlineElements == Dedup(Remove(old(inlineElements), name))
      ensures elementType == ElementTypeInline ==> inlineElements == Dedup(old(inlineElements) + [name])
      ensures log == old(log) && indentation == old(indentation)
      ensures scriptReplacements == old(scriptReplacements) && inlineReplacements == old(inlineReplacements)
    {
      var list := inlineElements;
      if elementType == ElementTypeBlock {
        list := Remove(list, name);
      } else if elementType == ElementTypeInline {
        list := list + [name];
      } else {
        return Failure(UnrecognizedElementType);
      }
      inlineElements := Dedup(list);
      return Success(());
    }

    /** `getLog` (src/HTML/Indenter.php:170-172). */
    method GetLog() returns (r: seq<Entry>)
      ensures r == log
    {
      return log;
    }

    /**
     * `indent` (src/HTML/Indenter.php:60-164).  The log is rebuilt on every call; a placeholder
     * table is replaced only when its pass found something.
     */
    method Indent(input: string) returns (r: Result<string, IndentError>)
      modifies this
      ensures log == ScanLog(ScannedText(input, inlineElements))
      ensures scriptReplacements == Refill(FindScripts(input), old(scriptReplacements))
      ensures inlineReplacements == Refill(FindInlineRuns(Normalized(input), inlineElements), old(inlineReplacements))
      ensures r == IndentResult(input, indentation, inlineElements, old(scriptReplacements), old(inlineReplacements))
      ensures indentation == old(indentation) && inlineElements == old(inlineElements)
    {
      log := [];
      var text := input;
      var scripts := FindScripts(text);
      if |scripts| > 0 {
        scriptReplacements := scripts;
        text := MaskScripts(text);
      } else {
        MaskScriptsNone(input, 0, 1);
        assert input[0..] == input;
      }
      assert scriptReplacements == Refill(FindScripts(input), old(scriptReplacements));
      text := Normalize(text);
      assert text == Normalized(input);
      var runs := FindInlineRuns(text, inlineElements);
      if |runs| > 0 {
        inlineReplacements := runs;
        text := MaskMatches(text, runs, Inline);
      }
      assert inlineReplacements == Refill(FindInlineRuns(Normalized(input), inlineElements), old(inlineReplacements));
      assert text == ScannedText(input, inlineElements);
      var output := ScanInput(text);
      var joined := JoinLog();
      if joined != text {
        return Failure(DidNotReproduceInput);
      }
      output := Collapse(output);
      assert output == LaidOut(text, indentation);
      output := RestoreScriptsOnce(output, scriptReplacements);
      output := RestoreOnce(output, inlineReplacements);
      return Success(Trim(output));
    }

    /** The scanning loop (src/HTML/Indenter.php:81-148). */
    method ScanInput(text: string) returns (output: string)
      modifies this`log
      requires log == []
      ensures log == ScanLog(text)
      ensures output == OutputOf(log, indentation)
    {
      var subject := text;
      output := "";
      var next: int := 0;
      var matched := true;
      while matched
        invariant ScanLog(text) == log + (if matched then ScanLog(subject) else [])
        invariant next == Carried(log)
        invariant output == OutputOf(log, indentation)
        decreases |subject| + (if matched then 1 else 0)
      {
        var found := FirstPattern(subject);
        matched := found.Some?;
        if found.None? {
          ScanStop(subject);
        } else {
          var p, h := found.value.0, found.value.1;
          ScanStep(subject, p, h);
          var entry := Entry(PatternRule(p), subject[h.start..h.start + h.len]);
          LogAdvance(ScanLog(text), log, entry, ScanLog(subject[h.len..]));
          next, output := Record(entry, next, output);
          subject := subject[h.len..];
        }
      }
    }

    /**
     * One matched pass after the match is found (src/HTML/Indenter.php:86, :110-145): log the
     * entry; unless it is discarded, move the levels by its rule and write its line.
     */
    method Record(entry: Entry, next: int, output: string) returns (next': int, output': string)
      modifies this`log
      requires next == Carried(log) && output == OutputOf(log, indentation)
      ensures log == old(log) + [entry]
      ensures next' == Carried(log) && output' == OutputOf(log, indentation)
    {
      var level := next;
      next' := next;
      output' := output;
      AppendEntry(log, entry, indentation);
      log := log + [entry];
      if entry.rule != Discard {
        match entry.rule {
          case No =>
          case Decrease =>
            next' := next' - 1;
            level := level - 1;
          case _ =>
            next' := next' + 1;
        }
        if level < 0 {
          level := 0;
        }
        assert level == EmitLevel(log, |log| - 1);
        output' := output' + (Repeat(indentation, level) + entry.text + "\n");
      } else {
        assert output' + LineAt(log, |log| - 1, indentation) == output';
      }
    }

    /** The `foreach` over the patterns (src/HTML/Indenter.php:108-147): the first one that matches. */
    static method FirstPattern(subject: string) returns (found: Option<(nat, Hit)>)
      ensures found == FirstMatch(subject)
    {
      var p := 1;
      while p <= 9
        invariant 1 <= p <= 10
        invariant FirstMatch(subject) == FirstMatchFrom(subject, p)
      {
        var hit := TryPattern(subject, p);
        if hit.Some? {
          return Some((p, hit.value));
        }
        p := p + 1;
      }
      return None;
    }

    /** The log's matches joined (src/HTML/Indenter.php:149-152). */
    method JoinLog() returns (joined: string)
      ensures joined == Joined(log)
    {
      joined := "";
      var i := 0;
      while i < |log|
        invariant 0 <= i <= |log|
        invariant joined == Joined(log[..i])
      {
        assert log[..i + 1][..i] == log[..i];
        joined := joined + log[i].text;
        i := i + 1;
      }
      assert log[..|log|] == log;
    }

    /** The inline masking loop (src/HTML/Indenter.php:77-79). */
    static method MaskMatches(text: string, matches: seq<string>, kind: Kind) returns (masked: string)
      ensures masked == MaskAll(text, matches, kind)
    {
      masked := text;
      var i := 0;
      while i < |matches|
        invariant 0 <= i <= |matches|
        invariant masked == MaskAll(text, matches[..i], kind)
      {
        assert matches[..i + 1][..i] == matches[..i];
        masked := ReplaceAll(masked, matches[i], Placeholder(kind, i + 1));
        i := i + 1;
      }
      assert matches[..|matches|] == matches;
    }
  }

  // ---------------------------------------------------------------------------
  // Configuration: what the options and the element types do

  /**
   * The constructor accepts exactly the option lists whose every name is
   * `indentation_character`; the last value given wins, and with none the default stays.
   */
  lemma {:induction false} ConfigureAccepts(options: seq<(string, string)>, current: string)
    ensures Configure(options, current).Success? <==> forall i :: 0 <= i < |options| ==> options[i].0 == IndentationOption
    ensures Configure(options, current).Success? ==>
              Configure(options, current).value == if options == [] then current else options[|options| - 1].1
    ensures Configure(options, current).Failure? ==> Configure(options, current).error == UnrecognizedOption
    decreases |options|
  {
    if options != [] {
      ConfigureAccepts(options[1..], options[0].1);
      assert forall i :: 1 <= i < |options| ==> options[i] == options[1..][i - 1];
      if |options| > 1 {
        assert options[1..][|options[1..]| - 1] == options[|options| - 1];
      }
    }
  }

  lemma {:induction false} RemoveKeepsUnique(list: seq<string>, name: string)
    requires NoDuplicates(list)
    ensures NoDuplicates(Remove(list, name))
    decreases |list|
  {
    if list != [] {
      RemoveKeepsUnique(list[1..], name);
      assert forall i :: 0 <= i < |list[1..]| ==> list[1..][i] != list[0];
      assert list[0] !in list[1..];
    }
  }

  /** `array_unique` leaves a list without duplicates as it is. */
  lemma {:induction false} DedupOfUnique(list: seq<string>)
    requires NoDuplicates(list)
    ensures Dedup(list) == list
    decreases |list|
  {
    if list != [] {
      var init := list[..|list| - 1];
      DedupOfUnique(init);
      assert list[|list| - 1] !in init;
      assert init + [list[|list| - 1]] == list;
    }
  }

  /**
   * On a list without duplicates, BLOCK removes the name and keeps the order of the rest; INLINE
   * appends the name unless it is already there.  Either way the list stays free of duplicates.
   */
  lemma ElementTypeEffect(list: seq<string>, name: string)
    requires NoDuplicates(list)
    ensures Dedup(Remove(list, name)) == Remove(list, name)
    ensures Dedup(list + [name]) == if name in list then list else list + [name]
  {
    RemoveKeepsUnique(list, name);
    DedupOfUnique(Remove(list, name));
    DedupOfUnique(list);
    assert (list + [name])[..|list|] == list;
  }

  /** The default inline list has no duplicates, so it is the list the first call starts from. */
  lemma DefaultInlineUnique()
    ensures NoDuplicates(DefaultInline)
  {
    var front := ["b", "big", "i", "small", "tt", "abbr", "acronym", "cite", "code", "dfn", "em"];
    var back := ["kbd", "strong", "samp", "var", "a", "bdo", "br", "img", "span", "sub", "sup"];
    assert DefaultInline == front + back;
    assert NoDuplicates(front);
    assert NoDuplicates(back);
    assert forall x :: x in front ==> x !in back;
    NoDuplicatesAppend(front, back);
  }

  /** Two lists without duplicates and without a shared name join into one without duplicates. */
  lemma NoDuplicatesAppend(a: seq<string>, b: seq<string>)
    requires NoDuplicates(a) && NoDuplicates(b) && forall x :: x in a ==> x !in b
    ensures NoDuplicates(a + b)
  {
    forall i, j | 0 <= i < j < |a + b| ensures (a + b)[i] != (a + b)[j] {
      if j < |a| {
        assert (a + b)[i] == a[i] && (a + b)[j] == a[j];
      } else if i >= |a| {
        assert (a + b)[i] == b[i - |a|] && (a + b)[j] == b[j - |a|];
      } else {
        assert (a + b)[i] == a[i] && (a + b)[j] == b[j - |a|];
        assert a[i] in a && b[j - |a|] in b;
      }
    }
  }

  // ---------------------------------------------------------------------------
  // What indent promises

  /**
   * `indent` fails exactly when the scan stops with text left over or a pass cut something other
   * than the text it logged (src/HTML/Indenter.php:149-155).
   */
  lemma IndentFailsIff(input: string, unit: string, names: seq<string>, scripts: seq<string>, inlines: seq<string>)
    ensures IndentResult(input, unit, names, scripts, inlines).Failure? <==>
              !(ScanRest(ScannedText(input, names)) == [] && Anchored(ScannedText(input, names)))
    ensures IndentResult(input, unit, names, scripts, inlines).Failure? ==>
              IndentResult(input, unit, names, scripts, inlines).error == DidNotReproduceInput
  {
    ReproducesIff(ScannedText(input, names));
  }

  /** A character other than whitespace is in a text exactly when it survives removing the whitespace. */
  lemma {:induction false} NonSpaceHas(s: string, c: char)
    requires !IsSpace(c)
    ensures c in s <==> c in NonSpace(s)
    decreases |s|
  {
    if s != [] {
      NonSpaceHas(s[1..], c);
      assert s == [s[0]] + s[1..];
    }
  }

  lemma NoScriptsWithout(s: string)
    requires '<' !in s
    ensures FindScripts(s) == []
  {
    if FindScripts(s) != [] {
      OccursAvoids(s, FindScripts(s)[0], '<');
    }
  }

  lemma NoRunsWithout(s: string, names: seq<string>)
    requires '<' !in s
    ensures FindInlineRuns(s, names) == []
  {
    if FindInlineRuns(s, names) != [] {
      OccursAvoids(s, FindInlineRuns(s, names)[0], '<');
    }
  }

  /**
   * Plain text (no `<`) is only normalised before the scan, and it always passes the check.
   * With a whitespace unit, and no NUL and no `ᐃ` in the input, the result is the input's
   * non-whitespace characters with new whitespace, whatever is left in the tables.
   */
  lemma PlainTextIndents(input: string, unit: string, names: seq<string>, scripts: seq<string>, inlines: seq<string>)
    requires '<' !in input
    ensures ScannedText(input, names) == Normalize(input)
    ensures IndentResult(input, unit, names, scripts, inlines).Success?
    ensures AllSpace(unit) && '\0' !in input && Marker !in input ==>
              NonSpace(IndentResult(input, unit, names, scripts, inlines).value) == NonSpace(input)
  {
    NoScriptsWithout(input);
    MaskScriptsNone(input, 0, 1);
    assert input[0..] == input;
    var normal := Normalize(input);
    NormalizeSpec(input);
    NonSpaceHas(input, '<');
    NonSpaceHas(normal, '<');
    NoRunsWithout(normal, names);
    TextOnlyRoundTrips(normal);
    if AllSpace(unit) && '\0' !in input && Marker !in input {
      IndentKeepsContent(input, unit, names, scripts, inlines);
    }
  }

  /**
   * With an indentation of whitespace, the laid-out text holds the same non-whitespace
   * characters as the logged matches, so on a successful scan the same as the scanned text:
   * indenting and collapsing only move whitespace.
   */
  lemma LayoutKeepsContent(scanned: string, unit: string)
    requires AllSpace(unit)
    ensures NonSpace(LaidOut(scanned, unit)) == NonSpace(Joined(ScanLog(scanned)))
    ensures Joined(ScanLog(scanned)) == scanned ==> NonSpace(LaidOut(scanned, unit)) == NonSpace(scanned)
  {
    DiscardsAreSpace(scanned);
    ContentPreserved(ScanLog(scanned), unit);
  }

  /**
   * `indent` moves only whitespace: with an indentation of whitespace, an input without NUL,
   * markers or script elements, and no scripts left from an earlier call unless the input has
   * no `<` at all, a successful result holds the non-whitespace characters of the input, in
   * order.
   */
  lemma IndentKeepsContent(input: string, unit: string, names: seq<string>, scripts: seq<string>, inlines: seq<string>)
    requires AllSpace(unit) && '\0' !in input && Marker !in input
    requires FindScripts(input) == [] && (scripts == [] || '<' !in input)
    ensures IndentResult(input, unit, names, scripts, inlines).Success? ==>
              NonSpace(IndentResult(input, unit, names, scripts, inlines).value) == NonSpace(input)
  {
    var scanned := ScannedText(input, names);
    if Joined(ScanLog(scanned)) == scanned {
      MaskScriptsNone(input, 0, 1);
      assert input[0..] == input;
      var normal := Normalize(input);
      NormalizeSpec(input);
      NonSpaceHas(input, Marker);
      NonSpaceHas(normal, Marker);
      var table := Refill(FindInlineRuns(normal, names), inlines);
      ScannedRestores(normal, names, inlines);
      LayoutRestoresContent(scanned, unit, table);
      var laid := LaidOut(scanned, unit);
      if scripts == [] {
        RestoreScriptsEmpty(laid);
      } else {
        NoAngleLaidOut(input, unit, names);
        RestoreScriptsNoAngle(laid, scripts);
      }
      var output := RestoreOnce(laid, table);
      assert NonSpace(output) == NonSpace(input);
      NonSpaceHas(input, '\0');
      NonSpaceHas(output, '\0');
      TrimKeepsContent(output);
    }
  }

  /** Without `<` in the input, the scan and the layout bring no `<` in either. */
  lemma NoAngleLaidOut(input: string, unit: string, names: seq<string>)
    requires AllSpace(unit) && '<' !in input && FindScripts(input) == []
    requires Joined(ScanLog(ScannedText(input, names))) == ScannedText(input, names)
    ensures '<' !in LaidOut(ScannedText(input, names), unit)
  {
    MaskScriptsNone(input, 0, 1);
    assert input[0..] == input;
    var normal := Normalize(input);
    NormalizeSpec(input);
    NonSpaceHas(input, '<');
    NonSpaceHas(normal, '<');
    NoRunsWithout(normal, names);
    var scanned := ScannedText(input, names);
    LayoutKeepsContent(scanned, unit);
    NonSpaceHas(LaidOut(scanned, unit), '<');
  }

  /** The scanned text is intact for the inline table and restores to the normalised input. */
  lemma ScannedRestores(normal: string, names: seq<string>, inlines: seq<string>)
    requires Marker !in normal
    ensures var runs := FindInlineRuns(normal, names);
            var table := Refill(runs, inlines);
            var scanned := MaskAll(normal, runs, Inline);
            Intact(scanned, table) && RestoreOnce(scanned, table) == normal
  {
    var runs := FindInlineRuns(normal, names);
    var table := Refill(runs, inlines);
    if runs == [] {
      IntactUnmarked(normal, table);
      RestoreOnceUnmarked(normal, table);
    } else {
      InlineRunsSeparated(normal, names);
      MaskInvariant(normal, runs, Inline, Marker);
      IntactMasked(MaskPieces(Lits(normal), runs), runs);
      InlineRoundTrip(normal, runs);
    }
  }

  // ---------------------------------------------------------------------------
  // The text the sequential inline restore damages, under the default configuration

  /** `<b>c</b>` at `i` is an inline run for any list whose first name is `b`. */
  lemma BoldRunAt(s: string, i: nat, c: char, alts: seq<string>)
    requires i + 8 <= |s| && s[i..i + 8] == "<b>" + [c] + "</b>" && c != '<'
    requires |alts| > 0 && alts[0] == "b"
    ensures InlineEnd(s, i, alts) == Some(i + 8)
  {
    assert s[i..i + 2] == s[i..i + 8][..2] == "<b";
    assert s[i + 2] == s[i..i + 8][2] == '>';
    assert s[i + 3] == s[i..i + 8][3] == c;
    assert s[i + 4] == s[i..i + 8][4] == '<';
    FindIs(s, '>', i + 2, i + 2);
    FindIs(s, '<', i + 3, i + 4);
    assert s[i + 4..i + 8] == s[i..i + 8][4..] == "</b>";
    assert HasAt(s, i + 4, "</" + "b" + ">");
  }

  /** Where the three runs and the digit sit in `LossyText`. */
  lemma LossyLayout()
    ensures |LossyText| == 25 && LossyText[16] == '1'
    ensures LossyText[0..8] == RunX && LossyText[8..16] == RunY && LossyText[17..25] == RunZ
  {
  }

  /** A run found at `i` is taken whole and the scan goes on after it. */
  lemma RunsFromFound(s: string, i: nat, e: nat, alts: seq<string>)
    requires i < |s| && InlineEnd(s, i, alts) == Some(e)
    ensures e <= |s| && InlineRunsFrom(s, i, alts) == [s[i..e]] + InlineRunsFrom(s, e, alts)
  {
  }

  /** Where no run starts, the scan moves on by one character. */
  lemma RunsFromSkipped(s: string, i: nat, alts: seq<string>)
    requires i < |s| && InlineEnd(s, i, alts) == None
    ensures InlineRunsFrom(s, i, alts) == InlineRunsFrom(s, i + 1, alts)
  {
  }

  /** Three bold runs laid out as in `LossyText` are found in order by any list starting with `b`. */
  lemma {:induction false} ThreeBoldRuns(s: string, alts: seq<string>)
    requires |alts| > 0 && alts[0] == "b"
    requires |s| == 25 && s[16] == '1'
    requires s[0..8] == RunX && s[8..16] == RunY && s[17..25] == RunZ
    ensures InlineRunsFrom(s, 0, alts) == [RunX, RunY, RunZ]
  {
    BoldRunAt(s, 0, 'x', alts);
    BoldRunAt(s, 8, 'y', alts);
    BoldRunAt(s, 17, 'z', alts);
    RunsFromFound(s, 17, 25, alts);
    assert InlineRunsFrom(s, 25, alts) == [];
    RunsFromSkipped(s, 16, alts);
    RunsFromFound(s, 8, 16, alts);
    RunsFromFound(s, 0, 8, alts);
  }

  /** With the default inline list, the runs found in `LossyText` are `LossyRuns`. */
  lemma DefaultFindsLossyRuns()
    ensures FindInlineRuns(LossyText, DefaultInline) == LossyRuns
  {
    LossyLayout();
    assert Alternatives(DefaultInline)[0] == "b";
    ThreeBoldRuns(LossyText, Alternatives(DefaultInline));
  }
}
