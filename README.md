# HTML Indenter model

This project models the `Indenter` class of `src/HTML/Indenter.php` in Dafny. The class
re-indents an HTML document. Its public operations are:

- the constructor, which takes an options array;
- `setElementType`, which adds an element name to the inline-element list or removes it;
- `indent`, which returns the re-indented document;
- `getLog`, which returns the log of the last `indent` call.

`indent` works as a pipeline of text passes:

1. It masks every `<script>…</script>` element with a `<script>N</script>` placeholder.
   The model masks each element where it was found (see Findings).
2. It deletes tabs and squashes whitespace runs into one space.
3. It masks every run `<inline-name …>text</inline-name>` with a `ᐃNᐃ` placeholder.
4. It scans the text with nine patterns, in order. Each step writes one log entry and one output
   line indented by the current nesting depth. Whitespace-only matches are logged but not written.
5. It checks that the logged matches spell the scanned text again, and fails otherwise.
6. It collapses `<tag …>` followed only by whitespace and then `</tag>` onto one line.
7. It puts the masked scripts back, then the masked inline runs. The model restores each
   kind in one left-to-right pass (see Findings).
8. It trims the result.

## Layout

- `wrappers.dfy`: `Option`, `Result` and the error values. The errors stand for the
  exceptions `indent`, the constructor and `setElementType` throw.
- `text.dfy` (module `Text`): the PHP string primitives the class uses. These are
  `str_replace`, `str_repeat`, `trim`, integer-to-decimal conversion and PCRE's `\s`.
- `patterns.dfy` (module `Patterns`): the nine scanning patterns. Each is a matcher function,
  paired with a predicate that describes the pattern's language declaratively. A lemma per
  pattern proves that the matcher finds exactly the match PCRE does.
- `scan.dfy` (module `Scan`): the scanning loop as specification functions, with its log,
  its depth bookkeeping and its output, plus the round-trip check.
- `passes.dfy` (module `Passes`): whitespace normalisation, script and inline-run discovery,
  masking, the sequential `str_replace` restore and the empty-element collapse, with lemmas
  saying exactly which text the collapse removes.
- `placeholders.dfy` (module `Placeholders`): when masking followed by restoring gives the
  text back. It also holds the counterexample for the inline restore and the corrected restore.
- `scripts.dfy` (module `Scripts`): the script pass. It holds the counterexample for the
  masking as written, and the corrected masking and restore with their round trip.
- `content.dfy` (module `Content`): why the layout keeps the placeholders of the scanned text
  whole, so that restoring after the layout gives the same non-whitespace text as before it.
- `indenter.dfy` (module `Html`): class `Indenter`, whose methods update its fields in place.

`Html.Indenter.Indent` runs the scanning loop imperatively. That is `ScanInput` with its
loop invariants, and `Record` for one step. The method is proved equal to the specification
function `Html.IndentResult`, and its new log and placeholder tables are stated exactly.

The placeholder scheme looks collision-free, but it is not. The inline placeholders `ᐃ1ᐃ`,
`ᐃ2ᐃ`, … overlap one another, as `Placeholders.InlinePlaceholdersOverlap` shows, and the code's
inline restore loses text. A script element can itself spell a script placeholder, and the
code's script masking then loses a script. The model follows the code everywhere except in
these two passes. There it uses corrected passes, and records the code as written under
Findings.

## Model

| member | source | states |
|---|---|---|
| Html.Indenter.Init | src/HTML/Indenter.php:11-18 | A fresh indenter has an empty log and the four-space indentation unit. Its inline list is the 22 default names and both placeholder tables are empty. |
| Html.Indenter.Create | src/HTML/Indenter.php:30-37 | Construction succeeds exactly when `Configure` accepts every option and fails with `UnrecognizedOption` otherwise. On success the unit is the configured value and every other field has its default. |
| Html.ConfigureAccepts | src/HTML/Indenter.php:31-36 | The options are accepted iff every key is `indentation_character`. When accepted, the last value given wins, or the current unit stays when there are none. A rejection is always `UnrecognizedOption`. |
| Html.Remove | src/HTML/Indenter.php:46 | `array_diff` with one name: the result never holds the name and keeps every other member. |
| Html.Dedup | src/HTML/Indenter.php:52 | `array_unique`: the result has no duplicates and the same members as its input. |
| Html.RemoveKeepsUnique | src/HTML/Indenter.php:46 | Removing a name from a list without duplicates leaves it without duplicates. |
| Html.DedupOfUnique | src/HTML/Indenter.php:52 | `array_unique` leaves a list without duplicates unchanged. |
| Html.ElementTypeEffect | src/HTML/Indenter.php:44-53 | On a duplicate-free list, making a name block-level removes just that name. Making it inline appends it iff it was absent. |
| Html.DefaultInlineUnique | src/HTML/Indenter.php:16 | The default inline-element list has no duplicates. |
| Html.Indenter.SetElementType | src/HTML/Indenter.php:44-53 | Fails with `UnrecognizedElementType` iff the type is neither 0 nor 1, and then changes nothing. Type 0 removes the name and type 1 adds it, each followed by `array_unique`. The list then has no duplicates and the other fields are unchanged. |
| Html.Indenter.GetLog | src/HTML/Indenter.php:170-172 | Returns the log of the last `indent` call. |
| Html.Indenter.Indent | src/HTML/Indenter.php:60-164 | The log is the scan log of the masked, normalised text. Each placeholder table is replaced only when its pass found matches. The unit and inline list are unchanged. The result is `IndentResult`, so it fails with `DidNotReproduceInput` exactly when the log does not spell the scanned text. Scripts and inline runs are masked where found and restored by the corrected single-pass restores (see Findings). |
| Html.Indenter.ScanInput | src/HTML/Indenter.php:81-148 | The do-while loop leaves the log equal to `ScanLog` of the text. Its output is the indented lines `OutputOf` that log. |
| Html.Indenter.Record | src/HTML/Indenter.php:110-145 | One step appends the entry to the log. It updates the carried depth, and adds the entry's indented line unless the rule is discard. |
| Html.Indenter.FirstPattern | src/HTML/Indenter.php:87-109 | The `foreach` over the pattern table finds the first pattern that matches, which is `FirstMatch`. |
| Html.Indenter.JoinLog | src/HTML/Indenter.php:149-152 | Concatenates the matched texts of the log in order. |
| Html.Indenter.MaskMatches | src/HTML/Indenter.php:77-79 | The `str_replace` loop of the inline masking pass computes `MaskAll`. |
| Html.IndentFailsIff | src/HTML/Indenter.php:149-155 | `indent` throws iff the scan stopped on a non-empty subject or pattern 9 skipped a `<`. The error is then `DidNotReproduceInput`. |
| Html.PlainTextIndents | src/HTML/Indenter.php:60-164 | Input without `<` has no scripts and no inline runs. The scanner sees exactly the normalised input, and `indent` succeeds. With a whitespace unit and no NUL or `ᐃ` in the input, the result holds exactly the input's non-whitespace characters, whatever the tables hold from earlier calls. |
| Html.IndentKeepsContent | src/HTML/Indenter.php:60-164 | With a whitespace unit, an input without NUL, `ᐃ` or script elements, and no scripts left from an earlier call unless the input has no `<`, a successful `indent` returns exactly the input's non-whitespace characters, in order, inline runs included. |
| Html.ScannedRestores | src/HTML/Indenter.php:75-80 | The scanned text has every `ᐃ` inside a placeholder of the inline table, and restoring it gives the normalised input. |
| Html.LayoutKeepsContent | src/HTML/Indenter.php:144-156 | With a whitespace unit, the indented and collapsed output holds the same non-whitespace characters, in order, as the log. When the check passes, that is the scanned text. |
| Html.DefaultFindsLossyRuns | src/HTML/Indenter.php:75 | With the default inline list, inline discovery on `<b>x</b><b>y</b>1<b>z</b>` finds the three bold runs in order. |
| Html.NoScriptsWithout | src/HTML/Indenter.php:63 | Text without `<` holds no script element. |
| Html.NoRunsWithout | src/HTML/Indenter.php:75 | Text without `<` holds no inline run. |
| Text.Find | src/HTML/Indenter.php:91 | The first position at or after `from` holding the character, or the length when there is none. |
| Text.Repeat | src/HTML/Indenter.php:144 | `str_repeat`: the length is `n` times the unit's. The result starts with the unit and repeats with the unit's length as period, so it is `n` copies in order. |
| Text.RepeatCopies | src/HTML/Indenter.php:144 | Copy `k` of the unit, for every `k < n`, sits at offset `k` times the unit's length. |
| Text.RepeatOfSpace | src/HTML/Indenter.php:144 | Repeating a whitespace-only unit gives whitespace only. |
| Text.TrimStart | src/HTML/Indenter.php:163 | Drops exactly the leading run of `trim`'s characters. |
| Text.TrimEnd | src/HTML/Indenter.php:163 | Drops exactly the trailing run of `trim`'s characters. |
| Text.Trim | src/HTML/Indenter.php:163 | `trim`: the result is a slice of the input with only trim characters removed around it, and neither end is a trim character. |
| Text.Decimal | src/HTML/Indenter.php:66 | The decimal form of `$i + 1` is a non-empty string of digits. |
| Text.DecimalDistinct | src/HTML/Indenter.php:66 | Different ordinals have different decimal forms. |
| Text.TrimKeepsContent | src/HTML/Indenter.php:163 | On a string without NUL, `trim` removes only whitespace: the non-whitespace characters stay, in order. |
| Text.ReplaceAbsent | src/HTML/Indenter.php:66 | `str_replace` changes nothing when the needle does not occur. |
| Patterns.DeclarationExact | src/HTML/Indenter.php:91 | Pattern 2 matches `n` characters iff they form `<!`, then no `>`, then `>`. |
| Patterns.VoidTagExact | src/HTML/Indenter.php:93 | Pattern 3 matches `n` characters iff they form `<` and one of the eight void names, then no `>`, then `>`. |
| Patterns.SvgSelfClosingExact | src/HTML/Indenter.php:95 | Pattern 4 matches `n` characters iff they form `<` and one of the eight SVG names, then no `>`, then `/>`. |
| Patterns.FirstNamedExact | src/HTML/Indenter.php:93-95 | The alternation of names matches `n` characters iff some listed name closes there. |
| Patterns.NamedEndsAtFirstClose | src/HTML/Indenter.php:93-95 | A named tag match ends at the first `>`. |
| Patterns.OpeningTagExact | src/HTML/Indenter.php:97 | Pattern 5 matches `n` characters iff they form `<` and a character other than `/`, then no `>`, then `>`. |
| Patterns.ClosingTagExact | src/HTML/Indenter.php:99 | Pattern 6 matches `n` characters iff they form `</`, then no `>`, then `>`. |
| Patterns.SelfClosingLongest | src/HTML/Indenter.php:101 | Pattern 7 matches `n` characters iff they are the longest prefix of the form `<`, a newline-free body, `/>`. |
| Patterns.SelfClosingShadowed | src/HTML/Indenter.php:97-101 | Whenever pattern 7 would match, pattern 5 or 6 matches first. |
| Patterns.SelfClosingNeverChosen | src/HTML/Indenter.php:97-109 | Pattern 7 never decides a scan step. |
| Patterns.SpaceLongest | src/HTML/Indenter.php:103 | Pattern 8 matches `n` characters iff they are the longest whitespace-only prefix. |
| Patterns.TextLeftmostLongest | src/HTML/Indenter.php:105 | Pattern 9 matches at `i` for `n` characters iff every earlier character is `<` and the run is `<`-free and maximal. |
| Patterns.BlockElementExact | src/HTML/Indenter.php:89 | Pattern 1 matches `n` characters iff they form `<name …>text</name>`. The name is lower-case letters, the attributes hold no `>`, and the text holds no `<`. |
| Patterns.BlockComplete | src/HTML/Indenter.php:89 | Any decomposition of a prefix as a block element is the one pattern 1 finds. |
| Patterns.TryPattern | src/HTML/Indenter.php:87-109 | A match of any pattern is non-empty and inside the subject. Patterns 1-8 are anchored, 1-7 start at `<`, 8 is a maximal whitespace run, and 9 skips only `<` and covers no `<`. |
| Scan.FirstMatchFrom | src/HTML/Indenter.php:108-109 | The chosen pattern matches, and every earlier pattern from the starting one fails. `None` means none matches. |
| Scan.NextStep | src/HTML/Indenter.php:109-116 | A step consumes a non-empty part of the subject. |
| Scan.ScanStep | src/HTML/Indenter.php:109-116 | When a pattern matches, the log is that match's entry followed by the log of the subject after it. |
| Scan.ReproducesIff | src/HTML/Indenter.php:149-155 | The logged matches spell the subject iff the scan consumed everything and pattern 9 never skipped a `<`. |
| Scan.NoAngleMatches | src/HTML/Indenter.php:105 | A subject not starting with `<` always has an anchored match. |
| Scan.TextOnlyRoundTrips | src/HTML/Indenter.php:81-155 | A subject without `<` is consumed fully, and the log spells it exactly. |
| Scan.CarriedIsNet | src/HTML/Indenter.php:121-132 | The carried depth is the number of increasing matches minus the number of decreasing ones. |
| Scan.CountAppend | src/HTML/Indenter.php:121-132 | Rule counts add up over concatenated logs. |
| Scan.MatchingLevels | src/HTML/Indenter.php:121-143 | An opening tag and a closing tag enclosing a balanced stretch are written at the same depth. |
| Scan.AppendEntry | src/HTML/Indenter.php:121-144 | Appending an entry updates the carried depth by its rule and clamps the written depth at 0. The output grows by exactly that entry's line. |
| Scan.DiscardsAreSpace | src/HTML/Indenter.php:103-119 | Every discarded log entry is whitespace only. |
| Scan.LineContent | src/HTML/Indenter.php:144 | An output line holds the non-whitespace characters of its match. |
| Scan.ContentPreserved | src/HTML/Indenter.php:108-148 | The output holds the same non-whitespace characters as the log, in order. |
| Passes.SquashSpaces | src/HTML/Indenter.php:73 | No two whitespace characters remain adjacent. Emptiness and the first character's class are kept, and so is every non-whitespace character. |
| Passes.SquashRun | src/HTML/Indenter.php:73 | A whitespace run between non-whitespace characters (or the ends) becomes one space when it has two or more characters and stays as it is when it has one; the text on either side is squashed on its own. |
| Passes.SquashSingles | src/HTML/Indenter.php:73 | Text with no two adjacent whitespace characters is unchanged. |
| Passes.StripTabsSpec | src/HTML/Indenter.php:72 | Tabs are gone and every non-whitespace character stays. |
| Passes.StripTabsFilters | src/HTML/Indenter.php:72 | Removing tabs with `str_replace` equals an independent filter that drops tabs and keeps every other character, in order. |
| Passes.StripTabsExact | src/HTML/Indenter.php:72 | Text without tabs is unchanged, and tab removal distributes over concatenation. |
| Passes.NormalizeSpec | src/HTML/Indenter.php:72-73 | After normalisation there is no tab and no whitespace pair, and the non-whitespace content is unchanged. |
| Passes.Placeholder | src/HTML/Indenter.php:66 | Placeholders are non-empty. |
| Passes.FindFolded | src/HTML/Indenter.php:63 | Case-insensitive search: the first position from `from` where the literal occurs, ignoring ASCII case. |
| Passes.ScriptEnd | src/HTML/Indenter.php:63 | A script match starts with `<script` and ends with `</script>`, in any case. |
| Passes.ScriptsFrom | src/HTML/Indenter.php:63 | Each script match is non-empty, starts with `<` and occurs in the input. |
| Passes.InlineEndWith | src/HTML/Indenter.php:75 | A run for name `a` starts with `<a` and ends with `</a>`. |
| Passes.InlineEnd | src/HTML/Indenter.php:75 | An inline run starts at a `<`. |
| Passes.InlineRunsFrom | src/HTML/Indenter.php:75 | Each inline run found is non-empty, starts with `<` and occurs in the text. |
| Passes.Alternatives | src/HTML/Indenter.php:75 | `implode('|', …)` yields at least one alternative, the empty one when the list is empty. |
| Passes.Collapse | src/HTML/Indenter.php:156 | Collapsing never lengthens the output and keeps its non-whitespace content. |
| Passes.CollapseKeepsContent | src/HTML/Indenter.php:156 | Dropping the whitespace between an empty element's tags keeps the non-whitespace content. |
| Passes.CollapseAtExact | src/HTML/Indenter.php:156 | The collapse pattern matches `n` characters at the head iff they form `<name attrs>gap</name>`: a word-character name, attributes without `>`, a whitespace gap and the same name closing. |
| Passes.CollapseElement | src/HTML/Indenter.php:156 | Such an element in front of any text becomes `<name attrs></name>`, and the collapse goes on after it. |
| Placeholders.SequentialRoundTrip | src/HTML/Indenter.php:63-68 | Sequential `str_replace` restore undoes masking under these conditions: every match is non-empty and apart from every placeholder, the placeholders cannot overlap one another, and none occurs in the text. |
| Placeholders.ScriptPlaceholdersDistinct | src/HTML/Indenter.php:66 | No script placeholder can begin inside another one. This alone does not make the script pass sound (see `Scripts.ScriptMaskingLoses`). |
| Placeholders.InlinePlaceholdersOverlap | src/HTML/Indenter.php:78 | Inline placeholders can overlap: `ᐃ1ᐃ` occurs across `ᐃ2ᐃ1ᐃ3ᐃ`. |
| Placeholders.InlineRunsSeparated | src/HTML/Indenter.php:75-78 | Inline runs found in text without `ᐃ` are non-empty and cannot overlap a placeholder. |
| Placeholders.MaskStep | src/HTML/Indenter.php:78 | One `str_replace` of a match by a placeholder is the substitution of that match in the piece view of the text. |
| Placeholders.SubstExpand | src/HTML/Indenter.php:78 | Substituting a match by its hole keeps the text the pieces expand to. |
| Placeholders.MaskInvariant | src/HTML/Indenter.php:77-79 | For separated matches, the masked text is the piece view of the text, with holes numbered within the table. The pieces expand to the original, and a character absent from the text is absent from their literals. |
| Placeholders.RestoreUpTo | src/HTML/Indenter.php:160-162 | After `k` sequential restores, the text shows holes 1..k expanded and the rest as placeholders, provided the placeholders are distinct. |
| Placeholders.DecimalValue | src/HTML/Indenter.php:78 | Reading back a placeholder's number gives the ordinal whose decimal form it is. |
| Placeholders.DecimalValueOf | src/HTML/Indenter.php:78 | Reading the decimal form of `n` gives `n`. |
| Placeholders.RestoreOnceUnmarked | src/HTML/Indenter.php:160-162 | The corrected inline restore leaves marker-free text unchanged. |
| Placeholders.RestoreOnceHole | src/HTML/Indenter.php:160-162 | At a placeholder whose number is in the table, the corrected restore writes that table entry and goes on after the placeholder. |
| Placeholders.RestoreOnceExpands | src/HTML/Indenter.php:160-162 | The single-pass restore of a masked piece sequence expands every hole. |
| Placeholders.InlineRoundTrip | src/HTML/Indenter.php:75-80 | For any marker-free text and separated matches, the single-pass restore after masking returns the text. |
| Scripts.ScriptHoleAt | src/HTML/Indenter.php:157-159 | A script placeholder read at the head of the text is exactly `<script>N</script>` with `N` in the table. |
| Scripts.ScriptRoundTrip | src/HTML/Indenter.php:63-68 | Masking each script element where it was found and restoring in one pass gives any text back. |
| Scripts.MaskScriptsNone | src/HTML/Indenter.php:63 | When no script element is found, the masking leaves the text as it is. |
| Scripts.RestoreScriptsNoAngle | src/HTML/Indenter.php:157-159 | A text without `<` holds no script placeholder, so the restore leaves it as it is, whatever the table. |
| Scripts.RestoreScriptsEmpty | src/HTML/Indenter.php:157-159 | With an empty script table the restore changes nothing. |
| Scripts.ScriptMaskingLoses | src/HTML/Indenter.php:63-68 | On `<script>a</script><script>1</script>` the pass as written returns two copies of the second script and loses `a`; the corrected pass gives the text back. |
| Content.IntactAppend | src/HTML/Indenter.php:160-162 | Texts whose markers all sit in placeholders of the table join into such a text, and the single-pass restore of the join is the join of the restores. |
| Content.IntactSplit | src/HTML/Indenter.php:160-162 | Such a text cut next to a character that is neither `ᐃ` nor a digit gives two such texts. |
| Content.IntactMasked | src/HTML/Indenter.php:77-79 | The masked piece view of a marker-free text has every marker in a placeholder of the table. |
| Content.NonSpaceRestore | src/HTML/Indenter.php:160-162 | Removing the whitespace of such a text before the restore does not change the non-whitespace characters the restore gives. |
| Content.LogIntact | src/HTML/Indenter.php:108-116 | When the scan spells such a text again, every logged match is such a text. |
| Content.OutputIntact | src/HTML/Indenter.php:144 | Indenting such matches with a whitespace unit gives such a text. |
| Content.CollapseIntact | src/HTML/Indenter.php:156 | Collapsing empty elements keeps such a text one. |
| Content.LayoutRestoresContent | src/HTML/Indenter.php:144-162 | Restoring after indenting and collapsing gives the same non-whitespace characters as restoring the scanned text. |
| Placeholders.SequentialRestoreLoses | src/HTML/Indenter.php:160-162 | On `<b>x</b><b>y</b>1<b>z</b>` the as-written restore loses `y`, while the single-pass restore gives the input back. |

## Left out

- Regular expressions are not interpreted in general. Each of the thirteen PCRE patterns is a
  hand-written matcher: the script pattern (line 63), the whitespace squash (`SquashSpaces`,
  line 73), the inline-run pattern (line 75), the nine scanning patterns (lines 89-105) and
  the collapse (`CollapseAt`, line 156). The nine scanning matchers are proved equal to their
  patterns' languages, and the collapse matcher by `Passes.CollapseAtExact`.
- Text.IsSpace: `\s` is ASCII whitespace (space, tab, line feed, vertical tab, form feed,
  carriage return), and `\w` is ASCII letters, digits and `_`. With the `u` modifier PHP's
  PCRE also counts Unicode spaces such as U+00A0 as `\s` in the squash and the collapse, and
  Unicode letters as `\w` in the collapse; those are not modelled.
- Strings are sequences of code points. Byte-level behaviour of the non-`u` patterns on invalid
  UTF-8 and the `mb_*` length functions are not modelled. On valid UTF-8 they agree.
- Log entries keep the rule and the matched text. Their `pattern` and `subject` fields are left
  out, and the rule is a datatype rather than its name string.
- The two exception classes are the `IndentError` values of a `Result`, and their messages are
  left out.
- Options are a sequence of key/value pairs with string values. PHP's array keys are unique,
  and values of other types are not modelled.
- Html.Indenter.SetElementType: the list is re-indexed. PHP's `array_diff` and `array_unique`
  keep the old keys, which `implode` ignores.
- Inline element names are matched literally. A name holding a regular-expression
  metacharacter such as `|` or `(` is not modelled.
- `indent` is not proved idempotent on its own output. What is stated is that a successful
  `indent` keeps the input's non-whitespace characters (`Html.IndentKeepsContent`), and the
  round trips of the two placeholder passes.
- Html.IndentKeepsContent: does not cover inputs with NUL, which `trim` removes at the ends;
  nor inputs with script elements, where the script pattern and the scan can cut a tag
  differently, as in `<div <script>alert(1)</script>`; nor a script table left from an earlier
  call when the input has a `<`, since the restore applies it to a `<script>1</script>` that
  tab removal created from `<scr\tipt>1</script>`; nor inputs that already hold `ᐃ`, which the inline restore can read as placeholders.
- PCRE resource errors (backtracking or recursion limits making `preg_*` return `null` or
  `false`) are not modelled.
- The inline restore of lines 160-162 is modelled by the corrected `Placeholders.RestoreOnce`
  inside `Html.IndentResult`. The restore as written is `Passes.RestoreSequential`, kept for
  the Findings row.
- The script masking of lines 65-67 and the script restore of lines 157-159 are modelled by
  the corrected `Scripts.MaskScripts` and `Scripts.RestoreScriptsOnce`. The pass as written is
  `Passes.MaskAll` followed by `Passes.RestoreSequential`, kept for the Findings row. The
  corrected masking also differs where the code does not lose text: on
  `<script>b</script> <script>a<script>b</script>` the first `str_replace` of line 66 also
  rewrites the inner `<script>b</script>`, so the second element is no longer found and its
  parts are indented on their own lines; the model masks that element whole and writes it on
  one line.

## Findings

| source | as written | input that shows it | evidently intended | confidence | as-written member | corrected member |
|---|---|---|---|---|---|---|
| src/HTML/Indenter.php:160-162 | Inline placeholders `ᐃNᐃ` are restored one after another with `str_replace`. A placeholder can then also match across two neighbouring placeholders and a digit between them. | `<b>x</b><b>y</b>1<b>z</b>` with the default inline list masks to `ᐃ1ᐃᐃ2ᐃ1ᐃ3ᐃ`. Restoring `ᐃ1ᐃ` also rewrites the `ᐃ1ᐃ` straddling placeholders 2 and 3, and `<b>y</b>` is lost. | Every placeholder is replaced by its own original, giving the input back. | not executed | Placeholders.SequentialRestoreLoses | Placeholders.InlineRoundTrip |
| src/HTML/Indenter.php:63-68 | Each script element found is replaced by `<script>N</script>` with `str_replace` over the whole text, one after another, and each placeholder is restored the same way (lines 157-159). A later script element that itself reads `<script>1</script>` is rewritten by the first replacement. | `<script>a</script><script>1</script>` masks first to `<script>1</script><script>1</script>` and then to `<script>2</script><script>2</script>`; the restore gives `<script>1</script><script>1</script>`: the first script is lost. | Every script element comes back as it was. | not executed | Scripts.ScriptMaskingLoses | Scripts.ScriptRoundTrip |
