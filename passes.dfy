/**
 * The passes `Indenter::indent` runs before and after the scanning loop: whitespace
 * normalisation (src/HTML/Indenter.php:72-73), discovery of script elements and inline runs
 * (src/HTML/Indenter.php:63, :75), the numbered placeholders and the `str_replace` calls that
 * swap them in and out (src/HTML/Indenter.php:65-67, :77-79, :157-162), and the collapse of
 * empty elements (src/HTML/Indenter.php:156).
 */
module Passes {
  import opened Wrappers
  import opened Text
  import opened Patterns

  // ---------------------------------------------------------------------------
  // Normalisation

  /** str_replace("\t", '', $input) */
  function StripTabs(s: string): string {
    ReplaceAll(s, "\t", "")
  }

  /**
   * preg_replace('/\s{2,}/u', ' ', $input): every run of two or more whitespace characters,
   * taken whole and from left to right, becomes one space; a lone whitespace character stays.
   */
  function SquashSpaces(s: string): (r: string)
    ensures |r| == 0 <==> |s| == 0
    ensures r != [] ==> (IsSpace(r[0]) <==> IsSpace(s[0]))
    ensures forall i :: 0 <= i < |r| - 1 ==> !(IsSpace(r[i]) && IsSpace(r[i + 1]))
    ensures '\t' !in s ==> '\t' !in r
    ensures NonSpace(r) == NonSpace(s)
    decreases |s|
  {
    if s == [] then []
    else
      var e := RunEnd(s, 0, Spaces);
      if e >= 2 then
        var rest := SquashSpaces(s[e..]);
        assert NonSpace(s[..e]) == [] by { NonSpaceOfSpace(s[..e]); }
        assert s == s[..e] + s[e..];
        NonSpaceAppend(s[..e], s[e..]);
        NonSpaceAppend(" ", rest);
        " " + rest
      else
        var rest := SquashSpaces(s[1..]);
        assert s == [s[0]] + s[1..];
        NonSpaceAppend([s[0]], s[1..]);
        NonSpaceAppend([s[0]], rest);
        [s[0]] + rest
  }

  function Normalize(s: string): string {
    SquashSpaces(StripTabs(s))
  }

  lemma {:induction false} StripTabsSpec(s: string)
    ensures '\t' !in StripTabs(s)
    ensures NonSpace(StripTabs(s)) == NonSpace(s)
    decreases |s|
  {
    if s != [] {
      StripTabsSpec(s[1..]);
      var rest := StripTabs(s[1..]);
      if s[0] == '\t' {
        assert StripTabs(s) == rest;
        assert s == [s[0]] + s[1..];
        NonSpaceAppend([s[0]], s[1..]);
      } else {
        assert StartsWith(s, "\t") == false;
        assert StripTabs(s) == [s[0]] + rest;
        assert s == [s[0]] + s[1..];
        NonSpaceAppend([s[0]], s[1..]);
        NonSpaceAppend([s[0]], rest);
      }
    }
  }

  /** Every character of the text but its tabs, in order: what removing the tabs leaves. */
  function WithoutTabs(s: string): string {
    if s == [] then [] else (if s[0] == '\t' then [] else [s[0]]) + WithoutTabs(s[1..])
  }

  /** Tab removal drops the tabs and nothing else. */
  lemma {:induction false} StripTabsFilters(s: string)
    ensures StripTabs(s) == WithoutTabs(s)
    decreases |s|
  {
    if s != [] {
      StripTabsFilters(s[1..]);
      if s[0] == '\t' {
        assert StartsWith(s, "\t");
      } else {
        assert !StartsWith(s, "\t");
      }
    }
  }

  lemma {:induction false} WithoutTabsAppend(a: string, b: string)
    ensures WithoutTabs(a + b) == WithoutTabs(a) + WithoutTabs(b)
    decreases |a|
  {
    if a != [] {
      WithoutTabsAppend(a[1..], b);
      var x := if a[0] == '\t' then [] else [a[0]];
      assert (a + b)[0] == a[0];
      assert (a + b)[1..] == a[1..] + b;
      calc {
        WithoutTabs(a + b);
        x + WithoutTabs(a[1..] + b);
        x + (WithoutTabs(a[1..]) + WithoutTabs(b));
        (x + WithoutTabs(a[1..])) + WithoutTabs(b);
        WithoutTabs(a) + WithoutTabs(b);
      }
    } else {
      assert a + b == b;
    }
  }

  lemma {:induction false} WithoutTabsAbsent(s: string)
    requires '\t' !in s
    ensures WithoutTabs(s) == s
    decreases |s|
  {
    if s != [] {
      assert s[1..] == s[|s| - (|s| - 1)..] && forall c | c in s[1..] :: c in s;
      WithoutTabsAbsent(s[1..]);
      assert s == [s[0]] + s[1..];
    }
  }

  /** Text without tabs is not changed by tab removal, and tab removal works piece by piece. */
  lemma StripTabsExact(a: string, b: string)
    ensures '\t' !in a ==> StripTabs(a) == a
    ensures StripTabs(a + b) == StripTabs(a) + StripTabs(b)
  {
    StripTabsFilters(a);
    StripTabsFilters(b);
    StripTabsFilters(a + b);
    WithoutTabsAppend(a, b);
    if '\t' !in a {
      WithoutTabsAbsent(a);
    }
  }

  /** Text with no two adjacent whitespace characters is not changed by the squash. */
  lemma {:induction false} SquashSingles(s: string)
    requires forall i :: 0 <= i < |s| - 1 ==> !(IsSpace(s[i]) && IsSpace(s[i + 1]))
    ensures SquashSpaces(s) == s
    decreases |s|
  {
    if s != [] {
      if IsSpace(s[0]) {
        RunEndAt(s, 1);
      } else {
        RunEndAt(s, 0);
      }
      forall i | 0 <= i < |s[1..]| - 1 ensures !(IsSpace(s[1..][i]) && IsSpace(s[1..][i + 1])) {
        assert s[1..][i] == s[i + 1] && s[1..][i + 1] == s[i + 2];
      }
      SquashSingles(s[1..]);
      assert s == [s[0]] + s[1..];
    }
  }

  /**
   * A whitespace run between non-whitespace neighbours becomes one space when it has two or
   * more characters and stays as it is when it has one; the text on either side is squashed
   * on its own.
   */
  lemma {:induction false} SquashRun(a: string, w: string, b: string)
    requires a == [] || !IsSpace(a[|a| - 1])
    requires |w| > 0 && AllSpace(w)
    requires b == [] || !IsSpace(b[0])
    ensures SquashSpaces(a + (w + b)) == SquashSpaces(a) + ((if |w| >= 2 then " " else w) + SquashSpaces(b))
    decreases |a|
  {
    if a == [] {
      assert a + (w + b) == w + b;
      SquashLeadingRun(w, b);
    } else {
      var n, h := SquashHead(a, w + b);
      var a' := a[n..];
      assert a' == [] || a'[|a'| - 1] == a[|a| - 1];
      SquashRun(a', w, b);
      Rejoin(h, SquashSpaces(a'), (if |w| >= 2 then " " else w) + SquashSpaces(b));
    }
  }

  lemma Rejoin(h: string, x: string, y: string)
    ensures h + (x + y) == (h + x) + y
  {
  }

  /** A whitespace run at the head, up to a non-whitespace character, is squashed first. */
  lemma SquashLeadingRun(w: string, b: string)
    requires |w| > 0 && AllSpace(w)
    requires b == [] || !IsSpace(b[0])
    ensures SquashSpaces(w + b) == (if |w| >= 2 then " " else w) + SquashSpaces(b)
  {
    var s := w + b;
    forall i | 0 <= i < |w| ensures IsSpace(s[i]) {
      assert s[i] == w[i];
    }
    assert |w| < |s| ==> s[|w|] == b[0];
    RunEndAt(s, |w|);
    if |w| < 2 {
      assert s[1..] == b;
      assert [s[0]] == w;
    } else {
      assert s[|w|..] == b;
    }
  }

  /**
   * The squash of a text that starts with `a`, which ends in a non-whitespace character, takes
   * its first step inside `a`: it writes `h` for the first `n` characters of `a`, as it does
   * for `a` alone.
   */
  lemma SquashHead(a: string, t: string) returns (n: nat, h: string)
    requires a != [] && !IsSpace(a[|a| - 1])
    ensures 0 < n <= |a|
    ensures SquashSpaces(a + t) == h + SquashSpaces(a[n..] + t)
    ensures SquashSpaces(a) == h + SquashSpaces(a[n..])
  {
    var e := RunEnd(a, 0, Spaces);
    assert e < |a|;
    RunEndPrefix(a, t, e);
    var s := a + t;
    if e >= 2 {
      n, h := e, " ";
      assert s[e..] == a[e..] + t;
    } else {
      n, h := 1, [a[0]];
      assert s[0] == a[0];
      assert s[1..] == a[1..] + t;
    }
  }

  /** The run of whitespace at the head of `s` ends at `n` when `s[..n]` is whitespace and `s[n]` is not. */
  lemma RunEndAt(s: string, n: nat)
    requires n <= |s| && (forall i :: 0 <= i < n ==> IsSpace(s[i])) && (n == |s| || !IsSpace(s[n]))
    ensures RunEnd(s, 0, Spaces) == n
  {
    assert forall i :: 0 <= i < n ==> InClass(Spaces, s[i]);
  }

  /** Text after a non-whitespace character does not change the run at the head. */
  lemma RunEndPrefix(a: string, t: string, e: nat)
    requires e < |a| && RunEnd(a, 0, Spaces) == e
    ensures RunEnd(a + t, 0, Spaces) == e
  {
    forall i | 0 <= i < e ensures IsSpace((a + t)[i]) {
      assert (a + t)[i] == a[i];
      assert InClass(Spaces, a[i]);
    }
    assert (a + t)[e] == a[e];
    RunEndAt(a + t, e);
  }

  /**
   * After normalisation the text holds no tab and no two adjacent whitespace characters, and
   * its non-whitespace characters are those of the input, in order.
   */
  lemma NormalizeSpec(s: string)
    ensures '\t' !in Normalize(s)
    ensures forall i :: 0 <= i < |Normalize(s)| - 1 ==> !(IsSpace(Normalize(s)[i]) && IsSpace(Normalize(s)[i + 1]))
    ensures NonSpace(Normalize(s)) == NonSpace(s)
  {
    StripTabsSpec(s);
  }

  // ---------------------------------------------------------------------------
  // Placeholders

  /** Which of the two placeholder families: `<script>N</script>` or `ᐃNᐃ`. */
  datatype Kind = Script | Inline

  /** The character that brackets the number of an inline placeholder (U+1403). */
  const Marker: char := '\U{1403}'

  /** The `n`-th placeholder of a family (the matches are numbered from 1). */
  function Placeholder(kind: Kind, n: nat): (r: string)
    ensures |r| > 0
  {
    match kind
    case Script => "<script>" + Decimal(n) + "</script>"
    case Inline => [Marker] + Decimal(n) + [Marker]
  }

  /**
   * The masking loop (src/HTML/Indenter.php:65-67, :77-79): the `i`-th match, from the first on,
   * is replaced wherever it occurs by placeholder `i + 1`.
   */
  function MaskAll(s: string, matches: seq<string>, kind: Kind): string {
    if matches == [] then s
    else
      var k := |matches|;
      ReplaceAll(MaskAll(s, matches[..k - 1], kind), matches[k - 1], Placeholder(kind, k))
  }

  /**
   * The restoring loop (src/HTML/Indenter.php:157-162): placeholder `i + 1`, from the first on,
   * is replaced wherever it occurs by the `i`-th entry of the table.
   */
  function RestoreSequential(s: string, table: seq<string>, kind: Kind): string {
    if table == [] then s
    else
      var k := |table|;
      ReplaceAll(RestoreSequential(s, table[..k - 1], kind), Placeholder(kind, k), table[k - 1])
  }

  // ---------------------------------------------------------------------------
  // Script elements: preg_match_all('/<script\b[^>]*>([\s\S]*?)<\/script>/mi', ...)

  /** `s` holds `lit` (lower case) at `at`, ignoring ASCII case. */
  predicate HasAtFolded(s: string, at: nat, lit: string) {
    at + |lit| <= |s| && forall k :: 0 <= k < |lit| ==> ToLower(s[at + k]) == lit[k]
  }

  /** The first position at or after `from` where `lit` occurs, ignoring case; |s| when none. */
  function FindFolded(s: string, lit: string, from: nat): (r: nat)
    requires from <= |s|
    ensures from <= r <= |s|
    ensures r < |s| ==> HasAtFolded(s, r, lit)
    ensures forall i :: from <= i < r ==> !HasAtFolded(s, i, lit)
    decreases |s| - from
  {
    if from == |s| || HasAtFolded(s, from, lit) then from else FindFolded(s, lit, from + 1)
  }

  /** Where a script element that starts at `i` ends: the lazy body stops at the first `</script>`. */
  function ScriptEnd(s: string, i: nat): (r: Option<nat>)
    requires i <= |s|
    ensures r.Some? ==> i + 16 <= r.value <= |s| && s[i] == '<' && HasAtFolded(s, i, "<script")
    ensures r.Some? ==> HasAtFolded(s, r.value - 9, "</script>")
  {
    if !HasAtFolded(s, i, "<script") then None
    else if i + 7 < |s| && IsWordChar(s[i + 7]) then None
    else
      var g := Find(s, '>', i + 7);
      if g == |s| then None
      else
        var c := FindFolded(s, "</script>", g + 1);
        if c == |s| then None
        else
          assert ToLower(s[i + 0]) == "<script"[0];
          Some(c + 9)
  }

  /** All script elements from position `i` on, leftmost first and without overlap. */
  function ScriptsFrom(s: string, i: nat): (r: seq<string>)
    requires i <= |s|
    ensures forall j :: 0 <= j < |r| ==> |r[j]| > 0 && r[j][0] == '<' && Occurs(s, r[j])
    decreases |s| - i
  {
    if i == |s| then []
    else match ScriptEnd(s, i)
      case Some(e) =>
        assert HasAt(s, i, s[i..e]);
        [s[i..e]] + ScriptsFrom(s, e)
      case None => ScriptsFrom(s, i + 1)
  }

  function FindScripts(s: string): seq<string> {
    ScriptsFrom(s, 0)
  }

  // ---------------------------------------------------------------------------
  // Inline runs: preg_match_all('/<(' . implode('|', $names) . ')[^>]*>[^<]*<\/\1>/', ...)

  /** The alternatives of the name group; an empty list leaves one empty alternative. */
  function Alternatives(names: seq<string>): (r: seq<string>)
    ensures |r| > 0
  {
    if names == [] then [""] else names
  }

  /** Where an inline run that starts at `i` with name `a` ends: `<a...>text</a>`. */
  function InlineEndWith(s: string, i: nat, a: string): (r: Option<nat>)
    ensures r.Some? ==> i + 2 * |a| + 5 <= r.value <= |s| && HasAt(s, i, "<" + a)
    ensures r.Some? ==> HasAt(s, r.value - |a| - 3, "</" + a + ">")
  {
    if !HasAt(s, i, "<" + a) then None
    else
      var g := Find(s, '>', i + 1 + |a|);
      if g == |s| then None
      else
        var h := Find(s, '<', g + 1);
        if HasAt(s, h, "</" + a + ">") then Some(h + 3 + |a|) else None
  }

  /** The alternatives are tried in order; the first that leads to a match wins. */
  function InlineEnd(s: string, i: nat, alts: seq<string>): (r: Option<nat>)
    ensures r.Some? ==> i < r.value <= |s| && s[i] == '<'
  {
    if alts == [] then None
    else
      var here := InlineEndWith(s, i, alts[0]);
      if here.Some? then here else InlineEnd(s, i, alts[1..])
  }

  function InlineRunsFrom(s: string, i: nat, alts: seq<string>): (r: seq<string>)
    requires i <= |s|
    ensures forall j :: 0 <= j < |r| ==> |r[j]| > 0 && r[j][0] == '<' && Occurs(s, r[j])
    decreases |s| - i
  {
    if i == |s| then []
    else match InlineEnd(s, i, alts)
      case Some(e) =>
        assert HasAt(s, i, s[i..e]);
        [s[i..e]] + InlineRunsFrom(s, e, alts)
      case None => InlineRunsFrom(s, i + 1, alts)
  }

  function FindInlineRuns(s: string, names: seq<string>): seq<string> {
    InlineRunsFrom(s, 0, Alternatives(names))
  }

  // ---------------------------------------------------------------------------
  // Collapse: preg_replace('/(<(\w+)[^>]*>)\s*(<\/\2>)/u', '\\1\\3', $output)

  /**
   * An empty element at the start of `s`: where its opening tag's `>` is, where the whitespace
   * after it ends, and where the match ends.  `\w+` gives letters back from the end, so the
   * closing name is the longest prefix of the opening tag's word characters that is followed by
   * `>` in the closing tag.
   */
  function CollapseAt(s: string): (r: Option<(nat, nat, nat)>)
    ensures r.Some? ==> var (g, w, n) := r.value;
              && g < w < n <= |s| && s[g] == '>' && AllSpace(s[g + 1..w])
  {
    if |s| < 2 || s[0] != '<' || !IsWordChar(s[1]) then None
    else
      var e := RunEnd(s, 1, WordChars);
      var g := Find(s, '>', 1);
      if g == |s| then None
      else
        var w := RunEnd(s, g + 1, Spaces);
        if w + 1 >= |s| || s[w] != '<' || s[w + 1] != '/' then None
        else
          match ClosingName(s, w, e - 1)
          case None => None
          case Some(k) =>
            SpaceRunSlice(s, g + 1, w);
            Some((g, w, w + 3 + k))
  }

  lemma SpaceRunSlice(s: string, a: nat, b: nat)
    requires a <= b <= |s| && forall k :: a <= k < b ==> IsSpace(s[k])
    ensures AllSpace(s[a..b])
  {
    var t := s[a..b];
    forall j | 0 <= j < |t| ensures IsSpace(t[j]) { assert t[j] == s[a + j]; }
  }

  /**
   * `<name attrs>gap</name>`: a name of word characters, attributes without `>`, a gap of
   * whitespace, and the same name in the closing tag.
   */
  ghost predicate EmptyParts(t: string, name: string, attrs: string, gap: string) {
    && |name| > 0 && AllWord(name)
    && '>' !in attrs && AllSpace(gap)
    && t == "<" + name + attrs + ">" + gap + "</" + name + ">"
  }

  predicate AllWord(name: string) {
    forall i :: 0 <= i < |name| ==> IsWordChar(name[i])
  }

  ghost predicate IsEmptyElement(t: string) {
    exists name, attrs, gap :: EmptyParts(t, name, attrs, gap)
  }

  /** Where the parts of `<name attrs>gap</name>` sit. */
  lemma EmptyLayout(t: string, name: string, attrs: string, gap: string)
    requires EmptyParts(t, name, attrs, gap)
    ensures var k, g := |name|, 1 + |name| + |attrs|;
            var w := g + 1 + |gap|;
            && |t| == w + 3 + k && t[0] == '<' && t[1..1 + k] == name && t[1 + k..g] == attrs
            && t[g] == '>' && t[g + 1..w] == gap && t[w] == '<' && t[w + 1] == '/'
            && t[w + 2..w + 2 + k] == name && t[w + 2 + k] == '>'
  {
    var p1 := "<" + name;
    var p2 := p1 + attrs;
    var p3 := p2 + ">";
    var p4 := p3 + gap;
    var p5 := p4 + "</";
    var p6 := p5 + name;
    assert t == p6 + ">";
    assert t[..|p6|] == p6 && p6[..|p5|] == p5 && p5[..|p4|] == p4 && p4[..|p3|] == p3;
    assert p3[..|p2|] == p2 && p2[..|p1|] == p1;
  }

  /** The text up to the end of a collapse match, assembled from the positions the scan finds. */
  lemma EmptyText(s: string, k: nat, g: nat, w: nat)
    requires 1 <= k && 1 + k <= g < w && w + 3 + k <= |s|
    requires s[0] == '<' && s[g] == '>' && s[w] == '<' && s[w + 1] == '/'
    requires s[w + 2..w + 2 + k] == s[1..1 + k] && s[w + 2 + k] == '>'
    ensures s[..w + 3 + k] == "<" + s[1..1 + k] + s[1 + k..g] + ">" + s[g + 1..w] + "</" + s[1..1 + k] + ">"
    ensures s[..g + 1] + s[w..w + 3 + k] == "<" + s[1..1 + k] + s[1 + k..g] + ">" + "</" + s[1..1 + k] + ">"
  {
    var name, attrs, gap := s[1..1 + k], s[1 + k..g], s[g + 1..w];
    OpenPart(s, k, g);
    ClosePart(s, k, w);
    PrefixSplit(s, g + 1, w);
    PrefixSplit(s, w, w + 3 + k);
    assert s[..w + 3 + k] == s[..g + 1] + gap + s[w..w + 3 + k];
  }

  /** The opening tag of a collapse match, from the positions the scan finds. */
  lemma OpenPart(s: string, k: nat, g: nat)
    requires 1 <= k && 1 + k <= g < |s| && s[0] == '<' && s[g] == '>'
    ensures s[..g + 1] == "<" + s[1..1 + k] + s[1 + k..g] + ">"
  {
    PrefixSplit(s, 1, 1 + k);
    assert s[..1] == "<";
    PrefixSplit(s, 1 + k, g);
    PrefixSplit(s, g, g + 1);
    assert s[g..g + 1] == ">";
  }

  /** The closing tag of a collapse match, from the positions the scan finds. */
  lemma ClosePart(s: string, k: nat, w: nat)
    requires 1 <= k && w + 3 + k <= |s| && s[w] == '<' && s[w + 1] == '/'
    requires s[w + 2..w + 2 + k] == s[1..1 + k] && s[w + 2 + k] == '>'
    ensures s[w..w + 3 + k] == "</" + s[1..1 + k] + ">"
  {
    assert s[w..w + 2] == "</";
    assert s[w + 2 + k..w + 3 + k] == ">";
    SliceJoin(s, w, w + 2, w + 2 + k);
    SliceJoin(s, w, w + 2 + k, w + 3 + k);
  }

  /** A closing name longer than the one the closing tag ends after cannot match. */
  lemma NoLongerWord(s: string, w: nat, k: nat, j: nat)
    requires w + 2 + k < |s| && s[w + 2 + k] == '>' && k < j < RunEnd(s, 1, WordChars)
    ensures !ClosesName(s, w, j)
  {
    assert IsWordChar(s[1 + k]) && s[1 + k] != '>';
    if w + 2 + j <= |s| {
      assert s[w + 2..w + 2 + j][k] == s[w + 2 + k] && s[1..1 + j][k] == s[1 + k];
    }
  }

  /**
   * What a collapse match is: an empty element `<name attrs>gap</name>`, whose gap the collapse
   * drops, keeping `<name attrs></name>`.
   */
  lemma CollapseSound(s: string)
    requires CollapseAt(s).Some?
    ensures var (g, w, n) := CollapseAt(s).value;
            var k := n - w - 3;
            && 1 <= k && 1 + k <= g
            && EmptyParts(s[..n], s[1..1 + k], s[1 + k..g], s[g + 1..w])
            && s[..g + 1] + s[w..n] == "<" + s[1..1 + k] + s[1 + k..g] + ">" + "</" + s[1..1 + k] + ">"
  {
    var (g, w, n) := CollapseAt(s).value;
    MatchPositions(s, g, w, n);
    var k := n - w - 3;
    EmptyText(s, k, g, w);
  }

  /** The positions a collapse match is made of: name, attributes, gap and closing tag. */
  lemma MatchPositions(s: string, g: nat, w: nat, n: nat)
    requires CollapseAt(s) == Some((g, w, n))
    ensures var k := n - w - 3;
            && 1 <= k && 1 + k <= g < w && w + 3 + k == n <= |s|
            && s[0] == '<' && s[g] == '>' && s[w] == '<' && s[w + 1] == '/'
            && s[w + 2..w + 2 + k] == s[1..1 + k] && s[w + 2 + k] == '>'
            && AllWord(s[1..1 + k]) && '>' !in s[1 + k..g] && AllSpace(s[g + 1..w])
  {
    var e := RunEnd(s, 1, WordChars);
    var k := ClosingName(s, w, e - 1).value;
    assert n == w + 3 + k && ClosesName(s, w, k);
    assert g == Find(s, '>', 1) && !IsWordChar(s[g]);
    assert g >= e;
    var name, attrs := s[1..1 + k], s[1 + k..g];
    assert AllWord(name) by {
      forall i | 0 <= i < k ensures IsWordChar(name[i]) { assert name[i] == s[1 + i]; }
    }
    assert '>' !in attrs by {
      forall i | 0 <= i < |attrs| ensures attrs[i] != '>' { assert attrs[i] == s[1 + k + i]; }
    }
  }

  /** Every empty element at the start of the text is the match the collapse finds there. */
  lemma CollapseComplete(s: string, n: nat, name: string, attrs: string, gap: string)
    requires n <= |s| && EmptyParts(s[..n], name, attrs, gap)
    ensures var g := 1 + |name| + |attrs|;
            CollapseAt(s) == Some((g, g + 1 + |gap|, n))
  {
    var t := s[..n];
    EmptyLayout(t, name, attrs, gap);
    var k, g := |name|, 1 + |name| + |attrs|;
    var w := g + 1 + |gap|;
    assert t[1..1 + k] == s[1..1 + k] && t[1 + k..g] == s[1 + k..g] && t[g + 1..w] == s[g + 1..w];
    assert t[w + 2..w + 2 + k] == s[w + 2..w + 2 + k];
    assert t[0] == s[0] && t[g] == s[g] && t[w] == s[w] && t[w + 1] == s[w + 1] && t[w + 2 + k] == s[w + 2 + k];
    CollapseFound(s, k, g, w);
  }

  /** The collapse finds the match once the positions of its parts are known. */
  lemma CollapseFound(s: string, k: nat, g: nat, w: nat)
    requires 1 <= k && 1 + k <= g < w && w + 3 + k <= |s|
    requires s[0] == '<' && AllWord(s[1..1 + k]) && '>' !in s[1 + k..g]
    requires s[g] == '>' && AllSpace(s[g + 1..w])
    requires s[w] == '<' && s[w + 1] == '/' && s[w + 2..w + 2 + k] == s[1..1 + k] && s[w + 2 + k] == '>'
    ensures CollapseAt(s) == Some((g, w, w + 3 + k))
  {
    CollapseFoundScan(s, k, g, w);
    assert IsWordChar(s[1]) by { assert s[1] == s[1..1 + k][0]; }
    CollapseClosingName(s, k, w);
  }

  lemma CollapseFoundScan(s: string, k: nat, g: nat, w: nat)
    requires 1 <= k && 1 + k <= g < w < |s|
    requires AllWord(s[1..1 + k]) && '>' !in s[1 + k..g]
    requires s[g] == '>' && AllSpace(s[g + 1..w]) && s[w] == '<'
    ensures 1 + k <= RunEnd(s, 1, WordChars)
    ensures Find(s, '>', 1) == g && RunEnd(s, g + 1, Spaces) == w
  {
    forall i | 1 <= i < 1 + k ensures IsWordChar(s[i]) { assert s[i] == s[1..1 + k][i - 1]; }
    forall i | 1 + k <= i < g ensures s[i] != '>' { assert s[i] == s[1 + k..g][i - 1 - k]; }
    forall i | g + 1 <= i < w ensures IsSpace(s[i]) { assert s[i] == s[g + 1..w][i - g - 1]; }
    FindIs(s, '>', 1, g);
  }

  /** Backtracking over `\w+` stops at the name length `k` that the closing tag repeats. */
  lemma CollapseClosingName(s: string, k: nat, w: nat)
    requires |s| >= 1 && 1 <= k < RunEnd(s, 1, WordChars) && w + 2 + k < |s|
    requires s[w + 2..w + 2 + k] == s[1..1 + k] && s[w + 2 + k] == '>'
    ensures var r := ClosingName(s, w, RunEnd(s, 1, WordChars) - 1); r.Some? && r.value == k
  {
    var e := RunEnd(s, 1, WordChars);
    assert ClosesName(s, w, k);
    forall j | k < j <= e - 1 ensures !ClosesName(s, w, j) {
      NoLongerWord(s, w, k, j);
    }
  }

  /** The collapse pattern matches `n` characters at the start iff they form an empty element. */
  lemma CollapseAtExact(s: string, n: nat)
    ensures (CollapseAt(s).Some? && CollapseAt(s).value.2 == n) <==> n <= |s| && IsEmptyElement(s[..n])
  {
    if CollapseAt(s).Some? && CollapseAt(s).value.2 == n {
      CollapseSound(s);
    }
    if n <= |s| && IsEmptyElement(s[..n]) {
      var name, attrs, gap :| EmptyParts(s[..n], name, attrs, gap);
      CollapseComplete(s, n, name, attrs, gap);
    }
  }

  /** An empty element loses the whitespace between its tags, and the collapse goes on after it. */
  lemma CollapseElement(name: string, attrs: string, gap: string, rest: string)
    requires |name| > 0 && AllWord(name) && '>' !in attrs && AllSpace(gap)
    ensures var open := "<" + name + attrs + ">";
            var close := "</" + name + ">";
            Collapse(open + gap + close + rest) == open + close + Collapse(rest)
  {
    var open := "<" + name + attrs + ">";
    var close := "</" + name + ">";
    var s := open + gap + close + rest;
    var g, w, n := |open| - 1, |open| + |gap|, |open| + |gap| + |close|;
    ElementFound(name, attrs, gap, rest);
    CollapseAtHead(s, g, w, n);
    ElementSlices(open, gap, close, rest);
  }

  /** `CollapseUnfold` with the match's positions named. */
  lemma CollapseAtHead(s: string, g: nat, w: nat, n: nat)
    requires CollapseAt(s) == Some((g, w, n))
    ensures g < w <= n <= |s| && Collapse(s) == s[..g + 1] + s[w..n] + Collapse(s[n..])
  {
    CollapseUnfold(s);
  }

  /** The collapse finds such an element at the head of the text. */
  lemma ElementFound(name: string, attrs: string, gap: string, rest: string)
    requires |name| > 0 && AllWord(name) && '>' !in attrs && AllSpace(gap)
    ensures var open := "<" + name + attrs + ">";
            var close := "</" + name + ">";
            CollapseAt(open + gap + close + rest) == Some((|open| - 1, |open| + |gap|, |open| + |gap| + |close|))
  {
    var open := "<" + name + attrs + ">";
    var close := "</" + name + ">";
    var t := open + gap + close;
    ElementText(name, attrs, gap);
    assert (t + rest)[..|t|] == t;
    CollapseComplete(t + rest, |t|, name, attrs, gap);
  }

  /** `open + gap + close` is the element as `EmptyParts` spells it. */
  lemma ElementText(name: string, attrs: string, gap: string)
    requires |name| > 0 && AllWord(name) && '>' !in attrs && AllSpace(gap)
    ensures EmptyParts(("<" + name + attrs + ">") + gap + ("</" + name + ">"), name, attrs, gap)
  {
    assert ("<" + name + attrs + ">") + gap + ("</" + name + ">")
        == "<" + name + attrs + ">" + gap + "</" + name + ">";
  }

  /** Where the pieces of `open + gap + close + rest` sit. */
  lemma ElementSlices(open: string, gap: string, close: string, rest: string)
    requires |open| > 0
    ensures var s := open + gap + close + rest;
            var g, w, n := |open| - 1, |open| + |gap|, |open| + |gap| + |close|;
            && s[..g + 1] == open && s[w..n] == close && s[n..] == rest
            && s[..n] == open + gap + close
  {
  }

  /** Where a collapse match starts the text, its gap goes and the collapse goes on after it. */
  lemma CollapseUnfold(s: string)
    requires CollapseAt(s).Some?
    ensures var (g, w, n) := CollapseAt(s).value;
            Collapse(s) == s[..g + 1] + s[w..n] + Collapse(s[n..])
  {
  }

  /** Every match, left to right, loses the whitespace between its two tags. */
  function Collapse(s: string): (r: string)
    ensures |r| <= |s|
    ensures NonSpace(r) == NonSpace(s)
    decreases |s|
  {
    if s == [] then []
    else match CollapseAt(s)
      case Some((g, w, n)) =>
        var rest := Collapse(s[n..]);
        CollapseKeepsContent(s, g, w, n, rest);
        s[..g + 1] + s[w..n] + rest
      case None =>
        var rest := Collapse(s[1..]);
        assert s == [s[0]] + s[1..];
        NonSpaceAppend([s[0]], s[1..]);
        NonSpaceAppend([s[0]], rest);
        [s[0]] + rest
  }

  lemma CollapseKeepsContent(s: string, g: nat, w: nat, n: nat, rest: string)
    requires g < w < n <= |s| && AllSpace(s[g + 1..w])
    requires NonSpace(rest) == NonSpace(s[n..])
    ensures NonSpace(s[..g + 1] + s[w..n] + rest) == NonSpace(s)
  {
    var head, gap, tag, tail := s[..g + 1], s[g + 1..w], s[w..n], s[n..];
    NonSpaceOfSpace(gap);
    var left := head + gap;
    assert s[..w] == left by { PrefixExtend(s, g + 1, w); }
    assert s[..n] == left + tag by { PrefixExtend(s, w, n); }
    assert s == (left + tag) + tail;
    NonSpaceAppend(head, gap);
    assert NonSpace(left) == NonSpace(head);
    NonSpaceAppend(left, tag);
    NonSpaceAppend(left + tag, tail);
    NonSpaceAppend(head, tag);
    NonSpaceAppend(head + tag, rest);
  }
}
