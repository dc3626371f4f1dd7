/**
 * The nine patterns `Indenter::indent` tries, in order, against the remaining subject
 * (src/HTML/Indenter.php:87-106). Each pattern is a matcher function that returns the
 * length of its match (patterns 1-8 are anchored at the start of the subject) or, for the
 * unanchored text-node pattern 9, where the match starts and how long it is.
 *
 * Beside each matcher stands a predicate that describes the language of the regular
 * expression declaratively, and a lemma that the matcher finds exactly the match PCRE's
 * backtracking would: the unique match for patterns 1-6, the longest one for the greedy
 * patterns 7 and 8, the leftmost-longest for pattern 9.
 */
module Patterns {
  import opened Wrappers
  import opened Text

  /** The indentation rule a pattern selects (MATCH_INDENT_NO, _DECREASE, _INCREASE, MATCH_DISCARD). */
  datatype Rule = No | Decrease | Increase | Discard

  /** A match: it starts `start` characters into the subject and is `len` characters long. */
  datatype Hit = Hit(start: nat, len: nat)

  const VoidNames: seq<string> := ["input", "link", "meta", "base", "br", "img", "source", "hr"]
  const SvgNames: seq<string> := ["animate", "stop", "path", "circle", "line", "polyline", "rect", "use"]

  // ---------------------------------------------------------------------------
  // Shared shape: a head, then `[^>]*`, then `>` (or `/>`)

  /** `t` is `head`, then characters other than `>`, then `>`. */
  ghost predicate Closes(t: string, head: string) {
    exists body :: '>' !in body && t == head + body + ">"
  }

  /** `t` is `head`, then characters other than `>`, then `/>`. */
  ghost predicate SlashCloses(t: string, head: string) {
    exists body :: '>' !in body && t == head + body + "/>"
  }

  /** The end of `[^>]*>` when it starts at `from`. */
  function CloseEnd(s: string, from: nat): (r: Option<nat>)
    requires from <= |s|
    ensures r.Some? ==> from < r.value <= |s| && s[r.value - 1] == '>'
  {
    var g := Find(s, '>', from);
    if g == |s| then None else Some(g + 1)
  }

  /** The end of `[^>]*\/>` when it starts at `from`. */
  function SlashCloseEnd(s: string, from: nat): (r: Option<nat>)
    requires from <= |s|
    ensures r.Some? ==> from < r.value <= |s| && s[r.value - 1] == '>'
  {
    var g := Find(s, '>', from);
    if g < |s| && from + 1 <= g && s[g - 1] == '/' then Some(g + 1) else None
  }

  lemma ClosesExact(s: string, head: string, n: nat)
    ensures n <= |s| && Closes(s[..n], head)
        <==> |head| <= |s| && StartsWith(s, head) && CloseEnd(s, |head|) == Some(n)
  {
    if |head| <= |s| && StartsWith(s, head) && CloseEnd(s, |head|) == Some(n) {
      ClosesOfEnd(s, head, n);
    }
    if n <= |s| && Closes(s[..n], head) {
      var body :| '>' !in body && s[..n] == head + body + ">";
      EndOfCloses(s, head, n, body);
    }
  }

  /** Where `[^>]*>` ends after the head, the text up to there is the head, a body and `>`. */
  lemma ClosesOfEnd(s: string, head: string, n: nat)
    requires |head| <= |s| && StartsWith(s, head) && CloseEnd(s, |head|) == Some(n)
    ensures n <= |s| && Closes(s[..n], head)
  {
    var g := n - 1;
    var body := s[|head|..g];
    assert s[..n] == s[..|head|] + s[|head|..g] + s[g..n];
    assert '>' !in body by {
      forall i | 0 <= i < |body| ensures body[i] != '>' { assert body[i] == s[|head| + i]; }
    }
  }

  /** The head, a body free of `>` and `>` make `[^>]*>` end right after that `>`. */
  lemma EndOfCloses(s: string, head: string, n: nat, body: string)
    requires n <= |s| && '>' !in body && s[..n] == head + body + ">"
    ensures |head| <= |s| && StartsWith(s, head) && CloseEnd(s, |head|) == Some(n)
  {
    var g := |head| + |body|;
    assert s[..|head|] == s[..n][..|head|] == head;
    forall i | |head| <= i < g ensures s[i] != '>' {
      assert s[i] == s[..n][i] == body[i - |head|];
    }
    assert s[g] == s[..n][g] == '>';
    FindIs(s, '>', |head|, g);
  }

  lemma SlashClosesExact(s: string, head: string, n: nat)
    ensures n <= |s| && SlashCloses(s[..n], head)
        <==> |head| <= |s| && StartsWith(s, head) && SlashCloseEnd(s, |head|) == Some(n)
  {
    if |head| <= |s| && StartsWith(s, head) && SlashCloseEnd(s, |head|) == Some(n) {
      SlashClosesOfEnd(s, head, n);
    }
    if n <= |s| && SlashCloses(s[..n], head) {
      var body :| '>' !in body && s[..n] == head + body + "/>";
      EndOfSlashCloses(s, head, n, body);
    }
  }

  /** Where `[^>]*\/>` ends after the head, the text up to there is the head, a body and `/>`. */
  lemma SlashClosesOfEnd(s: string, head: string, n: nat)
    requires |head| <= |s| && StartsWith(s, head) && SlashCloseEnd(s, |head|) == Some(n)
    ensures n <= |s| && SlashCloses(s[..n], head)
  {
    var g := n - 1;
    var body := s[|head|..g - 1];
    assert s[..n] == s[..|head|] + s[|head|..g - 1] + s[g - 1..n];
    assert '>' !in body by {
      forall i | 0 <= i < |body| ensures body[i] != '>' { assert body[i] == s[|head| + i]; }
    }
  }

  /** The head, a body free of `>` and `/>` make `[^>]*\/>` end right after that `>`. */
  lemma EndOfSlashCloses(s: string, head: string, n: nat, body: string)
    requires n <= |s| && '>' !in body && s[..n] == head + body + "/>"
    ensures |head| <= |s| && StartsWith(s, head) && SlashCloseEnd(s, |head|) == Some(n)
  {
    var g := |head| + |body| + 1;
    assert s[..|head|] == s[..n][..|head|] == head;
    forall i | |head| <= i < g ensures s[i] != '>' {
      if i < g - 1 {
        assert s[i] == s[..n][i] == body[i - |head|];
      } else {
        assert s[i] == s[..n][i] == '/';
      }
    }
    assert s[g] == s[..n][g] == '>';
    assert s[g - 1] == s[..n][g - 1] == '/';
    FindIs(s, '>', |head|, g);
  }

  /** A head free of `>` does not move the first `>`: whatever the head, the match ends there. */
  lemma CloseEndIsFirst(s: string, head: string)
    requires StartsWith(s, head) && '>' !in head
    ensures Find(s, '>', |head|) == Find(s, '>', 0)
  {
    var g := Find(s, '>', |head|);
    forall i | 0 <= i < |head| ensures s[i] != '>' { assert s[i] == head[i]; }
    if g < |s| {
      FindIs(s, '>', 0, g);
    }
  }

  // ---------------------------------------------------------------------------
  // Pattern 2: '/^<!([^>]*)>/'  (DOCTYPE, comments)

  ghost predicate IsDeclaration(t: string) {
    Closes(t, "<!")
  }

  function MatchDeclaration(s: string): (r: Option<nat>)
    ensures r.Some? ==> 0 < r.value <= |s| && s[0] == '<' && s[r.value - 1] == '>'
  {
    if StartsWith(s, "<!") then CloseEnd(s, 2) else None
  }

  lemma DeclarationExact(s: string, n: nat)
    ensures MatchDeclaration(s) == Some(n) <==> n <= |s| && IsDeclaration(s[..n])
  {
    ClosesExact(s, "<!", n);
  }

  // ---------------------------------------------------------------------------
  // Pattern 5: '/^<[^\/]([^>]*)>/'  (opening tag; the second character may even be `>`)

  ghost predicate IsOpeningTag(t: string) {
    |t| >= 2 && t[0] == '<' && t[1] != '/' && Closes(t, t[..2])
  }

  function MatchOpeningTag(s: string): (r: Option<nat>)
    ensures r.Some? ==> 0 < r.value <= |s| && s[0] == '<' && s[r.value - 1] == '>'
  {
    if |s| >= 2 && s[0] == '<' && s[1] != '/' then CloseEnd(s, 2) else None
  }

  lemma OpeningTagExact(s: string, n: nat)
    ensures MatchOpeningTag(s) == Some(n) <==> n <= |s| && IsOpeningTag(s[..n])
  {
    if |s| >= 2 {
      ClosesExact(s, s[..2], n);
      if n <= |s| && IsOpeningTag(s[..n]) {
        assert s[..n][..2] == s[..2];
      }
      if MatchOpeningTag(s) == Some(n) {
        assert s[..n][..2] == s[..2];
      }
    }
  }

  // ---------------------------------------------------------------------------
  // Pattern 6: '/^<\/([^>]*)>/'  (closing tag)

  ghost predicate IsClosingTag(t: string) {
    Closes(t, "</")
  }

  function MatchClosingTag(s: string): (r: Option<nat>)
    ensures r.Some? ==> 0 < r.value <= |s| && s[0] == '<' && s[r.value - 1] == '>'
  {
    if StartsWith(s, "</") then CloseEnd(s, 2) else None
  }

  lemma ClosingTagExact(s: string, n: nat)
    ensures MatchClosingTag(s) == Some(n) <==> n <= |s| && IsClosingTag(s[..n])
  {
    ClosesExact(s, "</", n);
  }

  // ---------------------------------------------------------------------------
  // Pattern 8: '/^(\s+)/'  (whitespace, discarded)

  ghost predicate IsSpaceRun(t: string) {
    |t| > 0 && AllSpace(t)
  }

  function MatchSpace(s: string): (r: Option<nat>)
    ensures r.Some? ==> 0 < r.value <= |s| && AllSpace(s[..r.value]) && (r.value == |s| || !IsSpace(s[r.value]))
  {
    var e := RunEnd(s, 0, Spaces);
    if e == 0 then None else Some(e)
  }

  /** `\s+` is greedy: the match is the longest whitespace prefix. */
  lemma SpaceLongest(s: string, n: nat)
    ensures MatchSpace(s) == Some(n)
        <==> n <= |s| && IsSpaceRun(s[..n]) && forall m :: n < m <= |s| ==> !IsSpaceRun(s[..m])
  {
    var e := RunEnd(s, 0, Spaces);
    if MatchSpace(s) == Some(n) {
      forall m | n < m <= |s| ensures !IsSpaceRun(s[..m]) {
        assert s[..m][e] == s[e];
      }
    }
    if n <= |s| && IsSpaceRun(s[..n]) && forall m :: n < m <= |s| ==> !IsSpaceRun(s[..m]) {
      forall i | 0 <= i < n ensures IsSpace(s[i]) { assert s[i] == s[..n][i]; }
      if n < |s| {
        var t := s[..n + 1];
        assert !IsSpaceRun(t);
        forall i | 0 <= i < n ensures IsSpace(t[i]) { assert t[i] == s[i]; }
        assert !IsSpace(t[n]);
      }
      assert e == n;
    }
  }

  // ---------------------------------------------------------------------------
  // Pattern 9: '/([^<]+)/'  (text node; NOT anchored)

  ghost predicate IsTextRun(t: string) {
    |t| > 0 && '<' !in t
  }

  function MatchText(s: string): (r: Option<Hit>)
    ensures r.Some? ==> 0 < r.value.len && r.value.start + r.value.len <= |s|
    ensures r.Some? ==> forall j :: 0 <= j < r.value.start ==> s[j] == '<'
    ensures r.Some? ==> forall k :: r.value.start <= k < r.value.start + r.value.len ==> s[k] != '<'
    ensures r.Some? ==> r.value.start + r.value.len == |s| || s[r.value.start + r.value.len] == '<'
  {
    var i := RunEnd(s, 0, OpenAngles);
    if i == |s| then None else Some(Hit(i, Find(s, '<', i) - i))
  }

  /** PCRE's leftmost-longest search: nothing but `<` precedes the match, and it runs up to a `<` or the end. */
  lemma TextLeftmostLongest(s: string, i: nat, n: nat)
    ensures MatchText(s) == Some(Hit(i, n))
        <==> && i + n <= |s| && IsTextRun(s[i..i + n])
             && (forall j :: 0 <= j < i ==> s[j] == '<')
             && (i + n == |s| || s[i + n] == '<')
  {
    var a := RunEnd(s, 0, OpenAngles);
    if MatchText(s) == Some(Hit(i, n)) {
      var t := s[i..i + n];
      assert '<' !in t by {
        forall k | 0 <= k < n ensures t[k] != '<' { assert t[k] == s[i + k]; }
      }
    }
    if && i + n <= |s| && IsTextRun(s[i..i + n])
       && (forall j :: 0 <= j < i ==> s[j] == '<')
       && (i + n == |s| || s[i + n] == '<') {
      forall k | i <= k < i + n ensures s[k] != '<' { assert s[k] == s[i..i + n][k - i]; }
      assert s[i] != '<';
      assert a == i;
      if i + n < |s| {
        FindIs(s, '<', i, i + n);
      }
    }
  }

  // ---------------------------------------------------------------------------
  // Patterns 3 and 4: a tag name from a fixed list (an alternation, tried in order)

  /** '/^<(input|link|meta|base|br|img|source|hr)([^>]*)>/'  (void element; no word boundary) */
  ghost predicate IsVoidTag(t: string) {
    SomeNamedCloses(t, VoidNames, false)
  }

  /** '/^<(animate|stop|path|circle|line|polyline|rect|use)([^>]*)\/>/'  (self-closing SVG element) */
  ghost predicate IsSvgSelfClosing(t: string) {
    SomeNamedCloses(t, SvgNames, true)
  }

  /** Where the match ends when the name group takes alternative `name`. */
  function NamedEnd(s: string, name: string, slash: bool): Option<nat> {
    if !StartsWith(s, "<" + name) then None
    else if slash then SlashCloseEnd(s, |name| + 1)
    else CloseEnd(s, |name| + 1)
  }

  /** Tries the alternatives of the name group in order; the first one that leads to a match wins. */
  function FirstNamed(s: string, names: seq<string>, slash: bool): (r: Option<nat>)
    ensures r.Some? ==> 0 < r.value <= |s| && s[0] == '<' && s[r.value - 1] == '>'
    decreases |names|
  {
    if names == [] then None
    else
      var here := NamedEnd(s, names[0], slash);
      if here.Some? then here else FirstNamed(s, names[1..], slash)
  }

  function MatchVoidTag(s: string): (r: Option<nat>)
    ensures r.Some? ==> 0 < r.value <= |s| && s[0] == '<' && s[r.value - 1] == '>'
  {
    FirstNamed(s, VoidNames, false)
  }

  function MatchSvgSelfClosing(s: string): (r: Option<nat>)
    ensures r.Some? ==> 0 < r.value <= |s| && s[0] == '<' && s[r.value - 1] == '>'
  {
    FirstNamed(s, SvgNames, true)
  }

  ghost predicate NamedCloses(t: string, name: string, slash: bool) {
    if slash then SlashCloses(t, "<" + name) else Closes(t, "<" + name)
  }

  ghost predicate SomeNamedCloses(t: string, names: seq<string>, slash: bool) {
    exists i :: 0 <= i < |names| && NamedCloses(t, names[i], slash)
  }

  lemma NamedClosesExact(s: string, name: string, slash: bool, n: nat)
    ensures n <= |s| && NamedCloses(s[..n], name, slash) <==> NamedEnd(s, name, slash) == Some(n)
  {
    if slash {
      SlashClosesExact(s, "<" + name, n);
    } else {
      ClosesExact(s, "<" + name, n);
    }
  }

  /** Whichever alternative matches, the match ends at the first `>` of the subject. */
  lemma NamedEndsAtFirstClose(s: string, name: string, slash: bool, n: nat)
    requires '>' !in name
    requires n <= |s| && NamedCloses(s[..n], name, slash)
    ensures n == Find(s, '>', 0) + 1
  {
    NamedClosesExact(s, name, slash, n);
    var head := "<" + name;
    assert '>' !in head by {
      forall i | 0 <= i < |head| ensures head[i] != '>' {
        if i > 0 { assert head[i] == name[i - 1]; }
      }
    }
    CloseEndIsFirst(s, head);
  }

  lemma SomeNamedClosesCons(t: string, names: seq<string>, slash: bool)
    requires names != []
    ensures SomeNamedCloses(t, names, slash)
        <==> NamedCloses(t, names[0], slash) || SomeNamedCloses(t, names[1..], slash)
  {
    if SomeNamedCloses(t, names, slash) {
      var i :| 0 <= i < |names| && NamedCloses(t, names[i], slash);
      if i > 0 { assert names[1..][i - 1] == names[i]; }
    }
    if SomeNamedCloses(t, names[1..], slash) {
      var i :| 0 <= i < |names[1..]| && NamedCloses(t, names[1..][i], slash);
      assert names[i + 1] == names[1..][i];
    }
  }

  lemma {:induction false} FirstNamedExact(s: string, names: seq<string>, slash: bool, n: nat)
    requires forall i :: 0 <= i < |names| ==> '>' !in names[i]
    ensures FirstNamed(s, names, slash) == Some(n) <==> n <= |s| && SomeNamedCloses(s[..n], names, slash)
    decreases |names|
  {
    if names != [] {
      var here := NamedEnd(s, names[0], slash);
      FirstNamedExact(s, names[1..], slash, n);
      if n <= |s| {
        SomeNamedClosesCons(s[..n], names, slash);
      }
      NamedClosesExact(s, names[0], slash, n);
      if here.Some? && n <= |s| && SomeNamedCloses(s[..n], names, slash) {
        var i :| 0 <= i < |names| && NamedCloses(s[..n], names[i], slash);
        NamedEndsAtFirstClose(s, names[i], slash, n);
        NamedClosesExact(s, names[0], slash, here.value);
        NamedEndsAtFirstClose(s, names[0], slash, here.value);
      }
    }
  }

  /** No listed name contains `>`: each is a run of lower-case letters. */
  lemma NamesAreLower()
    ensures forall i :: 0 <= i < |VoidNames| ==> '>' !in VoidNames[i]
    ensures forall i :: 0 <= i < |SvgNames| ==> '>' !in SvgNames[i]
  {
  }

  lemma VoidTagExact(s: string, n: nat)
    ensures MatchVoidTag(s) == Some(n) <==> n <= |s| && IsVoidTag(s[..n])
  {
    NamesAreLower();
    FirstNamedExact(s, VoidNames, false, n);
  }

  lemma SvgSelfClosingExact(s: string, n: nat)
    ensures MatchSvgSelfClosing(s) == Some(n) <==> n <= |s| && IsSvgSelfClosing(s[..n])
  {
    NamesAreLower();
    FirstNamedExact(s, SvgNames, true, n);
  }

  // ---------------------------------------------------------------------------
  // Pattern 7: '/^<(.+)\/>/'  (generic self-closing tag; `.` stops at a line feed)

  ghost predicate IsSelfClosing(t: string) {
    exists body :: |body| > 0 && '\n' !in body && t == "<" + body + "/>"
  }

  /** `\/>` ends at `m`. */
  predicate CloserEndsAt(s: string, m: nat)
    requires 2 <= m <= |s|
  {
    s[m - 2] == '/' && s[m - 1] == '>'
  }

  /** The greedy `.+` backs off from `q` towards the start until `\/>` follows it. */
  function LastCloser(s: string, q: nat): (r: Option<nat>)
    requires q + 1 < |s|
    ensures r.Some? ==> 4 <= r.value <= q + 2 && CloserEndsAt(s, r.value)
    ensures forall m :: (if r.Some? then r.value else 3) < m <= q + 2 ==> !CloserEndsAt(s, m)
    decreases q
  {
    if q < 2 then None
    else if CloserEndsAt(s, q + 2) then Some(q + 2)
    else LastCloser(s, q - 1)
  }

  function MatchSelfClosing(s: string): (r: Option<nat>)
    ensures r.Some? ==> 0 < r.value <= |s| && s[0] == '<' && s[r.value - 1] == '>'
  {
    if |s| == 0 || s[0] != '<' then None
    else
      var e := Find(s, '\n', 1);
      if e < 4 then None else LastCloser(s, e - 2)
  }

  lemma SelfClosingShape(s: string, m: nat)
    requires m <= |s| && IsSelfClosing(s[..m])
    ensures |s| > 0 && s[0] == '<' && 4 <= m && m - 2 <= Find(s, '\n', 1) && CloserEndsAt(s, m)
  {
    var body :| |body| > 0 && '\n' !in body && s[..m] == "<" + body + "/>";
    SelfClosingChars(s, m, body);
    FindPast(s, '\n', 1, m - 2);
  }

  /** Where the characters of `<body/>` sit in `s`. */
  lemma SelfClosingChars(s: string, m: nat, body: string)
    requires m <= |s| && |body| > 0 && '\n' !in body && s[..m] == "<" + body + "/>"
    ensures m == |body| + 3 && s[0] == '<' && s[m - 2] == '/' && s[m - 1] == '>'
    ensures forall i :: 1 <= i < m - 2 ==> s[i] != '\n'
  {
    assert s[0] == s[..m][0];
    assert s[m - 2] == s[..m][m - 2] && s[m - 1] == s[..m][m - 1];
    forall i | 1 <= i < m - 2 ensures s[i] != '\n' {
      assert s[i] == s[..m][i] == body[i - 1];
    }
  }

  lemma SelfClosingOfShape(s: string, m: nat)
    requires 4 <= m <= |s| && s[0] == '<' && s[m - 2] == '/' && s[m - 1] == '>'
    requires forall i :: 1 <= i < m - 2 ==> s[i] != '\n'
    ensures IsSelfClosing(s[..m])
  {
    var body := s[1..m - 2];
    assert '\n' !in body by {
      forall i | 0 <= i < |body| ensures body[i] != '\n' { assert body[i] == s[i + 1]; }
    }
    assert s[..1] == "<";
    assert s[m - 2..m] == "/>";
    Cut3(s, 1, m - 2, m);
  }

  /** `.+` is greedy: the match is the longest prefix in the pattern's language. */
  lemma SelfClosingLongest(s: string, n: nat)
    ensures MatchSelfClosing(s) == Some(n)
        <==> n <= |s| && IsSelfClosing(s[..n]) && forall m :: n < m <= |s| ==> !IsSelfClosing(s[..m])
  {
    if MatchSelfClosing(s) == Some(n) {
      SelfClosingFound(s);
    }
    if n <= |s| && IsSelfClosing(s[..n]) && forall m :: n < m <= |s| ==> !IsSelfClosing(s[..m]) {
      SelfClosingComplete(s, n);
    }
  }

  lemma SelfClosingFound(s: string)
    requires MatchSelfClosing(s).Some?
    ensures var n := MatchSelfClosing(s).value;
            IsSelfClosing(s[..n]) && forall m :: n < m <= |s| ==> !IsSelfClosing(s[..m])
  {
    var n := MatchSelfClosing(s).value;
    var e := Find(s, '\n', 1);
    assert forall i :: 1 <= i < e ==> s[i] != '\n';
    SelfClosingOfShape(s, n);
    forall m | n < m <= |s| ensures !IsSelfClosing(s[..m]) {
      if IsSelfClosing(s[..m]) {
        SelfClosingShape(s, m);
      }
    }
  }

  lemma SelfClosingComplete(s: string, n: nat)
    requires n <= |s| && IsSelfClosing(s[..n]) && forall m :: n < m <= |s| ==> !IsSelfClosing(s[..m])
    ensures MatchSelfClosing(s) == Some(n)
  {
    SelfClosingShape(s, n);
    var e := Find(s, '\n', 1);
    assert n <= e;
    var r := LastCloser(s, e - 2);
    if r.Some? && r.value > n {
      SelfClosingOfShape(s, r.value);
    }
  }

  /** Pattern 7 is shadowed: whatever it matches, pattern 5 or pattern 6 (tried first) matches too. */
  lemma SelfClosingShadowed(s: string)
    ensures MatchSelfClosing(s).Some? ==> MatchOpeningTag(s).Some? || MatchClosingTag(s).Some?
  {
    if MatchSelfClosing(s).Some? {
      var n := MatchSelfClosing(s).value;
      assert s[n - 1] == '>' && n - 1 >= 2;
      assert Find(s, '>', 2) <= n - 1;
      if s[1] == '/' {
        assert s[..2] == "</";
      }
    }
  }

  // ---------------------------------------------------------------------------
  // Pattern 1: '/^(<([a-z]+)(?:[^>]*)>(?:[^<]*)<\/(?:\2)>)/'  (element whose content has no tag)

  /**
   * `<name attrs>body</name>`: a lower-case name, attributes without `>`, a body without `<`,
   * and the same name again in the closing tag.  Since `[a-z]+` may give characters back to
   * `[^>]*`, the name in the closing tag only has to be a prefix of the opening tag's letters.
   */
  ghost predicate BlockParts(t: string, name: string, attrs: string, body: string) {
    && |name| > 0 && AllLower(name)
    && '>' !in attrs && '<' !in body
    && t == "<" + name + attrs + ">" + body + "</" + name + ">"
  }

  predicate AllLower(name: string) {
    forall i :: 0 <= i < |name| ==> IsLower(name[i])
  }

  ghost predicate IsBlockElement(t: string) {
    exists name, attrs, body :: BlockParts(t, name, attrs, body)
  }

  /** The closing tag at `h` repeats the first `k` letters of the opening tag. */
  predicate ClosesName(s: string, h: nat, k: nat)
    requires k < |s|
  {
    HasAt(s, h + 2, s[1..1 + k]) && h + 2 + k < |s| && s[h + 2 + k] == '>'
  }

  /** Backtracking over `[a-z]+`: name lengths `k`, `k - 1`, ..., 1 are tried in turn. */
  function ClosingName(s: string, h: nat, k: nat): (r: Option<nat>)
    requires k < |s|
    ensures r.Some? ==> 1 <= r.value <= k && ClosesName(s, h, r.value)
    ensures forall j :: (if r.Some? then r.value else 0) < j <= k ==> !ClosesName(s, h, j)
    decreases k
  {
    if k == 0 then None
    else if ClosesName(s, h, k) then Some(k)
    else ClosingName(s, h, k - 1)
  }

  function MatchBlockElement(s: string): (r: Option<nat>)
    ensures r.Some? ==> 0 < r.value <= |s| && s[0] == '<' && s[r.value - 1] == '>'
  {
    if |s| < 2 || s[0] != '<' || !IsLower(s[1]) then None
    else
      var e := RunEnd(s, 1, Lowers);
      var g := Find(s, '>', 1);
      if g == |s| then None
      else
        var h := Find(s, '<', g + 1);
        if h + 1 >= |s| || s[h + 1] != '/' then None
        else
          match ClosingName(s, h, e - 1)
          case None => None
          case Some(k) => Some(h + 3 + k)
  }

  lemma BlockPartsOf(s: string, k: nat, g: nat, h: nat)
    requires 1 <= k && 1 + k <= g < h && h + 3 + k <= |s|
    requires s[0] == '<' && forall i :: 1 <= i < 1 + k ==> IsLower(s[i])
    requires forall i :: 1 + k <= i < g ==> s[i] != '>'
    requires s[g] == '>' && forall i :: g < i < h ==> s[i] != '<'
    requires s[h] == '<' && s[h + 1] == '/' && s[h + 2..h + 2 + k] == s[1..1 + k] && s[h + 2 + k] == '>'
    ensures IsBlockElement(s[..h + 3 + k])
  {
    var name, attrs, body := s[1..1 + k], s[1 + k..g], s[g + 1..h];
    assert AllLower(name) by {
      forall i | 0 <= i < k ensures IsLower(name[i]) { assert name[i] == s[1 + i]; }
    }
    assert '>' !in attrs by {
      forall i | 0 <= i < |attrs| ensures attrs[i] != '>' { assert attrs[i] == s[1 + k + i]; }
    }
    assert '<' !in body by {
      forall i | 0 <= i < |body| ensures body[i] != '<' { assert body[i] == s[g + 1 + i]; }
    }
    BlockText(s, k, g, h);
    assert BlockParts(s[..h + 3 + k], name, attrs, body);
  }

  /** The text up to the closing `>`, built one prefix at a time. */
  lemma BlockText(s: string, k: nat, g: nat, h: nat)
    requires 1 <= k && 1 + k <= g < h && h + 3 + k <= |s|
    requires s[0] == '<' && s[g] == '>' && s[h] == '<' && s[h + 1] == '/'
    requires s[h + 2..h + 2 + k] == s[1..1 + k] && s[h + 2 + k] == '>'
    ensures s[..h + 3 + k] == "<" + s[1..1 + k] + s[1 + k..g] + ">" + s[g + 1..h] + "</" + s[1..1 + k] + ">"
  {
    var name, attrs, body := s[1..1 + k], s[1 + k..g], s[g + 1..h];
    PrefixSplit(s, 1, 1 + k);
    assert s[..1] == "<";
    var open := "<" + name;
    assert s[..1 + k] == open;
    PrefixSplit(s, 1 + k, g);
    assert s[..g] == open + attrs;
    PrefixSplit(s, g, g + 1);
    assert s[g..g + 1] == ">";
    assert s[..g + 1] == open + attrs + ">";
    PrefixSplit(s, g + 1, h);
    assert s[..h] == open + attrs + ">" + body;
    PrefixSplit(s, h, h + 2);
    assert s[h..h + 2] == "</";
    assert s[..h + 2] == open + attrs + ">" + body + "</";
    PrefixSplit(s, h + 2, h + 2 + k);
    assert s[..h + 2 + k] == open + attrs + ">" + body + "</" + name;
    PrefixSplit(s, h + 2 + k, h + 3 + k);
    assert s[h + 2 + k..h + 3 + k] == ">";
  }

  /** What a match of pattern 1 is made of: the name length `k`, the `>` at `g` and the `<` at `h`. */
  lemma BlockUnfold(s: string) returns (k: nat, g: nat, h: nat)
    requires MatchBlockElement(s).Some?
    ensures |s| >= 2 && s[0] == '<' && g == Find(s, '>', 1) && g < |s| && h == Find(s, '<', g + 1)
    ensures h + 1 < |s| && s[h + 1] == '/'
    ensures var r := ClosingName(s, h, RunEnd(s, 1, Lowers) - 1); r.Some? && r.value == k
    ensures MatchBlockElement(s).value == h + 3 + k
  {
    g := Find(s, '>', 1);
    h := Find(s, '<', g + 1);
    k := ClosingName(s, h, RunEnd(s, 1, Lowers) - 1).value;
  }

  /** Pattern 1 matches once the scan finds the `>`, the `<` and `/` after it, and a closing name. */
  lemma BlockFold(s: string, k: nat, g: nat, h: nat)
    requires |s| >= 2 && s[0] == '<' && IsLower(s[1])
    requires g == Find(s, '>', 1) && g < |s| && h == Find(s, '<', g + 1)
    requires h + 1 < |s| && s[h + 1] == '/'
    requires var r := ClosingName(s, h, RunEnd(s, 1, Lowers) - 1); r.Some? && r.value == k
    ensures MatchBlockElement(s) == Some(h + 3 + k)
  {
  }

  /** The scan's positions give the layout that `BlockPartsOf` asks for. */
  lemma BlockShape(s: string, k: nat, g: nat, h: nat)
    requires |s| >= 2 && s[0] == '<' && g == Find(s, '>', 1) && g < |s| && h == Find(s, '<', g + 1)
    requires h + 1 < |s| && s[h + 1] == '/'
    requires var r := ClosingName(s, h, RunEnd(s, 1, Lowers) - 1); r.Some? && r.value == k
    ensures 1 <= k && 1 + k <= g < h && h + 3 + k <= |s|
    ensures forall i :: 1 <= i < 1 + k ==> IsLower(s[i])
    ensures forall i :: 1 + k <= i < g ==> s[i] != '>'
    ensures s[g] == '>' && forall i :: g < i < h ==> s[i] != '<'
    ensures s[h] == '<' && s[h + 2..h + 2 + k] == s[1..1 + k] && s[h + 2 + k] == '>'
  {
    var e := RunEnd(s, 1, Lowers);
    assert 1 <= k <= e - 1 && ClosesName(s, h, k);
    assert !IsLower(s[g]);
    assert g >= e;
  }

  lemma BlockSound(s: string)
    requires MatchBlockElement(s).Some?
    ensures IsBlockElement(s[..MatchBlockElement(s).value])
  {
    var k, g, h := BlockUnfold(s);
    BlockShape(s, k, g, h);
    BlockPartsOf(s, k, g, h);
  }

  /** Pattern 1 has at most one match, and the matcher finds it. */
  lemma BlockElementExact(s: string, n: nat)
    ensures MatchBlockElement(s) == Some(n) <==> n <= |s| && IsBlockElement(s[..n])
  {
    if MatchBlockElement(s) == Some(n) {
      BlockSound(s);
    }
    if n <= |s| && IsBlockElement(s[..n]) {
      var name, attrs, body :| BlockParts(s[..n], name, attrs, body);
      BlockComplete(s, n, name, attrs, body);
    }
  }

  lemma BlockComplete(s: string, n: nat, name: string, attrs: string, body: string)
    requires n <= |s| && BlockParts(s[..n], name, attrs, body)
    ensures MatchBlockElement(s) == Some(n)
  {
    var t := s[..n];
    BlockLayout(t, name, attrs, body);
    var k, g := |name|, 1 + |name| + |attrs|;
    var h := g + 1 + |body|;
    assert t[1..1 + k] == s[1..1 + k] && t[1 + k..g] == s[1 + k..g] && t[g + 1..h] == s[g + 1..h];
    assert t[h + 2..h + 2 + k] == s[h + 2..h + 2 + k];
    assert t[0] == s[0] && t[g] == s[g] && t[h] == s[h] && t[h + 1] == s[h + 1] && t[h + 2 + k] == s[h + 2 + k];
    BlockFound(s, n, k, g, h);
  }

  /** Where the parts of `<name attrs>body</name>` sit. */
  lemma BlockLayout(t: string, name: string, attrs: string, body: string)
    requires BlockParts(t, name, attrs, body)
    ensures var k, g := |name|, 1 + |name| + |attrs|;
            var h := g + 1 + |body|;
            && |t| == h + 3 + k && t[0] == '<' && t[1..1 + k] == name && t[1 + k..g] == attrs
            && t[g] == '>' && t[g + 1..h] == body && t[h] == '<' && t[h + 1] == '/'
            && t[h + 2..h + 2 + k] == name && t[h + 2 + k] == '>'
  {
    var p1 := "<" + name;
    var p2 := p1 + attrs;
    var p3 := p2 + ">";
    var p4 := p3 + body;
    var p5 := p4 + "</";
    var p6 := p5 + name;
    assert t == p6 + ">";
    assert t[..|p6|] == p6 && p6[..|p5|] == p5 && p5[..|p4|] == p4 && p4[..|p3|] == p3;
    assert p3[..|p2|] == p2 && p2[..|p1|] == p1;
  }

  lemma BlockFound(s: string, n: nat, k: nat, g: nat, h: nat)
    requires n <= |s| && n == h + 3 + k && 1 <= k && 1 + k <= g < h
    requires s[0] == '<' && AllLower(s[1..1 + k]) && '>' !in s[1 + k..g]
    requires s[g] == '>' && '<' !in s[g + 1..h]
    requires s[h] == '<' && s[h + 1] == '/' && s[h + 2..h + 2 + k] == s[1..1 + k] && s[h + 2 + k] == '>'
    ensures MatchBlockElement(s) == Some(n)
  {
    BlockFoundScan(s, k, g, h);
    assert IsLower(s[1]) by { assert s[1] == s[1..1 + k][0]; }
    BlockClosingName(s, k, h);
    BlockFold(s, k, g, h);
  }

  /** Backtracking stops at the name length `k` that the closing tag repeats. */
  lemma BlockClosingName(s: string, k: nat, h: nat)
    requires |s| >= 1 && 1 <= k < RunEnd(s, 1, Lowers) && h + 2 + k < |s|
    requires s[h + 2..h + 2 + k] == s[1..1 + k] && s[h + 2 + k] == '>'
    ensures var r := ClosingName(s, h, RunEnd(s, 1, Lowers) - 1); r.Some? && r.value == k
  {
    var e := RunEnd(s, 1, Lowers);
    assert ClosesName(s, h, k);
    forall j | k < j <= e - 1 ensures !ClosesName(s, h, j) {
      NoLongerName(s, h, k, j);
    }
  }

  lemma NoLongerName(s: string, h: nat, k: nat, j: nat)
    requires h + 2 + k < |s| && s[h + 2 + k] == '>' && k < j < RunEnd(s, 1, Lowers)
    ensures !ClosesName(s, h, j)
  {
    assert IsLower(s[1 + k]) && s[1 + k] != '>';
    if h + 2 + j <= |s| {
      assert s[h + 2..h + 2 + j][k] == s[h + 2 + k] && s[1..1 + j][k] == s[1 + k];
    }
  }

  lemma BlockFoundScan(s: string, k: nat, g: nat, h: nat)
    requires 1 <= k && 1 + k <= g < h < |s|
    requires s[0] == '<' && AllLower(s[1..1 + k]) && '>' !in s[1 + k..g]
    requires s[g] == '>' && '<' !in s[g + 1..h] && s[h] == '<'
    ensures 1 + k <= RunEnd(s, 1, Lowers) <= g
    ensures Find(s, '>', 1) == g && Find(s, '<', g + 1) == h
  {
    forall i | 1 <= i < 1 + k ensures IsLower(s[i]) { assert s[i] == s[1..1 + k][i - 1]; }
    forall i | 1 + k <= i < g ensures s[i] != '>' { assert s[i] == s[1 + k..g][i - 1 - k]; }
    forall i | g < i < h ensures s[i] != '<' { assert s[i] == s[g + 1..h][i - g - 1]; }
    var e := RunEnd(s, 1, Lowers);
    assert 1 + k <= e;
    FindIs(s, '>', 1, g);
    FindIs(s, '<', g + 1, h);
  }

  // ---------------------------------------------------------------------------
  // The pattern table (src/HTML/Indenter.php:87-106)

  /** The rule that the `p`-th pattern of the table selects. */
  function PatternRule(p: nat): Rule
    requires 1 <= p <= 9
  {
    if p == 5 then Increase
    else if p == 6 || p == 7 then Decrease
    else if p == 8 then Discard
    else No
  }

  /** The match of anchored pattern `p` (1 to 8): how long it is. */
  function AnchoredMatch(s: string, p: nat): (r: Option<nat>)
    requires 1 <= p <= 8
    ensures r.Some? ==> 0 < r.value <= |s|
    ensures r.Some? && p < 8 ==> s[0] == '<' && s[r.value - 1] == '>'
    ensures r.Some? && p == 8 ==> AllSpace(s[..r.value]) && (r.value == |s| || !IsSpace(s[r.value]))
  {
    if p == 1 then MatchBlockElement(s)
    else if p == 2 then MatchDeclaration(s)
    else if p == 3 then MatchVoidTag(s)
    else if p == 4 then MatchSvgSelfClosing(s)
    else if p == 5 then MatchOpeningTag(s)
    else if p == 6 then MatchClosingTag(s)
    else if p == 7 then MatchSelfClosing(s)
    else MatchSpace(s)
  }

  /** `preg_match` with the `p`-th pattern: where the match lies in the subject, if there is one. */
  function TryPattern(s: string, p: nat): (r: Option<Hit>)
    requires 1 <= p <= 9
    ensures r.Some? ==> 0 < r.value.len && r.value.start + r.value.len <= |s|
    ensures r.Some? && p < 9 ==> r.value.start == 0
    ensures r.Some? && p < 8 ==> s[0] == '<' && s[r.value.len - 1] == '>'
    ensures r.Some? && p == 8 ==> AllSpace(s[..r.value.len]) && (r.value.len == |s| || !IsSpace(s[r.value.len]))
    ensures r.Some? && p == 9 ==>
              && (forall j :: 0 <= j < r.value.start ==> s[j] == '<')
              && (forall k :: r.value.start <= k < r.value.start + r.value.len ==> s[k] != '<')
              && (r.value.start + r.value.len == |s| || s[r.value.start + r.value.len] == '<')
  {
    if p == 9 then MatchText(s)
    else
      var m := AnchoredMatch(s, p);
      if m.Some? then Some(Hit(0, m.value)) else None
  }

  /** Pattern 7 never decides a step: whenever it would match, pattern 5 or 6 has matched before it. */
  lemma SelfClosingNeverChosen(s: string)
    ensures TryPattern(s, 7).Some? ==> TryPattern(s, 5).Some? || TryPattern(s, 6).Some?
  {
    SelfClosingShadowed(s);
  }
}
