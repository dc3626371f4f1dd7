/**
 * The script pass of `Indenter::indent` (src/HTML/Indenter.php:63-68, :157-159) done so that it
 * gives the scripts back.
 *
 * As written, every script element found is masked with `str_replace`, one after another, and
 * every placeholder is restored with `str_replace`, one after another.  A script element may
 * itself read `<script>1</script>`, which is placeholder 1: masking the first script then turns
 * the second one's text into the first one's placeholder too, and a script is lost
 * (`ScriptMaskingLoses`).  The corrected pass masks each element where it was found
 * (`MaskScripts`) and restores every placeholder in one pass from left to right
 * (`RestoreScriptsOnce`); together they give any text back (`ScriptRoundTrip`).
 */
module Scripts {
  import opened Wrappers
  import opened Text
  import opened Passes
  import opened Placeholders

  /**
   * The script elements from position `i` on, each replaced where it was found by its
   * placeholder, numbered from `k`.  The elements are those `ScriptsFrom` finds.
   */
  function MaskScriptsFrom(s: string, i: nat, k: nat): string
    requires i <= |s|
    decreases |s| - i
  {
    if i == |s| then []
    else match ScriptEnd(s, i)
      case Some(e) => Placeholder(Script, k) + MaskScriptsFrom(s, e, k + 1)
      case None => [s[i]] + MaskScriptsFrom(s, i + 1, k)
  }

  function MaskScripts(s: string): string {
    MaskScriptsFrom(s, 0, 1)
  }

  /**
   * The script placeholder at the head of `s`, if there is one whose number is in the table:
   * that number and the placeholder's length.
   */
  function ScriptHoleAt(s: string, table: seq<string>): (r: Option<(nat, nat)>)
    ensures r.Some? ==> 1 <= r.value.0 <= |table| && r.value.1 <= |s|
    ensures r.Some? ==> s[..r.value.1] == Placeholder(Script, r.value.0)
  {
    if !HasAt(s, 0, "<script>") then None
    else
      var j := Find(s, '<', 8);
      var v := DecimalValue(s[8..j]);
      if v.Some? && 1 <= v.value <= |table| && HasAt(s, j, "</script>") then
        assert s[..j + 9] == s[..8] + s[8..j] + s[j..j + 9];
        Some((v.value, j + 9))
      else None
  }

  /**
   * Restores every script placeholder in one pass from left to right: the entry of the table
   * replaces the placeholder and the scan goes on after it, so restored text is never searched
   * again.
   */
  function RestoreScriptsOnce(s: string, table: seq<string>): string
    decreases |s|
  {
    if s == [] then []
    else
      var hole := ScriptHoleAt(s, table);
      if hole.Some? then table[hole.value.0 - 1] + RestoreScriptsOnce(s[hole.value.1..], table)
      else [s[0]] + RestoreScriptsOnce(s[1..], table)
  }

  // ---------------------------------------------------------------------------
  // The round trip

  /** A placeholder whose number is in the table is found at the head of the text. */
  lemma ScriptHoleAtPlaceholder(n: nat, rest: string, table: seq<string>)
    requires 1 <= n <= |table|
    ensures ScriptHoleAt(Placeholder(Script, n) + rest, table) == Some((n, |Placeholder(Script, n)|))
  {
    var d := Decimal(n);
    var s := Placeholder(Script, n) + rest;
    ScriptPlaceholderShape(n);
    assert s[..8] == "<script>";
    FindIs(s, '<', 8, 8 + |d|);
    assert s[8..8 + |d|] == d;
    assert s[8 + |d|..8 + |d| + 9] == "</script>";
    DecimalValueOf(n);
  }

  /** `</script>` in lower case is found by the case-insensitive search too. */
  lemma FoldedClose(x: string, c: nat)
    requires HasAt(x, c, "</script>")
    ensures HasAtFolded(x, c, "</script>")
  {
    forall j | 0 <= j < 9 ensures ToLower(x[c + j]) == "</script>"[j] {
      assert x[c + j] == x[c..c + 9][j];
    }
  }

  /** `<script>` followed, anywhere later, by a `</script>` in any case starts a script element. */
  lemma ScriptOpens(x: string, i: nat, c: nat)
    requires HasAt(x, i, "<script>") && i + 8 <= c && HasAtFolded(x, c, "</script>")
    ensures ScriptEnd(x, i) == Some(FindFolded(x, "</script>", i + 8) + 9)
  {
    forall j | 0 <= j < 7 ensures ToLower(x[i + j]) == "<script"[j] {
      assert x[i + j] == x[i..i + 8][j];
    }
    assert x[i + 7] == x[i..i + 8][7] == '>';
    FindIs(x, '>', i + 7, i + 7);
    assert FindFolded(x, "</script>", i + 8) <= c;
  }

  /**
   * `t` copies the text from `i` on up to `m` characters on, where either the text ends and so
   * does `t`, or a script element starts and `t` holds the `<` that opens its placeholder.
   */
  predicate CopiesUpToHole(x: string, i: nat, t: string, m: nat) {
    i + m <= |x| && m <= |t| && t[..m] == x[i..i + m]
    && (i + m == |x| ==> |t| == m)
    && (i + m < |x| ==> ScriptEnd(x, i + m).Some? && m < |t| && t[m] == '<')
  }

  /** The masked text from `i` on copies the text up to the first script element, or all of it. */
  lemma {:induction false} FirstHole(x: string, i: nat, k: nat) returns (m: nat)
    requires i <= |x|
    ensures CopiesUpToHole(x, i, MaskScriptsFrom(x, i, k), m)
    decreases |x| - i
  {
    if i == |x| {
      m := 0;
    } else if ScriptEnd(x, i).Some? {
      m := 0;
      FirstHoleHere(x, i, k);
    } else {
      var m' := FirstHole(x, i + 1, k);
      m := m' + 1;
      FirstHoleSkip(x, i, k, m');
    }
  }

  /** Where a script element starts, the masked text opens a placeholder at once. */
  lemma FirstHoleHere(x: string, i: nat, k: nat)
    requires i < |x| && ScriptEnd(x, i).Some?
    ensures CopiesUpToHole(x, i, MaskScriptsFrom(x, i, k), 0)
  {
    MaskScriptsAt(x, i, k);
    ScriptPlaceholderShape(k);
  }

  /** One copied character more in front. */
  lemma FirstHoleSkip(x: string, i: nat, k: nat, m': nat)
    requires i < |x| && ScriptEnd(x, i).None?
    requires CopiesUpToHole(x, i + 1, MaskScriptsFrom(x, i + 1, k), m')
    ensures CopiesUpToHole(x, i, MaskScriptsFrom(x, i, k), m' + 1)
  {
    MaskScriptsSkip(x, i, k);
    CopiesOneMore(x, i, MaskScriptsFrom(x, i + 1, k), m');
  }

  lemma CopiesOneMore(x: string, i: nat, t': string, m': nat)
    requires i < |x| && CopiesUpToHole(x, i + 1, t', m')
    ensures CopiesUpToHole(x, i, [x[i]] + t', m' + 1)
  {
    PrependSlice(x[i], t', m');
    assert x[i..i + m' + 1] == [x[i]] + x[i + 1..i + 1 + m'];
  }

  /** Where a script element starts, the masked text starts with its placeholder. */
  lemma MaskScriptsAt(x: string, i: nat, k: nat)
    requires i < |x| && ScriptEnd(x, i).Some?
    ensures MaskScriptsFrom(x, i, k) == Placeholder(Script, k) + MaskScriptsFrom(x, ScriptEnd(x, i).value, k + 1)
  {
  }

  /** Where none starts, the masked text starts with the character there. */
  lemma MaskScriptsSkip(x: string, i: nat, k: nat)
    requires i < |x| && ScriptEnd(x, i).None?
    ensures MaskScriptsFrom(x, i, k) == [x[i]] + MaskScriptsFrom(x, i + 1, k)
  {
  }

  lemma PrependSlice(c: char, t: string, m: nat)
    requires m <= |t|
    ensures |[c] + t| == |t| + 1
    ensures ([c] + t)[..m + 1] == [c] + t[..m]
    ensures m < |t| ==> ([c] + t)[m + 1] == t[m]
  {
  }

  /**
   * Where no script element starts, the masked text holds no placeholder either: one that
   * began there would be copied text up to a `<script>…</script>` of the input, or would run
   * into the next placeholder at its `</script>`, and in both cases an element starts there.
   */
  lemma NoHoleAtText(x: string, i: nat, k: nat, table: seq<string>)
    requires i < |x| && ScriptEnd(x, i).None?
    ensures ScriptHoleAt(MaskScriptsFrom(x, i, k), table).None?
  {
    var t := MaskScriptsFrom(x, i, k);
    if ScriptHoleAt(t, table).Some? {
      var n := ScriptHoleAt(t, table).value.0;
      var m := FirstHole(x, i, k);
      HoleInMasked(x, i, t, m, n);
    }
  }

  /** A placeholder at the head of the masked text from `i` on means an element starts at `i`. */
  lemma HoleInMasked(x: string, i: nat, t: string, m: nat, n: nat)
    requires CopiesUpToHole(x, i, t, m)
    requires |Placeholder(Script, n)| <= |t| && t[..|Placeholder(Script, n)|] == Placeholder(Script, n)
    ensures ScriptEnd(x, i).Some?
  {
    var q := Placeholder(Script, n);
    var len := |q|;
    if m >= len {
      assert x[i..i + len] == t[..m][..len];
      PlaceholderInText(x, i, n);
    } else if m > 0 {
      assert t[m] == t[..len][m] == q[m];
      assert x[i..i + m] == t[..m] == q[..m];
      RunsIntoPlaceholder(x, i, n, m);
    }
  }

  /** A placeholder copied from the text is itself a script element there. */
  lemma PlaceholderInText(x: string, i: nat, n: nat)
    requires HasAt(x, i, Placeholder(Script, n))
    ensures ScriptEnd(x, i).Some?
  {
    var q := Placeholder(Script, n);
    var dl := |Decimal(n)|;
    ScriptPlaceholderShape(n);
    assert x[i..i + 8] == x[i..i + |q|][..8] == q[..8] == "<script>";
    assert x[i + 8 + dl..i + 17 + dl] == x[i..i + |q|][8 + dl..] == q[8 + dl..] == "</script>";
    FoldedClose(x, i + 8 + dl);
    ScriptOpens(x, i, i + 8 + dl);
  }

  /**
   * A placeholder that begins in copied text reaches the next placeholder only at the `<` of its
   * `</script>`; the copied part then opens a script element that the next one closes.
   */
  lemma RunsIntoPlaceholder(x: string, i: nat, n: nat, m: nat)
    requires 0 < m < |Placeholder(Script, n)| && Placeholder(Script, n)[m] == '<'
    requires i + m < |x| && ScriptEnd(x, i + m).Some?
    requires x[i..i + m] == Placeholder(Script, n)[..m]
    ensures ScriptEnd(x, i).Some?
  {
    var q := Placeholder(Script, n);
    ScriptPlaceholderShape(n);
    assert m == 8 + |Decimal(n)|;
    assert x[i..i + 8] == x[i..i + m][..8] == q[..8] == "<script>";
    var e := ScriptEnd(x, i + m).value;
    ScriptOpens(x, i, e - 9);
  }

  /**
   * Restoring in one pass the text masked from `i` on, with a table that holds the elements
   * found from `i` on from entry `k` on, gives the text from `i` on back.
   */
  lemma {:induction false} ScriptRoundTripFrom(x: string, i: nat, k: nat, table: seq<string>)
    requires i <= |x| && 1 <= k && |table| == k - 1 + |ScriptsFrom(x, i)| && table[k - 1..] == ScriptsFrom(x, i)
    ensures RestoreScriptsOnce(MaskScriptsFrom(x, i, k), table) == x[i..]
    decreases |x| - i
  {
    if i < |x| {
      match ScriptEnd(x, i)
      case Some(e) =>
        TableAfterScript(x, i, e, k, table);
        ScriptRoundTripFrom(x, e, k + 1, table);
        RoundTripScript(x, i, e, k, table);
      case None =>
        TableAfterText(x, i, k, table);
        ScriptRoundTripFrom(x, i + 1, k, table);
        RoundTripText(x, i, k, table);
    }
  }

  /** The table holds the element found at `i` at entry `k`, and the later ones after it. */
  lemma TableAfterScript(x: string, i: nat, e: nat, k: nat, table: seq<string>)
    requires i < |x| && ScriptEnd(x, i) == Some(e)
    requires 1 <= k && |table| == k - 1 + |ScriptsFrom(x, i)| && table[k - 1..] == ScriptsFrom(x, i)
    ensures e <= |x| && k <= |table| && table[k - 1] == x[i..e]
    ensures |table| == k + |ScriptsFrom(x, e)| && table[k..] == ScriptsFrom(x, e)
  {
    assert ScriptsFrom(x, i) == [x[i..e]] + ScriptsFrom(x, e);
    assert table[k - 1] == table[k - 1..][0];
    assert table[k..] == table[k - 1..][1..];
  }

  /** Where no element starts, the elements found from `i` are those found from `i + 1`. */
  lemma TableAfterText(x: string, i: nat, k: nat, table: seq<string>)
    requires i < |x| && ScriptEnd(x, i).None?
    requires 1 <= k && |table| == k - 1 + |ScriptsFrom(x, i)| && table[k - 1..] == ScriptsFrom(x, i)
    ensures |table| == k - 1 + |ScriptsFrom(x, i + 1)| && table[k - 1..] == ScriptsFrom(x, i + 1)
  {
  }

  /** `ScriptRoundTripFrom`'s step over a script element. */
  lemma RoundTripScript(x: string, i: nat, e: nat, k: nat, table: seq<string>)
    requires i < e <= |x| && ScriptEnd(x, i) == Some(e)
    requires 1 <= k <= |table| && table[k - 1] == x[i..e]
    requires RestoreScriptsOnce(MaskScriptsFrom(x, e, k + 1), table) == x[e..]
    ensures RestoreScriptsOnce(MaskScriptsFrom(x, i, k), table) == x[i..]
  {
    var ph := Placeholder(Script, k);
    var rest := MaskScriptsFrom(x, e, k + 1);
    MaskScriptsAt(x, i, k);
    ScriptHoleAtPlaceholder(k, rest, table);
    RestoreAfterHole(ph, rest, k, table);
    SliceJoin(x, i, e);
  }

  /** A placeholder found at the head is replaced by its entry, and the rest restored after it. */
  lemma RestoreAfterHole(ph: string, rest: string, k: nat, table: seq<string>)
    requires ph != [] && 1 <= k <= |table| && ScriptHoleAt(ph + rest, table) == Some((k, |ph|))
    ensures RestoreScriptsOnce(ph + rest, table) == table[k - 1] + RestoreScriptsOnce(rest, table)
  {
    assert (ph + rest)[|ph|..] == rest;
  }

  lemma SliceJoin(x: string, i: nat, e: nat)
    requires i <= e <= |x|
    ensures x[i..] == x[i..e] + x[e..]
  {
  }

  /** `ScriptRoundTripFrom`'s step over a copied character. */
  lemma RoundTripText(x: string, i: nat, k: nat, table: seq<string>)
    requires i < |x| && ScriptEnd(x, i).None?
    requires RestoreScriptsOnce(MaskScriptsFrom(x, i + 1, k), table) == x[i + 1..]
    ensures RestoreScriptsOnce(MaskScriptsFrom(x, i, k), table) == x[i..]
  {
    var rest := MaskScriptsFrom(x, i + 1, k);
    MaskScriptsSkip(x, i, k);
    NoHoleAtText(x, i, k, table);
    assert ([x[i]] + rest)[1..] == rest;
    assert x[i..] == [x[i]] + x[i + 1..];
  }

  /** Masking the script elements where they were found and restoring them in one pass gives any text back. */
  lemma ScriptRoundTrip(x: string)
    ensures RestoreScriptsOnce(MaskScripts(x), FindScripts(x)) == x
  {
    ScriptRoundTripFrom(x, 0, 1, FindScripts(x));
  }

  /** A text without script elements is not changed by the masking. */
  lemma {:induction false} MaskScriptsNone(x: string, i: nat, k: nat)
    requires i <= |x| && ScriptsFrom(x, i) == []
    ensures MaskScriptsFrom(x, i, k) == x[i..]
    decreases |x| - i
  {
    if i < |x| {
      MaskScriptsNone(x, i + 1, k);
      assert x[i..] == [x[i]] + x[i + 1..];
    }
  }

  /** With an empty table there is nothing to restore. */
  lemma {:induction false} RestoreScriptsEmpty(s: string)
    ensures RestoreScriptsOnce(s, []) == s
    decreases |s|
  {
    if s != [] {
      RestoreScriptsEmpty(s[1..]);
      assert s == [s[0]] + s[1..];
    }
  }

  /** A text without `<` holds no script placeholder, whatever the table. */
  lemma {:induction false} RestoreScriptsNoAngle(s: string, table: seq<string>)
    requires '<' !in s
    ensures RestoreScriptsOnce(s, table) == s
    decreases |s|
  {
    if s != [] {
      assert s[0] in s;
      if |s| >= 8 {
        assert s[..8][0] == s[0];
      }
      assert !HasAt(s, 0, "<script>");
      assert '<' !in s[1..] by {
        forall k | 0 <= k < |s| - 1 ensures s[1..][k] != '<' { assert s[1..][k] == s[k + 1]; }
      }
      RestoreScriptsNoAngle(s[1..], table);
      assert s == [s[0]] + s[1..];
    }
  }

  // ---------------------------------------------------------------------------
  // A text the sequential script masking damages

  const ScriptA: string := "<script>a</script>"
  const ScriptB: string := "<script>1</script>"

  /** Two script elements, the second of which reads like placeholder 1. */
  const TwoScripts: string := ScriptA + ScriptB

  /** A script element with a one-character body at `i`. */
  lemma OneCharScript(x: string, i: nat, c: char)
    requires HasAt(x, i, "<script>") && i + 8 < |x| && x[i + 8] == c && c != '<' && HasAt(x, i + 9, "</script>")
    ensures ScriptEnd(x, i) == Some(i + 18)
  {
    FoldedClose(x, i + 9);
    ScriptOpens(x, i, i + 9);
    OneCharBody(x, i + 8, c);
    FindFoldedIs(x, "</script>", i + 8, i + 9);
  }

  /** A body character other than `<` does not begin the closing tag. */
  lemma OneCharBody(x: string, j: nat, c: char)
    requires j < |x| && x[j] == c && c != '<'
    ensures !HasAtFolded(x, j, "</script>")
  {
    assert "</script>"[0] == '<';
    assert ToLower(x[j + 0]) != "</script>"[0];
  }

  /** The case-insensitive search stops at the first occurrence. */
  lemma FindFoldedIs(s: string, lit: string, from: nat, j: nat)
    requires from <= j < |s| && HasAtFolded(s, j, lit)
    requires forall i :: from <= i < j ==> !HasAtFolded(s, i, lit)
    ensures FindFolded(s, lit, from) == j
  {
  }

  /** A script element found at `i` is taken whole and the search goes on after it. */
  lemma ScriptsFromFound(s: string, i: nat, e: nat)
    requires i < |s| && ScriptEnd(s, i) == Some(e)
    ensures ScriptsFrom(s, i) == [s[i..e]] + ScriptsFrom(s, e)
  {
  }

  /** Where the two elements of `TwoScripts` and their parts sit. */
  lemma TwoScriptsShape()
    ensures |TwoScripts| == 36 && TwoScripts[0..18] == ScriptA && TwoScripts[18..36] == ScriptB
    ensures HasAt(TwoScripts, 0, "<script>") && TwoScripts[8] == 'a' && HasAt(TwoScripts, 9, "</script>")
    ensures HasAt(TwoScripts, 18, "<script>") && TwoScripts[26] == '1' && HasAt(TwoScripts, 27, "</script>")
  {
    assert TwoScripts[0..8] == ScriptA[0..8];
    assert TwoScripts[9..18] == ScriptA[9..18];
    assert TwoScripts[18..26] == ScriptB[0..8];
    assert TwoScripts[27..36] == ScriptB[9..18];
  }

  lemma TwoScriptsFound()
    ensures FindScripts(TwoScripts) == [ScriptA, ScriptB]
  {
    var x := TwoScripts;
    TwoScriptsShape();
    OneCharScript(x, 0, 'a');
    OneCharScript(x, 18, '1');
    ScriptsFromFound(x, 18, 36);
    ScriptsFromFound(x, 0, 18);
  }

  lemma ScriptDigits()
    ensures Placeholder(Script, 1) == ScriptB
    ensures Placeholder(Script, 2) == "<script>2</script>"
  {
  }

  /** A string followed by itself, searched for itself, is replaced twice. */
  lemma ReplaceTwice(w: string, r: string)
    requires w != []
    ensures ReplaceAll(w + w, w, r) == r + r
  {
    ReplaceHead(w, w, r);
    assert w == w + [];
    ReplaceHead(w, [], r);
  }

  /** Masking the first script also masks the second, which reads as placeholder 1. */
  lemma TwoScriptsMaskOne()
    ensures MaskAll(TwoScripts, [ScriptA], Script) == ScriptB + ScriptB
  {
    MaskSingle(TwoScripts, ScriptA, Script);
    ScriptDigits();
    ReplaceHead(ScriptA, ScriptB, Placeholder(Script, 1));
    AbsentChar(ScriptB, ScriptA, 'a');
    ReplaceAbsent(ScriptB, ScriptA, Placeholder(Script, 1));
  }

  /** Masking the second script then turns both copies into placeholder 2. */
  lemma TwoScriptsMasked()
    ensures MaskAll(TwoScripts, [ScriptA, ScriptB], Script) == Placeholder(Script, 2) + Placeholder(Script, 2)
  {
    assert [ScriptA, ScriptB][..1] == [ScriptA];
    TwoScriptsMaskOne();
    ReplaceTwice(ScriptB, Placeholder(Script, 2));
  }

  /** Placeholder 1 is not in the masked text; placeholder 2 gives the second script twice. */
  lemma TwoScriptsRestored()
    ensures RestoreSequential(Placeholder(Script, 2) + Placeholder(Script, 2), [ScriptA, ScriptB], Script)
         == ScriptB + ScriptB
  {
    var p2 := Placeholder(Script, 2);
    ScriptDigits();
    assert [ScriptA, ScriptB][..1] == [ScriptA] && [ScriptA][..0] == [];
    AbsentChar(p2 + p2, Placeholder(Script, 1), '1');
    ReplaceAbsent(p2 + p2, Placeholder(Script, 1), ScriptA);
    assert RestoreSequential(p2 + p2, [ScriptA], Script) == ReplaceAll(p2 + p2, Placeholder(Script, 1), ScriptA);
    ReplaceTwice(p2, ScriptB);
  }

  /**
   * The script pass of src/HTML/Indenter.php:63-68 and :157-159 turns
   * `<script>a</script><script>1</script>` into two copies of `<script>1</script>`, while the
   * corrected pass gives the text back.
   */
  lemma ScriptMaskingLoses()
    ensures FindScripts(TwoScripts) == [ScriptA, ScriptB]
    ensures RestoreSequential(MaskAll(TwoScripts, FindScripts(TwoScripts), Script), FindScripts(TwoScripts), Script)
         == ScriptB + ScriptB
    ensures 'a' in TwoScripts && 'a' !in ScriptB + ScriptB
    ensures RestoreScriptsOnce(MaskScripts(TwoScripts), FindScripts(TwoScripts)) == TwoScripts
  {
    TwoScriptsFound();
    var found := FindScripts(TwoScripts);
    TwoScriptsMasked();
    TwoScriptsRestored();
    assert RestoreSequential(MaskAll(TwoScripts, found, Script), found, Script) == ScriptB + ScriptB;
    TwoScriptsShape();
    assert TwoScripts[8] == 'a';
    ScriptRoundTrip(TwoScripts);
  }
}
