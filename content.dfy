/**
 * Why `indent` keeps the text of the inline runs it masks: the layout of
 * src/HTML/Indenter.php:81-156 adds and removes whitespace only between placeholders, never
 * inside one, so the single-pass restore reads the same placeholders in the laid-out text as in
 * the scanned text.
 *
 * `Intact(s, table)` says that `s`, read from the left as the restore reads it, is literal
 * characters other than the marker and placeholders whose numbers are in the table.  A
 * placeholder is made of markers and digits only, so a cut next to any other character is a cut
 * between pieces (`IntactSplit`); intact texts join into intact texts (`IntactAppend`); and
 * whitespace does not matter to what an intact text restores to (`NonSpaceRestore`).
 */
module Content {
  import opened Wrappers
  import opened Text
  import opened Patterns
  import opened Scan
  import opened Passes
  import opened Placeholders

  /** A character that no placeholder holds. */
  predicate Plain(c: char) {
    c != Marker && !IsDigit(c)
  }

  /** Every marker of `s` belongs to a placeholder that the single-pass restore reads with `table`. */
  predicate Intact(s: string, table: seq<string>)
    decreases |s|
  {
    if s == [] then true
    else
      var hole := HoleAt(s, table);
      if hole.Some? then Intact(s[hole.value.1..], table)
      else s[0] != Marker && Intact(s[1..], table)
  }

  // ---------------------------------------------------------------------------
  // Placeholders at the head of a text

  /** A placeholder is marker, digits, marker: the restore reads it whatever follows it. */
  lemma HoleAtWithin(s: string, t: string, table: seq<string>)
    requires HoleAt(s, table).Some?
    requires HoleAt(s, table).value.1 <= |t| && t[..HoleAt(s, table).value.1] == s[..HoleAt(s, table).value.1]
    ensures HoleAt(t, table) == HoleAt(s, table)
  {
    var l := HoleAt(s, table).value.1;
    var j := Find(s, Marker, 1);
    assert j + 1 == l;
    PrefixAgree(s, t, l);
    FindIs(t, Marker, 1, j);
    PrefixSlice(s, t, l, 1, j);
  }

  /** Texts with the same first `l` characters agree at each of them. */
  lemma PrefixAgree(s: string, t: string, l: nat)
    requires l <= |s| && l <= |t| && t[..l] == s[..l]
    ensures forall i :: 0 <= i < l ==> t[i] == s[i]
  {
    forall i | 0 <= i < l ensures t[i] == s[i] {
      assert t[i] == t[..l][i];
      assert s[i] == s[..l][i];
    }
  }

  /** Texts with the same first `l` characters agree on every slice within them. */
  lemma PrefixSlice(s: string, t: string, l: nat, a: nat, b: nat)
    requires a <= b <= l <= |s| && l <= |t| && t[..l] == s[..l]
    ensures t[a..b] == s[a..b]
  {
    PrefixAgree(s, t, l);
    forall i | 0 <= i < b - a ensures t[a..b][i] == s[a..b][i] {
      assert t[a..b][i] == t[a + i] && s[a..b][i] == s[a + i];
    }
  }

  /** A placeholder holds markers and digits only. */
  lemma HoleChars(s: string, table: seq<string>, k: nat)
    requires HoleAt(s, table).Some? && k < HoleAt(s, table).value.1
    ensures !Plain(s[k]) && !IsSpace(s[k])
  {
    var n, l := HoleAt(s, table).value.0, HoleAt(s, table).value.1;
    var j := Find(s, Marker, 1);
    if 0 < k < j {
      assert s[1..j] == Decimal(n);
      assert s[k] == s[1..j][k - 1];
    }
  }

  // ---------------------------------------------------------------------------
  // Intact texts

  /** A text without markers is intact. */
  lemma {:induction false} IntactUnmarked(s: string, table: seq<string>)
    requires Marker !in s
    ensures Intact(s, table)
    decreases |s|
  {
    if s != [] {
      assert Marker !in s[1..] by {
        forall k | 0 <= k < |s| - 1 ensures s[1..][k] != Marker { assert s[1..][k] == s[k + 1]; }
      }
      IntactUnmarked(s[1..], table);
    }
  }

  /** Two intact texts join into one, and the restore of the join is the join of the restores. */
  lemma {:induction false} IntactAppend(a: string, b: string, table: seq<string>)
    requires Intact(a, table) && Intact(b, table)
    ensures Intact(a + b, table)
    ensures RestoreOnce(a + b, table) == RestoreOnce(a, table) + RestoreOnce(b, table)
    decreases |a|
  {
    if a == [] {
      assert a + b == b;
    } else if HoleAt(a, table).Some? {
      var l := HoleAt(a, table).value.1;
      IntactHole(a, table);
      IntactAppend(a[l..], b, table);
      AppendHole(a, b, table);
    } else {
      IntactLit(a, table);
      IntactAppend(a[1..], b, table);
      AppendLit(a, b, table);
    }
  }

  /** `IntactAppend`'s step at a placeholder. */
  lemma AppendHole(a: string, b: string, table: seq<string>)
    requires a != [] && HoleAt(a, table).Some?
    requires Intact(a, table)
    requires var l := HoleAt(a, table).value.1;
             Intact(a[l..] + b, table) &&
             RestoreOnce(a[l..] + b, table) == RestoreOnce(a[l..], table) + RestoreOnce(b, table)
    ensures Intact(a + b, table)
    ensures RestoreOnce(a + b, table) == RestoreOnce(a, table) + RestoreOnce(b, table)
  {
    HoleAtAppend(a, b, table);
    IntactHole(a + b, table);
    AppendHoleRestore(a, b, table);
  }

  /** The restore half of `AppendHole`. */
  lemma AppendHoleRestore(a: string, b: string, table: seq<string>)
    requires a != [] && HoleAt(a, table).Some?
    requires var l := HoleAt(a, table).value.1;
             a + b != [] && HoleAt(a + b, table) == HoleAt(a, table) && (a + b)[l..] == a[l..] + b &&
             RestoreOnce(a[l..] + b, table) == RestoreOnce(a[l..], table) + RestoreOnce(b, table)
    ensures RestoreOnce(a + b, table) == RestoreOnce(a, table) + RestoreOnce(b, table)
  {
    var n, l := HoleAt(a, table).value.0, HoleAt(a, table).value.1;
    RestoreOnceAt(a, table);
    RestoreOnceAt(a + b, table);
    var e, x, y := table[n - 1], RestoreOnce(a[l..], table), RestoreOnce(b, table);
    calc {
      RestoreOnce(a + b, table);
      e + RestoreOnce(a[l..] + b, table);
      e + (x + y);
      { assert e + (x + y) == (e + x) + y; }
      (e + x) + y;
    }
  }

  /** The placeholder at the head of `a` is the one at the head of `a + b`. */
  lemma HoleAtAppend(a: string, b: string, table: seq<string>)
    requires HoleAt(a, table).Some?
    ensures a + b != [] && HoleAt(a + b, table) == HoleAt(a, table)
    ensures (a + b)[HoleAt(a, table).value.1..] == a[HoleAt(a, table).value.1..] + b
  {
    var l := HoleAt(a, table).value.1;
    var ab := a + b;
    assert ab[..l] == a[..l];
    HoleAtWithin(a, ab, table);
    assert ab[l..] == a[l..] + b;
  }

  /** `IntactAppend`'s step at a literal character. */
  lemma AppendLit(a: string, b: string, table: seq<string>)
    requires a != [] && HoleAt(a, table).None?
    requires Intact(a, table)
    requires Intact(a[1..] + b, table)
    requires RestoreOnce(a[1..] + b, table) == RestoreOnce(a[1..], table) + RestoreOnce(b, table)
    ensures Intact(a + b, table)
    ensures RestoreOnce(a + b, table) == RestoreOnce(a, table) + RestoreOnce(b, table)
  {
    var ab := a + b;
    assert ab[1..] == a[1..] + b;
    IntactLit(a, table);
    HoleAtLit(a, ab, table);
    IntactLit(ab, table);
    RestoreOnceLit(a, table);
    RestoreOnceLit(ab, table);
  }

  /** Where `a` has no placeholder at its head, neither has `a + b`, as `a` is intact. */
  lemma HoleAtLit(a: string, ab: string, table: seq<string>)
    requires a != [] && HoleAt(a, table).None? && Intact(a, table)
    requires |a| <= |ab| && ab[..|a|] == a
    ensures HoleAt(ab, table).None?
  {
    IntactLit(a, table);
    assert ab[0] == a[0];
  }

  lemma IntactHole(s: string, table: seq<string>)
    requires s != [] && HoleAt(s, table).Some?
    ensures Intact(s, table) == Intact(s[HoleAt(s, table).value.1..], table)
  {
  }

  lemma IntactLit(s: string, table: seq<string>)
    requires s != [] && HoleAt(s, table).None?
    ensures Intact(s, table) == (s[0] != Marker && Intact(s[1..], table))
  {
  }

  lemma RestoreOnceLit(s: string, table: seq<string>)
    requires s != [] && HoleAt(s, table).None?
    ensures RestoreOnce(s, table) == [s[0]] + RestoreOnce(s[1..], table)
  {
  }

  /** An intact text cut next to a character no placeholder holds gives two intact texts. */
  lemma {:induction false} IntactSplit(s: string, p: nat, table: seq<string>)
    requires Intact(s, table) && p <= |s|
    requires p == 0 || p == |s| || Plain(s[p - 1]) || Plain(s[p])
    ensures Intact(s[..p], table) && Intact(s[p..], table)
    decreases |s|
  {
    if p == 0 {
      assert s[0..] == s;
    } else if HoleAt(s, table).Some? {
      var l := HoleAt(s, table).value.1;
      if p < l {
        if Plain(s[p - 1]) {
          HoleChars(s, table, p - 1);
        } else {
          HoleChars(s, table, p);
        }
      } else {
        IntactHole(s, table);
        ShiftCut(s, l, p);
        IntactSplit(s[l..], p - l, table);
        SplitHoleStep(s, p, table);
      }
    } else {
      IntactLit(s, table);
      ShiftCut(s, 1, p);
      IntactSplit(s[1..], p - 1, table);
      SplitLitStep(s, p, table);
    }
  }

  /** A cut next to a plain character stays one when the text loses a prefix before it. */
  lemma ShiftCut(s: string, d: nat, p: nat)
    requires 0 < d <= p <= |s|
    requires p == |s| || Plain(s[p - 1]) || Plain(s[p])
    ensures var t := s[d..];
            p - d == 0 || p - d == |t| || Plain(t[p - d - 1]) || Plain(t[p - d])
  {
    var t := s[d..];
    if p < |s| {
      assert t[p - d] == s[p];
    }
    if p - d > 0 {
      assert t[p - d - 1] == s[p - 1];
    }
  }

  /** `IntactSplit`'s step past a placeholder. */
  lemma SplitHoleStep(s: string, p: nat, table: seq<string>)
    requires s != [] && HoleAt(s, table).Some?
    requires HoleAt(s, table).value.1 <= p <= |s|
    requires var l := HoleAt(s, table).value.1;
             Intact(s[l..][..p - l], table) && Intact(s[l..][p - l..], table)
    ensures Intact(s[..p], table) && Intact(s[p..], table)
  {
    var l := HoleAt(s, table).value.1;
    var rest, front := s[l..], s[..p];
    assert rest[p - l..] == s[p..];
    assert front[..l] == s[..l];
    HoleAtWithin(s, front, table);
    assert front[l..] == rest[..p - l];
    IntactHole(front, table);
  }

  /** `IntactSplit`'s step past a literal character. */
  lemma SplitLitStep(s: string, p: nat, table: seq<string>)
    requires s != [] && HoleAt(s, table).None? && s[0] != Marker
    requires 1 <= p <= |s|
    requires Intact(s[1..][..p - 1], table) && Intact(s[1..][p - 1..], table)
    ensures Intact(s[..p], table) && Intact(s[p..], table)
  {
    var rest, front := s[1..], s[..p];
    assert rest[p - 1..] == s[p..];
    assert front[0] == s[0];
    assert front[1..] == rest[..p - 1];
    IntactLit(front, table);
  }

  /** The masked text of a piece sequence with marker-free literals and holes in the table is intact. */
  lemma {:induction false} IntactMasked(ps: seq<Piece>, table: seq<string>)
    requires LitsAvoid(ps, Marker) && HolesWithin(ps, |table|)
    ensures Intact(Masked(ps, Inline), table)
    decreases |ps|
  {
    if ps != [] {
      var rest := Masked(ps[1..], Inline);
      IntactMasked(ps[1..], table);
      if ps[0].Hole? {
        var ph := Placeholder(Inline, ps[0].n);
        HoleAtPlaceholder(ps[0].n, rest, table);
        assert (ph + rest)[|ph|..] == rest;
      } else {
        assert ([ps[0].c] + rest)[1..] == rest;
      }
    }
  }

  // ---------------------------------------------------------------------------
  // Whitespace does not matter to the restore of an intact text

  /** A text without whitespace is its own non-whitespace part. */
  lemma {:induction false} NonSpaceOfSolid(s: string)
    requires forall k :: 0 <= k < |s| ==> !IsSpace(s[k])
    ensures NonSpace(s) == s
    decreases |s|
  {
    if s != [] {
      NonSpaceOfSolid(s[1..]);
      assert s == [s[0]] + s[1..];
    }
  }

  /**
   * Removing the whitespace of an intact text before the restore leaves the non-whitespace
   * characters of the result as they are.
   */
  lemma {:induction false} NonSpaceRestore(u: string, table: seq<string>)
    requires Intact(u, table)
    ensures NonSpace(RestoreOnce(u, table)) == NonSpace(RestoreOnce(NonSpace(u), table))
    decreases |u|
  {
    if u != [] {
      if HoleAt(u, table).Some? {
        var l := HoleAt(u, table).value.1;
        IntactHole(u, table);
        NonSpaceRestore(u[l..], table);
        NonSpaceHoleStep(u, table);
      } else {
        IntactLit(u, table);
        NonSpaceRestore(u[1..], table);
        NonSpaceLitStep(u, table);
      }
    }
  }

  /** `NonSpaceRestore`'s step past a placeholder, which holds no whitespace. */
  lemma NonSpaceHoleStep(u: string, table: seq<string>)
    requires u != [] && HoleAt(u, table).Some?
    requires var l := HoleAt(u, table).value.1;
             NonSpace(RestoreOnce(u[l..], table)) == NonSpace(RestoreOnce(NonSpace(u[l..]), table))
    ensures NonSpace(RestoreOnce(u, table)) == NonSpace(RestoreOnce(NonSpace(u), table))
  {
    var n, l := HoleAt(u, table).value.0, HoleAt(u, table).value.1;
    var tail := u[l..];
    var v := NonSpace(u);
    SolidHead(u, table);
    assert v[..l] == u[..l] && v[l..] == NonSpace(tail);
    HoleAtWithin(u, v, table);
    RestoreOnceAt(u, table);
    RestoreOnceAt(v, table);
    var e, x, y := table[n - 1], RestoreOnce(tail, table), RestoreOnce(NonSpace(tail), table);
    assert RestoreOnce(u, table) == e + x;
    assert RestoreOnce(v, table) == e + y;
    NonSpaceAppend(e, x);
    NonSpaceAppend(e, y);
  }

  /** The whitespace removal keeps the placeholder at the head of a text. */
  lemma SolidHead(u: string, table: seq<string>)
    requires u != [] && HoleAt(u, table).Some?
    ensures var l := HoleAt(u, table).value.1;
            |NonSpace(u)| >= l && NonSpace(u)[..l] == u[..l] && NonSpace(u)[l..] == NonSpace(u[l..])
  {
    var l := HoleAt(u, table).value.1;
    var head, tail := u[..l], u[l..];
    forall k | 0 <= k < |head| ensures !IsSpace(head[k]) {
      HoleChars(u, table, k);
    }
    NonSpaceOfSolid(head);
    assert u == head + tail;
    NonSpaceAppend(head, tail);
    var v := NonSpace(u);
    assert v == head + NonSpace(tail);
  }

  /** The whitespace removal of a text that starts with `c`. */
  lemma NonSpaceCons(c: char, t: string)
    ensures NonSpace([c] + t) == (if IsSpace(c) then [] else [c]) + NonSpace(t)
  {
    assert ([c] + t)[1..] == t;
  }

  /** `NonSpaceRestore`'s step past a literal character. */
  lemma NonSpaceLitStep(u: string, table: seq<string>)
    requires u != [] && HoleAt(u, table).None? && u[0] != Marker
    requires NonSpace(RestoreOnce(u[1..], table)) == NonSpace(RestoreOnce(NonSpace(u[1..]), table))
    ensures NonSpace(RestoreOnce(u, table)) == NonSpace(RestoreOnce(NonSpace(u), table))
  {
    var c, tail := u[0], u[1..];
    var x, y := RestoreOnce(tail, table), RestoreOnce(NonSpace(tail), table);
    assert u == [c] + tail;
    RestoreOnceLit(u, table);
    assert RestoreOnce(u, table) == [c] + x;
    NonSpaceCons(c, x);
    NonSpaceCons(c, tail);
    var v := NonSpace(u);
    if !IsSpace(c) {
      assert v == [c] + NonSpace(tail);
      assert v[1..] == NonSpace(tail);
      RestoreOnceLit(v, table);
      assert RestoreOnce(v, table) == [c] + y;
      NonSpaceCons(c, y);
      assert NonSpace(RestoreOnce(v, table)) == [c] + NonSpace(y);
      assert NonSpace(RestoreOnce(u, table)) == [c] + NonSpace(x);
    } else {
      assert v == NonSpace(tail);
      assert NonSpace(RestoreOnce(u, table)) == NonSpace(x);
    }
  }

  // ---------------------------------------------------------------------------
  // The layout keeps placeholders intact

  /** The matches the scan logs of an intact text that it reproduces are intact, each of them. */
  lemma LogIntact(s: string, table: seq<string>)
    requires Intact(s, table) && Joined(ScanLog(s)) == s
    ensures forall i :: 0 <= i < |ScanLog(s)| ==> Intact(ScanLog(s)[i].text, table)
  {
    ReproducesIff(s);
    AnchoredLogIntact(s, table);
  }

  /** `LogIntact` for a subject whose every match the scan finds at its start. */
  lemma {:induction false} AnchoredLogIntact(s: string, table: seq<string>)
    requires Intact(s, table) && Anchored(s)
    ensures forall i :: 0 <= i < |ScanLog(s)| ==> Intact(ScanLog(s)[i].text, table)
    decreases |s|
  {
    if FirstMatch(s).Some? {
      var p, h := FirstMatch(s).value.0, FirstMatch(s).value.1;
      ScanStep(s, p, h);
      StepRest(s, p, h);
      var rest := s[h.len..];
      CutIsPlain(s, p, h);
      IntactSplit(s, h.len, table);
      AnchoredLogIntact(rest, table);
      assert s[h.start..h.start + h.len] == s[..h.len];
      ConsIntact(Entry(PatternRule(p), s[..h.len]), ScanLog(rest), table);
    } else {
      assert ScanLog(s) == [];
    }
  }

  /** An intact entry in front of a log of intact entries. */
  lemma ConsIntact(e: Entry, log: seq<Entry>, table: seq<string>)
    requires Intact(e.text, table)
    requires forall i :: 0 <= i < |log| ==> Intact(log[i].text, table)
    ensures forall i :: 0 <= i < |[e] + log| ==> Intact(([e] + log)[i].text, table)
  {
    forall i | 0 <= i < |[e] + log| ensures Intact(([e] + log)[i].text, table) {
      if i > 0 {
        assert ([e] + log)[i] == log[i - 1];
      }
    }
  }

  /** A match of the scan ends next to a character no placeholder holds: `>`, whitespace or `<`. */
  lemma CutIsPlain(s: string, p: nat, h: Hit)
    requires FirstMatch(s) == Some((p, h)) && h.start == 0
    ensures h.len <= |s| && (h.len == |s| || Plain(s[h.len - 1]) || Plain(s[h.len]))
  {
    assert TryPattern(s, p) == Some(h);
    if p == 8 {
      assert s[h.len - 1] == s[..h.len][h.len - 1];
    }
  }

  /** The output of a log of intact matches is intact, with a whitespace indentation unit. */
  lemma {:induction false} OutputIntact(log: seq<Entry>, unit: string, table: seq<string>)
    requires AllSpace(unit)
    requires forall i :: 0 <= i < |log| ==> Intact(log[i].text, table)
    ensures Intact(OutputOf(log, unit), table)
  {
    if log != [] {
      var init, last := log[..|log| - 1], |log| - 1;
      InitIntact(log, init, table);
      OutputIntact(init, unit, table);
      LineIntact(log, last, unit, table);
      IntactAppend(OutputOf(init, unit), LineAt(log, last, unit), table);
    }
  }

  /** The entries of a log but the last are intact when all are. */
  lemma InitIntact(log: seq<Entry>, init: seq<Entry>, table: seq<string>)
    requires log != [] && init == log[..|log| - 1] && forall i :: 0 <= i < |log| ==> Intact(log[i].text, table)
    ensures forall i :: 0 <= i < |init| ==> Intact(init[i].text, table)
  {
    forall i | 0 <= i < |init| ensures Intact(init[i].text, table) {
      assert init[i] == log[i];
    }
  }

  /** The output line of an intact match is intact. */
  lemma LineIntact(log: seq<Entry>, i: nat, unit: string, table: seq<string>)
    requires AllSpace(unit) && i < |log| && Intact(log[i].text, table)
    ensures Intact(LineAt(log, i, unit), table)
  {
    if log[i].rule != Discard {
      var pad := Repeat(unit, EmitLevel(log, i));
      RepeatOfSpace(unit, EmitLevel(log, i));
      assert Marker !in pad by {
        forall k | 0 <= k < |pad| ensures pad[k] != Marker {
          assert IsSpace(pad[k]);
        }
      }
      IntactUnmarked(pad, table);
      IntactUnmarked("\n", table);
      IntactAppend(pad, log[i].text, table);
      IntactAppend(pad + log[i].text, "\n", table);
    }
  }

  /** Where no empty element starts, the collapse copies one character. */
  lemma CollapseSkip(s: string)
    requires s != [] && CollapseAt(s).None?
    ensures Collapse(s) == [s[0]] + Collapse(s[1..])
  {
  }

  /** Collapsing the text after an intact-making prefix keeps the whole intact. */
  lemma {:induction false} CollapseIntact(x: string, s: string, table: seq<string>)
    requires Intact(x + s, table)
    ensures Intact(x + Collapse(s), table)
    decreases |s|
  {
    if s == [] {
      AppendEmpty(x, s);
    } else if CollapseAt(s).Some? {
      var g, w, n := CollapseAt(s).value.0, CollapseAt(s).value.1, CollapseAt(s).value.2;
      DropGap(x, s, table);
      CollapseIntact(x + s[..g + 1] + s[w..n], s[n..], table);
      CollapseFoundIntact(x, s, table);
    } else {
      MoveHead(x, s);
      CollapseIntact(x + [s[0]], s[1..], table);
      CollapseSkipIntact(x, s, table);
    }
  }

  lemma AppendEmpty(x: string, s: string)
    requires s == []
    ensures x + s == x && x + Collapse(s) == x
  {
  }

  lemma MoveHead(x: string, s: string)
    requires s != []
    ensures (x + [s[0]]) + s[1..] == x + s
  {
  }

  /** `CollapseIntact`'s step over an empty element. */
  lemma CollapseFoundIntact(x: string, s: string, table: seq<string>)
    requires CollapseAt(s).Some?
    requires var (g, w, n) := CollapseAt(s).value;
             Intact((x + s[..g + 1] + s[w..n]) + Collapse(s[n..]), table)
    ensures Intact(x + Collapse(s), table)
  {
    CollapseShift(x, s);
  }

  /** `CollapseIntact`'s step over a copied character. */
  lemma CollapseSkipIntact(x: string, s: string, table: seq<string>)
    requires s != [] && CollapseAt(s).None?
    requires Intact((x + [s[0]]) + Collapse(s[1..]), table)
    ensures Intact(x + Collapse(s), table)
  {
    SkipShift(x, s);
  }

  /** The collapse of `s` after `x`, one copied character further on. */
  lemma SkipShift(x: string, s: string)
    requires s != [] && CollapseAt(s).None?
    ensures x + Collapse(s) == (x + [s[0]]) + Collapse(s[1..])
  {
    CollapseSkip(s);
  }

  /** The collapse of `s` after `x`, one empty element further on. */
  lemma CollapseShift(x: string, s: string)
    requires CollapseAt(s).Some?
    ensures var (g, w, n) := CollapseAt(s).value;
            x + Collapse(s) == (x + s[..g + 1] + s[w..n]) + Collapse(s[n..])
  {
    CollapseUnfold(s);
  }

  /** Dropping the whitespace between the two tags of an empty element keeps a text intact. */
  lemma DropGap(x: string, s: string, table: seq<string>)
    requires CollapseAt(s).Some? && Intact(x + s, table)
    ensures var (g, w, n) := CollapseAt(s).value;
            Intact((x + s[..g + 1] + s[w..n]) + s[n..], table)
  {
    var g, w, n := CollapseAt(s).value.0, CollapseAt(s).value.1, CollapseAt(s).value.2;
    DropSpaceAfter(x, s, g, w, n, table);
  }

  /** Dropping the whitespace after a `>` keeps a text intact. */
  lemma DropSpaceAfter(x: string, s: string, g: nat, w: nat, n: nat, table: seq<string>)
    requires g < w <= n <= |s| && s[g] == '>' && AllSpace(s[g + 1..w]) && Intact(x + s, table)
    ensures Intact((x + s[..g + 1] + s[w..n]) + s[n..], table)
  {
    CutAfter(x, s, g, w, table);
    IntactAppend(x + s[..g + 1], s[w..], table);
    assert (x + s[..g + 1] + s[w..n]) + s[n..] == (x + s[..g + 1]) + s[w..] by {
      assert s[w..] == s[w..n] + s[n..];
    }
  }

  /** An intact text cut after a `>` and again after the whitespace that follows it. */
  lemma CutAfter(x: string, s: string, g: nat, w: nat, table: seq<string>)
    requires g < w <= |s| && s[g] == '>' && AllSpace(s[g + 1..w]) && Intact(x + s, table)
    ensures Intact(x + s[..g + 1], table) && Intact(s[w..], table)
  {
    CutAfterGt(x, s, g, table);
    SubSlices(s, g + 1, w);
    CutAfterSpace(s[g + 1..], w - g - 1, table);
  }

  /** An intact text cut after a `>`. */
  lemma CutAfterGt(x: string, s: string, g: nat, table: seq<string>)
    requires g < |s| && s[g] == '>' && Intact(x + s, table)
    ensures Intact(x + s[..g + 1], table) && Intact(s[g + 1..], table)
  {
    JoinSlices(x, s, g);
    IntactSplit(x + s, |x| + g + 1, table);
  }

  lemma JoinSlices(x: string, s: string, g: nat)
    requires g < |s|
    ensures (x + s)[|x| + g] == s[g]
    ensures (x + s)[..|x| + g + 1] == x + s[..g + 1] && (x + s)[|x| + g + 1..] == s[g + 1..]
  {
  }

  lemma SubSlices(s: string, a: nat, b: nat)
    requires a <= b <= |s|
    ensures s[a..][..b - a] == s[a..b] && s[a..][b - a..] == s[b..]
  {
  }

  /** An intact text cut after a run of whitespace at its start. */
  lemma CutAfterSpace(back: string, m: nat, table: seq<string>)
    requires m <= |back| && AllSpace(back[..m]) && Intact(back, table)
    ensures Intact(back[m..], table)
  {
    if m > 0 {
      assert back[m - 1] == back[..m][m - 1];
    }
    IntactSplit(back, m, table);
  }

  /**
   * The scanned text and its layout restore to the same non-whitespace characters, when the
   * scanned text is intact, the scan reproduces it and the indentation unit is whitespace.
   */
  lemma LayoutRestoresContent(scanned: string, unit: string, table: seq<string>)
    requires AllSpace(unit) && Intact(scanned, table) && Joined(ScanLog(scanned)) == scanned
    ensures NonSpace(RestoreOnce(Collapse(OutputOf(ScanLog(scanned), unit)), table))
         == NonSpace(RestoreOnce(scanned, table))
  {
    var output := OutputOf(ScanLog(scanned), unit);
    LogIntact(scanned, table);
    OutputIntact(ScanLog(scanned), unit, table);
    assert [] + output == output;
    CollapseIntact([], output, table);
    assert [] + Collapse(output) == Collapse(output);
    DiscardsAreSpace(scanned);
    ContentPreserved(ScanLog(scanned), unit);
    NonSpaceRestore(Collapse(output), table);
    NonSpaceRestore(scanned, table);
  }
}
