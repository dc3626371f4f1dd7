/**
 * Why masking and restoring give the original text back, and when they do not.
 *
 * A masked text is a sequence of pieces: literal characters and numbered holes, each hole
 * written out as its placeholder.  `str_replace` with a match turns runs of literal pieces into
 * a hole (`MaskStep`); with a placeholder it turns the hole back into the text it stands for
 * (`RestoreStep`).  Both hold only when no occurrence of the searched string can begin inside,
 * or run into, the text of another piece; the predicates `Apart` and `Distinct` say so.
 *
 * Script placeholders `<script>N</script>` never overlap one another
 * (`ScriptPlaceholdersDistinct`), but that alone does not make the script pass sound: a script
 * element may itself spell a placeholder, which the masking of src/HTML/Indenter.php:63-68 then
 * rewrites (module `Scripts`).  Inline placeholders `ᐃNᐃ` do overlap: the closing marker of
 * one, a digit and the opening marker of the next spell a third.  The sequential restore of
 * src/HTML/Indenter.php:160-162 then loses text (`SequentialRestoreLoses`); a single
 * left-to-right pass (`RestoreOnce`) does not (`InlineRoundTrip`), and that is the restore the
 * indenter model uses.
 */
module Placeholders {
  import opened Wrappers
  import opened Text
  import opened Passes

  datatype Piece = Lit(c: char) | Hole(n: nat)

  /** One string is a prefix of the other: they agree as far as the shorter one reaches. */
  predicate Compat(a: string, b: string) {
    StartsWith(a, b) || StartsWith(b, a)
  }

  /**
   * No occurrence of `m` can begin inside `w`: from no position of `w` on do the two agree as far
   * as both reach (so `m` neither lies within `w` nor begins in it and runs on past its end).
   */
  predicate NoStartIn(w: string, m: string) {
    forall p :: 0 <= p < |w| ==> !Compat(w[p..], m)
  }

  /** An occurrence of `m` cannot begin inside placeholder text `ph`, nor `ph` inside `m`. */
  predicate Apart(ph: string, m: string) {
    NoStartIn(ph, m) && NoStartIn(m, ph)
  }

  /** `m` is apart from the first `count` placeholders of a family. */
  predicate ApartFromFirst(kind: Kind, count: nat, m: string) {
    forall n :: 1 <= n <= count ==> Apart(Placeholder(kind, n), m)
  }

  /** Every match is non-empty and apart from every placeholder of its family. */
  predicate Separated(kind: Kind, matches: seq<string>) {
    forall j :: 0 <= j < |matches| ==> matches[j] != [] && ApartFromFirst(kind, |matches|, matches[j])
  }

  /** No placeholder of the first `count` can begin inside another, or inside itself after its start. */
  predicate Distinct(kind: Kind, count: nat) {
    forall n, n', p :: 1 <= n <= count && 1 <= n' <= count && 0 <= p < |Placeholder(kind, n)| && (p > 0 || n != n') ==>
      !Compat(Placeholder(kind, n)[p..], Placeholder(kind, n'))
  }

  // ---------------------------------------------------------------------------
  // Pieces

  /** The text of a piece once holes `1` to `upto - 1` have been restored from `table`. */
  function PieceText(piece: Piece, kind: Kind, table: seq<string>, upto: nat): string {
    match piece
    case Lit(c) => [c]
    case Hole(n) => if 1 <= n < upto && n <= |table| then table[n - 1] else Placeholder(kind, n)
  }

  function Show(ps: seq<Piece>, kind: Kind, table: seq<string>, upto: nat): string {
    if ps == [] then [] else PieceText(ps[0], kind, table, upto) + Show(ps[1..], kind, table, upto)
  }

  /** The masked text: every hole written as its placeholder. */
  function Masked(ps: seq<Piece>, kind: Kind): string {
    Show(ps, kind, [], 1)
  }

  /** The original text: every hole written as the match it replaced. */
  function Expand(ps: seq<Piece>, table: seq<string>): string {
    if ps == [] then [] else ExpandPiece(ps[0], table) + Expand(ps[1..], table)
  }

  function ExpandPiece(piece: Piece, table: seq<string>): string {
    match piece
    case Lit(c) => [c]
    case Hole(n) => if 1 <= n <= |table| then table[n - 1] else []
  }

  function Lits(s: string): (r: seq<Piece>)
    ensures |r| == |s|
    ensures forall i :: 0 <= i < |s| ==> r[i] == Lit(s[i])
  {
    if s == [] then [] else [Lit(s[0])] + Lits(s[1..])
  }

  predicate PrefixLits(ps: seq<Piece>, u: string) {
    |u| <= |ps| && ps[..|u|] == Lits(u)
  }

  /** No run of literal pieces spells `u`. */
  predicate NeverSpelled(ps: seq<Piece>, u: string) {
    forall i :: 0 <= i <= |ps| ==> !PrefixLits(ps[i..], u)
  }

  predicate HolesWithin(ps: seq<Piece>, count: nat) {
    forall i :: 0 <= i < |ps| && ps[i].Hole? ==> 1 <= ps[i].n <= count
  }

  /** No literal piece is `c`. */
  predicate LitsAvoid(ps: seq<Piece>, c: char) {
    forall i :: 0 <= i < |ps| && ps[i].Lit? ==> ps[i].c != c
  }

  /** str_replace of `m` by hole `hole`, on pieces: runs of literals that spell `m` become the hole. */
  function Subst(ps: seq<Piece>, m: string, hole: nat): seq<Piece>
    decreases |ps|
  {
    if ps == [] then []
    else if |m| > 0 && PrefixLits(ps, m) then [Hole(hole)] + Subst(ps[|m|..], m, hole)
    else [ps[0]] + Subst(ps[1..], m, hole)
  }

  /** The masking loop on pieces. */
  function MaskPieces(ps: seq<Piece>, matches: seq<string>): seq<Piece> {
    if matches == [] then ps
    else
      var k := |matches|;
      Subst(MaskPieces(ps, matches[..k - 1]), matches[k - 1], k)
  }

  // ---------------------------------------------------------------------------
  // Strings

  lemma NotCompatNoStart(a: string, t: string, m: string)
    requires !Compat(a, m)
    ensures !StartsWith(a + t, m)
  {
    if |m| <= |a| {
      assert (a + t)[..|m|] == a[..|m|];
    } else if |m| <= |a + t| {
      assert (a + t)[..|m|][..|a|] == a;
    }
  }

  /** str_replace passes over text inside which no occurrence can begin. */
  lemma {:induction false} ReplaceThrough(w: string, t: string, m: string, r: string)
    requires m != [] && NoStartIn(w, m)
    ensures ReplaceAll(w + t, m, r) == w + ReplaceAll(t, m, r)
    decreases |w|
  {
    if w != [] {
      assert w[0..] == w;
      NotCompatNoStart(w, t, m);
      assert w + t == [w[0]] + (w[1..] + t);
      assert w == [w[0]] + w[1..];
      ReplaceSkip(w[0], w[1..] + t, m, r);
      assert NoStartIn(w[1..], m) by {
        forall p | 0 <= p < |w[1..]| ensures !Compat(w[1..][p..], m) { assert w[1..][p..] == w[p + 1..]; }
      }
      ReplaceThrough(w[1..], t, m, r);
      calc {
        ReplaceAll(w + t, m, r);
        ReplaceAll([w[0]] + (w[1..] + t), m, r);
        [w[0]] + ReplaceAll(w[1..] + t, m, r);
        [w[0]] + (w[1..] + ReplaceAll(t, m, r));
        w + ReplaceAll(t, m, r);
      }
    } else {
      assert w + t == t;
    }
  }

  lemma CompatAt(a: string, b: string, i: nat)
    requires Compat(a, b) && i < |a| && i < |b|
    ensures a[i] == b[i]
  {
    if StartsWith(a, b) {
      assert a[..|b|][i] == b[i];
    } else {
      assert b[..|a|][i] == a[i];
    }
  }

  // ---------------------------------------------------------------------------
  // Pieces: basic facts

  lemma {:induction false} ShowLits(ps: seq<Piece>, u: string, kind: Kind, table: seq<string>, upto: nat)
    requires PrefixLits(ps, u)
    ensures Show(ps, kind, table, upto) == u + Show(ps[|u|..], kind, table, upto)
    decreases |u|
  {
    if u != [] {
      assert ps[0] == ps[..|u|][0] == Lit(u[0]);
      assert ps[1..][..|u| - 1] == ps[..|u|][1..] == Lits(u)[1..] == Lits(u[1..]);
      ShowLits(ps[1..], u[1..], kind, table, upto);
      assert ps[1..][|u| - 1..] == ps[|u|..];
      assert Show(ps, kind, table, upto) == [u[0]] + Show(ps[1..], kind, table, upto);
      assert u == [u[0]] + u[1..];
    }
  }

  lemma {:induction false} ExpandLits(ps: seq<Piece>, u: string, table: seq<string>)
    requires PrefixLits(ps, u)
    ensures Expand(ps, table) == u + Expand(ps[|u|..], table)
    decreases |u|
  {
    if u != [] {
      assert ps[0] == ps[..|u|][0] == Lit(u[0]);
      assert ps[1..][..|u| - 1] == ps[..|u|][1..] == Lits(u)[1..] == Lits(u[1..]);
      ExpandLits(ps[1..], u[1..], table);
      assert ps[1..][|u| - 1..] == ps[|u|..];
    }
  }

  lemma LitsPrefix(s: string)
    ensures PrefixLits(Lits(s), s)
  {
    assert Lits(s)[..|s|] == Lits(s);
  }

  lemma ExpandOfLits(s: string, table: seq<string>)
    ensures Expand(Lits(s), table) == s
  {
    LitsPrefix(s);
    ExpandLits(Lits(s), s, table);
  }

  lemma MaskedOfLits(s: string, kind: Kind)
    ensures Masked(Lits(s), kind) == s
  {
    LitsPrefix(s);
    ShowLits(Lits(s), s, kind, [], 1);
  }

  lemma {:induction false} ExpandAppend(a: seq<Piece>, b: seq<Piece>, table: seq<string>)
    ensures Expand(a + b, table) == Expand(a, table) + Expand(b, table)
    decreases |a|
  {
    if a == [] {
      assert a + b == b;
    } else {
      var head := ExpandPiece(a[0], table);
      assert (a + b)[0] == a[0] && (a + b)[1..] == a[1..] + b;
      ExpandAppend(a[1..], b, table);
      assert Expand(a + b, table) == head + (Expand(a[1..], table) + Expand(b, table));
      assert head + (Expand(a[1..], table) + Expand(b, table)) == (head + Expand(a[1..], table)) + Expand(b, table);
    }
  }

  /** Every hole is restored once the restore has gone past the last number. */
  lemma {:induction false} ShowAll(ps: seq<Piece>, kind: Kind, table: seq<string>)
    requires HolesWithin(ps, |table|)
    ensures Show(ps, kind, table, |table| + 1) == Expand(ps, table)
    decreases |ps|
  {
    if ps != [] {
      ShowAll(ps[1..], kind, table);
    }
  }

  /** Before anything is restored the table plays no part. */
  lemma {:induction false} ShowFresh(ps: seq<Piece>, kind: Kind, table: seq<string>)
    ensures Show(ps, kind, table, 1) == Masked(ps, kind)
    decreases |ps|
  {
    if ps != [] {
      ShowFresh(ps[1..], kind, table);
    }
  }

  /** A run of literal pieces reads as a piece of the expanded text. */
  lemma LitsRunOccurs(ps: seq<Piece>, i: nat, w: string, table: seq<string>)
    requires i <= |ps| && PrefixLits(ps[i..], w)
    ensures Occurs(Expand(ps, table), w)
  {
    assert ps == ps[..i] + ps[i..];
    ExpandAppend(ps[..i], ps[i..], table);
    ExpandLits(ps[i..], w, table);
    var e := Expand(ps, table);
    var at := |Expand(ps[..i], table)|;
    assert e[at..at + |w|] == w;
    assert HasAt(e, at, w);
  }

  // ---------------------------------------------------------------------------
  // Occurrences that begin at a literal

  /** The text of every hole of `ps`, as `Show` writes it, lies out of reach of `u`. */
  predicate HolesOutOfReach(ps: seq<Piece>, u: string, kind: Kind, table: seq<string>, upto: nat) {
    forall i :: 0 <= i < |ps| && ps[i].Hole? ==> NoStartIn(u, PieceText(ps[i], kind, table, upto))
  }

  /** If no hole is in reach of `u`, the text can only begin with `u` through literal pieces. */
  lemma {:induction false} OnlyLitsSpell(ps: seq<Piece>, u: string, kind: Kind, table: seq<string>, upto: nat)
    requires HolesOutOfReach(ps, u, kind, table, upto)
    requires StartsWith(Show(ps, kind, table, upto), u)
    ensures PrefixLits(ps, u)
    decreases |u|
  {
    if u != [] {
      var w := PieceText(ps[0], kind, table, upto);
      var rest := Show(ps[1..], kind, table, upto);
      if ps[0].Hole? {
        assert u[0..] == u;
        NotCompatNoStart(w, rest, u);
      } else {
        assert Show(ps, kind, table, upto) == [ps[0].c] + rest;
        assert ps[0].c == u[0];
        assert StartsWith(rest, u[1..]) by {
          assert rest[..|u| - 1] == Show(ps, kind, table, upto)[1..|u|] == u[1..];
        }
        assert HolesOutOfReach(ps[1..], u[1..], kind, table, upto) by {
          forall i | 0 <= i < |ps[1..]| && ps[1..][i].Hole?
            ensures NoStartIn(u[1..], PieceText(ps[1..][i], kind, table, upto))
          {
            var tx := PieceText(ps[i + 1], kind, table, upto);
            assert NoStartIn(u, tx);
            forall k | 0 <= k < |u[1..]| ensures !Compat(u[1..][k..], tx) { assert u[1..][k..] == u[k + 1..]; }
          }
        }
        OnlyLitsSpell(ps[1..], u[1..], kind, table, upto);
        assert ps[..|u|] == [ps[0]] + ps[1..][..|u| - 1];
      }
    }
  }

  // ---------------------------------------------------------------------------
  // Masking

  /** str_replace of a match on a masked text is `Subst` on its pieces. */
  lemma {:induction false} MaskStep(ps: seq<Piece>, m: string, hole: nat, kind: Kind)
    requires m != []
    requires forall i :: 0 <= i < |ps| && ps[i].Hole? ==> Apart(Placeholder(kind, ps[i].n), m)
    ensures ReplaceAll(Masked(ps, kind), m, Placeholder(kind, hole)) == Masked(Subst(ps, m, hole), kind)
    decreases |ps|
  {
    var ph := Placeholder(kind, hole);
    if ps == [] {
    } else if PrefixLits(ps, m) {
      ShowLits(ps, m, kind, [], 1);
      ReplaceHead(m, Masked(ps[|m|..], kind), ph);
      MaskStep(ps[|m|..], m, hole, kind);
    } else {
      var w := PieceText(ps[0], kind, [], 1);
      var rest := Masked(ps[1..], kind);
      MaskStep(ps[1..], m, hole, kind);
      if ps[0].Hole? {
        ReplaceThrough(w, rest, m, ph);
      } else {
        if StartsWith(Masked(ps, kind), m) {
          OnlyLitsSpell(ps, m, kind, [], 1);
        }
        ReplaceSkip(ps[0].c, rest, m, ph);
      }
    }
  }

  lemma {:induction false} SubstExpand(ps: seq<Piece>, m: string, hole: nat, table: seq<string>)
    requires 1 <= hole <= |table| && table[hole - 1] == m
    ensures Expand(Subst(ps, m, hole), table) == Expand(ps, table)
    decreases |ps|
  {
    if ps != [] {
      if |m| > 0 && PrefixLits(ps, m) {
        SubstExpand(ps[|m|..], m, hole, table);
        SubstExpandHit(ps, m, hole, table);
      } else {
        SubstExpand(ps[1..], m, hole, table);
        SubstExpandMiss(ps, m, hole, table);
      }
    }
  }

  /** Where the literals spell `m`, the hole for `m` expands to the same text. */
  lemma SubstExpandHit(ps: seq<Piece>, m: string, hole: nat, table: seq<string>)
    requires 1 <= hole <= |table| && table[hole - 1] == m && |m| > 0 && PrefixLits(ps, m)
    requires Expand(Subst(ps[|m|..], m, hole), table) == Expand(ps[|m|..], table)
    ensures Expand(Subst(ps, m, hole), table) == Expand(ps, table)
  {
    var rest := Subst(ps[|m|..], m, hole);
    SubstHit(ps, m, hole);
    ExpandCons(Hole(hole), rest, table);
    ExpandLits(ps, m, table);
  }

  /** Where the literals spell `m`, `Subst` puts the hole and goes on after them. */
  lemma SubstHit(ps: seq<Piece>, m: string, hole: nat)
    requires |m| > 0 && PrefixLits(ps, m)
    ensures Subst(ps, m, hole) == [Hole(hole)] + Subst(ps[|m|..], m, hole)
  {
  }

  /** Elsewhere the first piece stays as it is. */
  lemma SubstExpandMiss(ps: seq<Piece>, m: string, hole: nat, table: seq<string>)
    requires ps != [] && !(|m| > 0 && PrefixLits(ps, m))
    requires Expand(Subst(ps[1..], m, hole), table) == Expand(ps[1..], table)
    ensures Expand(Subst(ps, m, hole), table) == Expand(ps, table)
  {
    var rest := Subst(ps[1..], m, hole);
    assert Subst(ps, m, hole) == [ps[0]] + rest;
    ExpandCons(ps[0], rest, table);
  }

  /** Expanding a piece in front of others writes the piece, then the others. */
  lemma ExpandCons(piece: Piece, rest: seq<Piece>, table: seq<string>)
    ensures Expand([piece] + rest, table) == ExpandPiece(piece, table) + Expand(rest, table)
  {
    assert ([piece] + rest)[0] == piece && ([piece] + rest)[1..] == rest;
  }

  lemma {:induction false} SubstKeeps(ps: seq<Piece>, m: string, hole: nat, count: nat, c: char)
    requires HolesWithin(ps, count) && 1 <= hole <= count
    ensures HolesWithin(Subst(ps, m, hole), count)
    ensures LitsAvoid(ps, c) ==> LitsAvoid(Subst(ps, m, hole), c)
    decreases |ps|
  {
    if ps != [] {
      if |m| > 0 && PrefixLits(ps, m) {
        SubstKeeps(ps[|m|..], m, hole, count, c);
      } else {
        SubstKeeps(ps[1..], m, hole, count, c);
      }
    }
  }

  lemma {:induction false} ExpandWider(ps: seq<Piece>, table: seq<string>, more: seq<string>)
    requires HolesWithin(ps, |table|)
    ensures Expand(ps, table + more) == Expand(ps, table)
    decreases |ps|
  {
    if ps != [] {
      ExpandWider(ps[1..], table, more);
    }
  }

  /**
   * The masking loop, on pieces: the masked text is the pieces written with placeholders, and
   * the pieces written with the matches are the original text.
   */
  lemma {:induction false} MaskInvariant(s: string, matches: seq<string>, kind: Kind, c: char)
    requires Separated(kind, matches)
    ensures var ps := MaskPieces(Lits(s), matches);
            && MaskAll(s, matches, kind) == Masked(ps, kind)
            && HolesWithin(ps, |matches|)
            && Expand(ps, matches) == s
            && (c !in s ==> LitsAvoid(ps, c))
    decreases |matches|
  {
    if matches == [] {
      MaskInvariantBase(s, kind, c);
    } else {
      SeparatedInit(kind, matches);
      MaskInvariant(s, matches[..|matches| - 1], kind, c);
      MaskInvariantNext(s, matches, kind, c);
    }
  }

  /** Before the loop: the text as literals. */
  lemma MaskInvariantBase(s: string, kind: Kind, c: char)
    ensures var ps := MaskPieces(Lits(s), []);
            && MaskAll(s, [], kind) == Masked(ps, kind)
            && HolesWithin(ps, 0)
            && Expand(ps, []) == s
            && (c !in s ==> LitsAvoid(ps, c))
  {
    MaskedOfLits(s, kind);
    ExpandOfLits(s, []);
  }

  /** The invariant for all matches from the invariant for all but the last. */
  lemma MaskInvariantNext(s: string, matches: seq<string>, kind: Kind, c: char)
    requires matches != [] && Separated(kind, matches)
    requires var ps := MaskPieces(Lits(s), matches[..|matches| - 1]);
             && MaskAll(s, matches[..|matches| - 1], kind) == Masked(ps, kind)
             && HolesWithin(ps, |matches| - 1)
             && Expand(ps, matches[..|matches| - 1]) == s
             && (c !in s ==> LitsAvoid(ps, c))
    ensures var ps := MaskPieces(Lits(s), matches);
            && MaskAll(s, matches, kind) == Masked(ps, kind)
            && HolesWithin(ps, |matches|)
            && Expand(ps, matches) == s
            && (c !in s ==> LitsAvoid(ps, c))
  {
    MaskInvariantStep(s, MaskPieces(Lits(s), matches[..|matches| - 1]), matches, kind, c);
    MaskLast(s, matches, kind);
  }

  /** Dropping the last match keeps the matches separated. */
  lemma SeparatedInit(kind: Kind, matches: seq<string>)
    requires matches != [] && Separated(kind, matches)
    ensures Separated(kind, matches[..|matches| - 1])
  {
    var init := matches[..|matches| - 1];
    forall j | 0 <= j < |init| ensures init[j] != [] && ApartFromFirst(kind, |init|, init[j]) {
      assert init[j] == matches[j];
    }
  }

  /** The last turn of the masking loop, on text and on pieces. */
  lemma MaskLast(s: string, matches: seq<string>, kind: Kind)
    requires matches != []
    ensures var k := |matches|;
            && MaskAll(s, matches, kind) == ReplaceAll(MaskAll(s, matches[..k - 1], kind), matches[k - 1], Placeholder(kind, k))
            && MaskPieces(Lits(s), matches) == Subst(MaskPieces(Lits(s), matches[..k - 1]), matches[k - 1], k)
  {
  }

  /** One turn of the masking loop, on pieces whose holes stand for all matches but the last. */
  lemma MaskInvariantStep(s: string, ps: seq<Piece>, matches: seq<string>, kind: Kind, c: char)
    requires matches != [] && Separated(kind, matches)
    requires HolesWithin(ps, |matches| - 1) && Expand(ps, matches[..|matches| - 1]) == s
    requires c !in s ==> LitsAvoid(ps, c)
    ensures var k := |matches|;
            var next := Subst(ps, matches[k - 1], k);
            && ReplaceAll(Masked(ps, kind), matches[k - 1], Placeholder(kind, k)) == Masked(next, kind)
            && HolesWithin(next, k)
            && Expand(next, matches) == s
            && (c !in s ==> LitsAvoid(next, c))
  {
    var k := |matches|;
    var init, m := matches[..k - 1], matches[k - 1];
    assert m != [] && ApartFromFirst(kind, k, m);
    forall i | 0 <= i < |ps| && ps[i].Hole? ensures Apart(Placeholder(kind, ps[i].n), m) {
      assert 1 <= ps[i].n <= k;
    }
    MaskStep(ps, m, k, kind);
    SubstKeeps(ps, m, k, k, c);
    assert init + [m] == matches;
    ExpandWider(ps, init, [m]);
    SubstExpand(ps, m, k, matches);
  }

  // ---------------------------------------------------------------------------
  // Restoring one placeholder after another (src/HTML/Indenter.php:157-162)

  /** str_replace of placeholder `upto` over a hole: it restores hole `upto` and passes over any other. */
  lemma RestoreHole(n: nat, rest: string, kind: Kind, table: seq<string>, upto: nat)
    requires 1 <= upto <= |table|
    requires n != upto ==> NoStartIn(PieceText(Hole(n), kind, table, upto), Placeholder(kind, upto))
    ensures ReplaceAll(PieceText(Hole(n), kind, table, upto) + rest, Placeholder(kind, upto), table[upto - 1])
         == PieceText(Hole(n), kind, table, upto + 1) + ReplaceAll(rest, Placeholder(kind, upto), table[upto - 1])
  {
    if n == upto {
      ReplaceHead(Placeholder(kind, upto), rest, table[upto - 1]);
    } else {
      ReplaceThrough(PieceText(Hole(n), kind, table, upto), rest, Placeholder(kind, upto), table[upto - 1]);
    }
  }

  /**
   * An occurrence that begins at a literal and cannot run into a hole spells out literals only,
   * so where the literals do not spell it, str_replace passes over the literal.
   */
  lemma LitHeadNoStart(ps: seq<Piece>, u: string, kind: Kind, table: seq<string>, upto: nat)
    requires ps != [] && ps[0].Lit? && u != [] && !PrefixLits(ps, u)
    requires HolesOutOfReach(ps[1..], u[1..], kind, table, upto)
    ensures forall r :: ReplaceAll(Show(ps, kind, table, upto), u, r) == [ps[0].c] + ReplaceAll(Show(ps[1..], kind, table, upto), u, r)
  {
    var rest := Show(ps[1..], kind, table, upto);
    assert Show(ps, kind, table, upto) == [ps[0].c] + rest;
    LitHeadNoMatch(ps, u, kind, table, upto, rest);
    forall r { ReplaceSkip(ps[0].c, rest, u, r); }
  }

  /** A text led by a literal cannot begin with `u` unless the literals spell it. */
  lemma LitHeadNoMatch(ps: seq<Piece>, u: string, kind: Kind, table: seq<string>, upto: nat, rest: string)
    requires ps != [] && ps[0].Lit? && u != [] && !PrefixLits(ps, u)
    requires HolesOutOfReach(ps[1..], u[1..], kind, table, upto)
    requires rest == Show(ps[1..], kind, table, upto)
    ensures !StartsWith([ps[0].c] + rest, u)
  {
    if StartsWith([ps[0].c] + rest, u) {
      assert StartsWith(rest, u[1..]) by {
        assert rest[..|u| - 1] == ([ps[0].c] + rest)[1..|u|] == u[1..];
      }
      OnlyLitsSpell(ps[1..], u[1..], kind, table, upto);
    }
  }

  /**
   * str_replace of placeholder `upto` by its match restores exactly the holes numbered `upto`,
   * provided no occurrence of the placeholder can begin anywhere else.
   */
  lemma {:induction false} RestoreStep(ps: seq<Piece>, kind: Kind, table: seq<string>, upto: nat)
    requires 1 <= upto <= |table|
    requires NeverSpelled(ps, Placeholder(kind, upto))
    requires HolesOutOfReach(ps, Placeholder(kind, upto)[1..], kind, table, upto)
    requires forall i :: 0 <= i < |ps| && ps[i].Hole? && ps[i].n != upto ==>
               NoStartIn(PieceText(ps[i], kind, table, upto), Placeholder(kind, upto))
    ensures ReplaceAll(Show(ps, kind, table, upto), Placeholder(kind, upto), table[upto - 1])
         == Show(ps, kind, table, upto + 1)
    decreases |ps|
  {
    if ps != [] {
      assert ps[0..] == ps;
      assert forall i :: 0 <= i <= |ps[1..]| ==> ps[1..][i..] == ps[i + 1..];
      RestoreStep(ps[1..], kind, table, upto);
      if ps[0].Lit? {
        LitHeadNoStart(ps, Placeholder(kind, upto), kind, table, upto);
      } else {
        RestoreHole(ps[0].n, Show(ps[1..], kind, table, upto), kind, table, upto);
      }
    }
  }

  /** What `RestoreStep` needs of the holes, from the hypotheses of the round trip. */
  lemma HolesApart(ps: seq<Piece>, kind: Kind, table: seq<string>, upto: nat)
    requires 1 <= upto <= |table| && HolesWithin(ps, |table|)
    requires Separated(kind, table) && Distinct(kind, |table|)
    ensures HolesOutOfReach(ps, Placeholder(kind, upto)[1..], kind, table, upto)
    ensures forall i :: 0 <= i < |ps| && ps[i].Hole? && ps[i].n != upto ==>
              NoStartIn(PieceText(ps[i], kind, table, upto), Placeholder(kind, upto))
  {
    var ph := Placeholder(kind, upto);
    forall i | 0 <= i < |ps| && ps[i].Hole?
      ensures NoStartIn(ph[1..], PieceText(ps[i], kind, table, upto))
      ensures ps[i].n != upto ==> NoStartIn(PieceText(ps[i], kind, table, upto), ph)
    {
      var n := ps[i].n;
      var w := PieceText(ps[i], kind, table, upto);
      if n < upto {
        assert ApartFromFirst(kind, |table|, table[n - 1]);
        assert Apart(ph, w);
      }
      forall q | 0 <= q < |ph[1..]| ensures !Compat(ph[1..][q..], w) {
        assert ph[1..][q..] == ph[q + 1..];
      }
    }
  }

  /** Restoring placeholders 1 to `k` one after another restores exactly the holes numbered 1 to `k`. */
  lemma {:induction false} RestoreUpTo(ps: seq<Piece>, kind: Kind, table: seq<string>, k: nat)
    requires k <= |table| && HolesWithin(ps, |table|)
    requires Separated(kind, table) && Distinct(kind, |table|)
    requires forall n :: 1 <= n <= |table| ==> NeverSpelled(ps, Placeholder(kind, n))
    ensures RestoreSequential(Masked(ps, kind), table[..k], kind) == Show(ps, kind, table, k + 1)
  {
    if k == 0 {
      ShowFresh(ps, kind, table);
    } else {
      RestoreUpTo(ps, kind, table, k - 1);
      assert table[..k][..k - 1] == table[..k - 1];
      HolesApart(ps, kind, table, k);
      RestoreStep(ps, kind, table, k);
    }
  }

  /**
   * Masking then restoring one placeholder after another gives the text back, provided every
   * match is apart from every placeholder, no placeholder can begin inside another, and the text
   * holds no placeholder of its own.
   */
  lemma SequentialRoundTrip(x: string, matches: seq<string>, kind: Kind)
    requires Separated(kind, matches) && Distinct(kind, |matches|)
    requires forall n :: 1 <= n <= |matches| ==> !Occurs(x, Placeholder(kind, n))
    ensures RestoreSequential(MaskAll(x, matches, kind), matches, kind) == x
  {
    MaskInvariant(x, matches, kind, Marker);
    var ps := MaskPieces(Lits(x), matches);
    forall n | 1 <= n <= |matches| ensures NeverSpelled(ps, Placeholder(kind, n)) {
      forall i | 0 <= i <= |ps| ensures !PrefixLits(ps[i..], Placeholder(kind, n)) {
        if PrefixLits(ps[i..], Placeholder(kind, n)) {
          LitsRunOccurs(ps, i, Placeholder(kind, n), matches);
        }
      }
    }
    RestoreUpTo(ps, kind, matches, |matches|);
    assert matches[..|matches|] == matches;
    ShowAll(ps, kind, matches);
  }

  // ---------------------------------------------------------------------------
  // Script placeholders

  /** The only `<` of a script placeholder are those that open its two tags. */
  lemma ScriptPlaceholderShape(n: nat)
    ensures var ph := Placeholder(Script, n);
            var d := |Decimal(n)|;
            && |ph| == d + 17 && ph[0] == '<' && ph[1] == 's' && ph[8 + d] == '<' && ph[9 + d] == '/'
            && forall i :: 0 <= i < |ph| && i != 0 && i != 8 + d ==> ph[i] != '<'
  {
    var ph := Placeholder(Script, n);
    var d := Decimal(n);
    forall i | 0 <= i < |ph| && i != 0 && i != 8 + |d| ensures ph[i] != '<' {
      if 8 <= i < 8 + |d| {
        assert ph[i] == d[i - 8];
      }
    }
  }

  /** Two strings that differ where both reach do not agree as far as both reach. */
  lemma NotCompatAt(a: string, b: string, i: nat)
    requires i < |a| && i < |b| && a[i] != b[i]
    ensures !Compat(a, b)
  {
    if |b| <= |a| {
      assert a[..|b|][i] == a[i];
    } else {
      assert b[..|a|][i] == b[i];
    }
  }

  /** No script placeholder can begin inside another. */
  lemma ScriptPlaceholdersDistinct(count: nat)
    ensures Distinct(Script, count)
  {
    forall n, n', p | 1 <= n <= count && 1 <= n' <= count && 0 <= p < |Placeholder(Script, n)| && (p > 0 || n != n')
      ensures !Compat(Placeholder(Script, n)[p..], Placeholder(Script, n'))
    {
      ScriptPlaceholderApart(n, n', p);
    }
  }

  /** Where placeholder `n` from position `p` and placeholder `n'` first part ways. */
  lemma ScriptPlaceholderApart(n: nat, n': nat, p: nat)
    requires p < |Placeholder(Script, n)| && (p > 0 || n != n')
    ensures !Compat(Placeholder(Script, n)[p..], Placeholder(Script, n'))
  {
    var a, b := Placeholder(Script, n), Placeholder(Script, n');
    var da, db := |Decimal(n)|, |Decimal(n')|;
    ScriptPlaceholderShape(n);
    ScriptPlaceholderShape(n');
    if p > 0 {
      if p == 8 + da {
        NotCompatAt(a[p..], b, 1);
      } else {
        NotCompatAt(a[p..], b, 0);
      }
    } else if da < db {
      assert b[8 + da] != '<';
      NotCompatAt(a, b, 8 + da);
    } else if db < da {
      assert a[8 + db] != '<';
      NotCompatAt(a, b, 8 + db);
    } else {
      DecimalDistinct(n, n');
      var j :| 0 <= j < da && Decimal(n)[j] != Decimal(n')[j];
      assert a[8 + j] == Decimal(n)[j] && b[8 + j] == Decimal(n')[j];
      NotCompatAt(a, b, 8 + j);
    }
  }

  // ---------------------------------------------------------------------------
  // Inline placeholders

  /** The closing marker of placeholder 2 begins placeholder 1. */
  lemma InlinePlaceholdersOverlap()
    ensures !Distinct(Inline, 2)
  {
    var a, b := Placeholder(Inline, 2), Placeholder(Inline, 1);
    assert a == [Marker, '2', Marker] && b == [Marker, '1', Marker];
    assert Compat(a[2..], b) by { assert b[..|a[2..]|] == a[2..]; }
  }

  /** An inline run, which starts with `<` and holds no marker, is apart from every inline placeholder. */
  lemma InlineApart(m: string, n: nat)
    requires m != [] && m[0] == '<' && Marker !in m
    ensures Apart(Placeholder(Inline, n), m)
  {
    var ph := Placeholder(Inline, n);
    var d := Decimal(n);
    forall p | 0 <= p < |ph| ensures !Compat(ph[p..], m) {
      if Compat(ph[p..], m) {
        CompatAt(ph[p..], m, 0);
      }
    }
    forall k | 0 <= k < |m| ensures !Compat(m[k..], ph) {
      if Compat(m[k..], ph) {
        CompatAt(m[k..], ph, 0);
      }
    }
  }

  lemma OccursAvoids(s: string, w: string, c: char)
    requires Occurs(s, w) && c !in s
    ensures c !in w
  {
    var at: nat :| HasAt(s, at, w);
    forall i | 0 <= i < |w| ensures w[i] != c { assert w[i] == s[at + i]; }
  }

  /** In a text without markers, the inline runs are apart from the inline placeholders. */
  lemma InlineRunsSeparated(s: string, names: seq<string>)
    requires Marker !in s
    ensures Separated(Inline, FindInlineRuns(s, names))
  {
    var ms := FindInlineRuns(s, names);
    forall j | 0 <= j < |ms| ensures ms[j] != [] && ApartFromFirst(Inline, |ms|, ms[j]) {
      OccursAvoids(s, ms[j], Marker);
      forall n | 1 <= n <= |ms| ensures Apart(Placeholder(Inline, n), ms[j]) {
        InlineApart(ms[j], n);
      }
    }
  }

  // ---------------------------------------------------------------------------
  // The corrected inline restore: one pass from left to right

  function DigitValue(c: char): nat {
    if IsDigit(c) then c as int - '0' as int else 0
  }

  /** The number a string of digits spells. */
  function ParseDigits(d: string): nat {
    if d == [] then 0 else ParseDigits(d[..|d| - 1]) * 10 + DigitValue(d[|d| - 1])
  }

  /** The number `d` is the decimal spelling of, if any (no sign, no leading zero). */
  function DecimalValue(d: string): (r: Option<nat>)
    ensures r.Some? ==> Decimal(r.value) == d
  {
    if Decimal(ParseDigits(d)) == d then Some(ParseDigits(d)) else None
  }

  lemma {:induction false} ParseDecimal(n: nat)
    ensures ParseDigits(Decimal(n)) == n
  {
    var d := Decimal(n);
    if n >= 10 {
      ParseDecimal(n / 10);
      assert d[..|d| - 1] == Decimal(n / 10);
    }
  }

  lemma DecimalValueOf(n: nat)
    ensures DecimalValue(Decimal(n)) == Some(n)
  {
    ParseDecimal(n);
  }

  /**
   * Restores every inline placeholder in one pass from left to right: at a marker, the digits up
   * to the next marker name an entry of the table; the entry replaces the placeholder and the
   * scan goes on after it, so restored text is never searched again.
   */
  function RestoreOnce(s: string, table: seq<string>): string
    decreases |s|
  {
    if s == [] then []
    else
      var hole := HoleAt(s, table);
      if hole.Some? then table[hole.value.0 - 1] + RestoreOnce(s[hole.value.1..], table)
      else [s[0]] + RestoreOnce(s[1..], table)
  }

  /**
   * The placeholder at the head of `s`, if there is one whose number is in the table: that
   * number and the placeholder's length.
   */
  function HoleAt(s: string, table: seq<string>): (r: Option<(nat, nat)>)
    ensures r.Some? ==> 1 <= r.value.0 <= |table| && 0 < r.value.1 <= |s| && s[0] == Marker
  {
    if s == [] || s[0] != Marker then None
    else
      var j := Find(s, Marker, 1);
      if j == |s| then None
      else
        var v := DecimalValue(s[1..j]);
        if v.Some? && 1 <= v.value <= |table| then Some((v.value, j + 1)) else None
  }

  /** A placeholder whose number is in the table is found at the head of the text. */
  lemma HoleAtPlaceholder(n: nat, rest: string, table: seq<string>)
    requires 1 <= n <= |table|
    ensures var hole := HoleAt(Placeholder(Inline, n) + rest, table);
            hole.Some? && hole.value.0 == n && hole.value.1 == |Placeholder(Inline, n)|
  {
    var s := Placeholder(Inline, n) + rest;
    var d := Decimal(n);
    assert s == [Marker] + d + [Marker] + rest;
    FindIs(s, Marker, 1, 1 + |d|);
    assert s[1..1 + |d|] == d;
    DecimalValueOf(n);
  }

  /** At a placeholder whose number is in the table, the single pass writes that entry. */
  lemma RestoreOnceHole(n: nat, rest: string, table: seq<string>)
    requires 1 <= n <= |table|
    ensures RestoreOnce(Placeholder(Inline, n) + rest, table) == table[n - 1] + RestoreOnce(rest, table)
  {
    var s := Placeholder(Inline, n) + rest;
    HoleAtPlaceholder(n, rest, table);
    RestoreOnceAt(s, table);
    assert s[|Placeholder(Inline, n)|..] == rest;
  }

  /** Where a placeholder heads the text, the single pass writes its entry and goes on after it. */
  lemma RestoreOnceAt(s: string, table: seq<string>)
    requires HoleAt(s, table).Some?
    ensures var hole := HoleAt(s, table).value;
            RestoreOnce(s, table) == table[hole.0 - 1] + RestoreOnce(s[hole.1..], table)
  {
  }

  /** Text without markers holds no placeholder, and the single pass leaves it as it is. */
  lemma {:induction false} RestoreOnceUnmarked(s: string, table: seq<string>)
    requires Marker !in s
    ensures RestoreOnce(s, table) == s
    decreases |s|
  {
    if s != [] {
      assert HoleAt(s, table).None?;
      assert Marker !in s[1..] by {
        forall k | 0 <= k < |s| - 1 ensures s[1..][k] != Marker { assert s[1..][k] == s[k + 1]; }
      }
      RestoreOnceUnmarked(s[1..], table);
      assert s == [s[0]] + s[1..];
    }
  }

  /** The single-pass restore writes every hole as its match, whatever the holes' numbers. */
  lemma {:induction false} RestoreOnceExpands(ps: seq<Piece>, table: seq<string>)
    requires LitsAvoid(ps, Marker) && HolesWithin(ps, |table|)
    ensures RestoreOnce(Masked(ps, Inline), table) == Expand(ps, table)
    decreases |ps|
  {
    if ps != [] {
      var rest := Masked(ps[1..], Inline);
      RestoreOnceExpands(ps[1..], table);
      if ps[0].Hole? {
        RestoreOnceHole(ps[0].n, rest, table);
      } else {
        assert ([ps[0].c] + rest)[1..] == rest;
      }
    }
  }

  /**
   * Masking inline runs and restoring them in one pass gives the text back, for any matches that
   * are apart from the placeholders, in a text without markers.
   */
  lemma InlineRoundTrip(x: string, matches: seq<string>)
    requires Separated(Inline, matches) && Marker !in x
    ensures RestoreOnce(MaskAll(x, matches, Inline), matches) == x
  {
    MaskInvariant(x, matches, Inline, Marker);
    RestoreOnceExpands(MaskPieces(Lits(x), matches), matches);
  }

  // ---------------------------------------------------------------------------
  // A text the sequential inline restore damages

  const RunX: string := "<b>x</b>"
  const RunY: string := "<b>y</b>"
  const RunZ: string := "<b>z</b>"

  /** Three inline runs, the second and third separated by a digit. */
  const LossyText: string := RunX + RunY + "1" + RunZ
  const LossyRuns: seq<string> := [RunX, RunY, RunZ]

  /** `LossyText` masked: the digit between placeholders 2 and 3 sits between two markers. */
  const LossyMasked: string := Placeholder(Inline, 1) + Placeholder(Inline, 2) + "1" + Placeholder(Inline, 3)

  /** What restoring placeholder 1 makes of `LossyMasked`: the run `ᐃ1ᐃ` straddling 2 and 3 is hit too. */
  const LossyRestored: string := RunX + [Marker, '2'] + RunX + ['3', Marker]

  /** A search string holding a character the text lacks does not occur in it. */
  lemma AbsentChar(s: string, needle: string, c: char)
    requires c in needle && c !in s
    ensures !Occurs(s, needle)
  {
  }

  /** A search string cannot begin inside text that lacks its first character. */
  lemma NoStartByFirst(w: string, m: string)
    requires m != [] && m[0] !in w
    ensures NoStartIn(w, m)
  {
    forall p | 0 <= p < |w| ensures !Compat(w[p..], m) {
      if Compat(w[p..], m) {
        CompatAt(w[p..], m, 0);
      }
    }
  }

  lemma InlineDigits()
    ensures Placeholder(Inline, 1) == [Marker, '1', Marker]
    ensures Placeholder(Inline, 2) == [Marker, '2', Marker]
    ensures Placeholder(Inline, 3) == [Marker, '3', Marker]
  {
  }

  /** A search string found at the start and nowhere after is replaced there alone. */
  lemma ReplaceOnlyHead(m: string, tail: string, r: string)
    requires m != [] && !Occurs(tail, m)
    ensures ReplaceAll(m + tail, m, r) == r + tail
  {
    ReplaceHead(m, tail, r);
    ReplaceAbsent(tail, m, r);
  }

  /** Masking with a single match replaces it by placeholder 1. */
  lemma MaskSingle(s: string, m: string, kind: Kind)
    ensures MaskAll(s, [m], kind) == ReplaceAll(s, m, Placeholder(kind, 1))
  {
    assert [m][..0] == [];
  }

  lemma LossyMaskOne()
    ensures MaskAll(LossyText, [RunX], Inline) == Placeholder(Inline, 1) + (RunY + ("1" + RunZ))
  {
    var tail := RunY + ("1" + RunZ);
    LossyXFacts();
    MaskSingle(LossyText, RunX, Inline);
    ReplaceOnlyHead(RunX, tail, Placeholder(Inline, 1));
  }

  /** `LossyText` starts with `RunX`, which does not occur again. */
  lemma LossyXFacts()
    ensures LossyText == RunX + (RunY + ("1" + RunZ)) && RunX != []
    ensures !Occurs(RunY + ("1" + RunZ), RunX)
  {
    AbsentChar(RunY + ("1" + RunZ), RunX, 'x');
  }

  lemma LossyMaskTwo()
    ensures MaskAll(LossyText, [RunX, RunY], Inline) == (Placeholder(Inline, 1) + Placeholder(Inline, 2) + "1") + RunZ
  {
    LossyMaskTwoStep();
    LossyReplaceY();
  }

  /** The second masking step replaces `RunY` in what the first step left. */
  lemma LossyMaskTwoStep()
    ensures MaskAll(LossyText, [RunX, RunY], Inline)
         == ReplaceAll(Placeholder(Inline, 1) + (RunY + ("1" + RunZ)), RunY, Placeholder(Inline, 2))
  {
    LossyMaskOne();
    assert [RunX, RunY][..1] == [RunX];
  }

  /** A search string that cannot start inside `w`, found right after it and nowhere later, is replaced once. */
  lemma ReplaceAfter(w: string, m: string, rest: string, r: string)
    requires m != [] && NoStartIn(w, m) && !Occurs(rest, m)
    ensures ReplaceAll(w + (m + rest), m, r) == w + (r + rest)
  {
    ReplaceThrough(w, m + rest, m, r);
    ReplaceHead(m, rest, r);
    ReplaceAbsent(rest, m, r);
  }

  /** `RunY` occurs once in the text after the first step: right after placeholder 1. */
  lemma LossyReplaceY()
    ensures ReplaceAll(Placeholder(Inline, 1) + (RunY + ("1" + RunZ)), RunY, Placeholder(Inline, 2))
         == (Placeholder(Inline, 1) + Placeholder(Inline, 2) + "1") + RunZ
  {
    var p1, p2 := Placeholder(Inline, 1), Placeholder(Inline, 2);
    var rest := "1" + RunZ;
    LossyYFacts();
    ReplaceAfter(p1, RunY, rest, p2);
    assert p1 + (p2 + rest) == (p1 + p2 + "1") + RunZ;
  }

  /** The side conditions for replacing `RunY` after placeholder 1. */
  lemma LossyYFacts()
    ensures RunY != [] && NoStartIn(Placeholder(Inline, 1), RunY) && !Occurs("1" + RunZ, RunY)
  {
    InlineDigits();
    NoStartByFirst(Placeholder(Inline, 1), RunY);
    AbsentChar("1" + RunZ, RunY, 'y');
  }

  lemma LossyMasking()
    ensures MaskAll(LossyText, LossyRuns, Inline) == LossyMasked
  {
    var w := Placeholder(Inline, 1) + Placeholder(Inline, 2) + "1";
    LossyMaskTwo();
    InlineDigits();
    assert LossyRuns[..2] == [RunX, RunY];
    NoStartByFirst(w, RunZ);
    ReplaceThrough(w, RunZ, RunZ, Placeholder(Inline, 3));
    assert RunZ == RunZ + [];
    ReplaceHead(RunZ, [], Placeholder(Inline, 3));
  }

  /** Restoring placeholder 1 also replaces the `ᐃ1ᐃ` formed by the digit between placeholders 2 and 3. */
  lemma LossyRestoreFirst()
    ensures RestoreSequential(LossyMasked, [RunX], Inline) == LossyRestored
  {
    var p1 := Placeholder(Inline, 1);
    InlineDigits();
    var tail := ['3', Marker];
    assert LossyMasked == p1 + ([Marker] + (['2'] + (p1 + tail)));
    assert [RunX][..0] == [];
    ReplaceHead(p1, [Marker] + (['2'] + (p1 + tail)), RunX);
    assert ([Marker] + (['2'] + (p1 + tail)))[1] == '2';
    ReplaceSkip(Marker, ['2'] + (p1 + tail), p1, RunX);
    ReplaceSkip('2', p1 + tail, p1, RunX);
    ReplaceHead(p1, tail, RunX);
    AbsentChar(tail, p1, '1');
    ReplaceAbsent(tail, p1, RunX);
  }

  /** Restoring placeholder 2 or 3 leaves `LossyRestored` alone: neither occurs in it. */
  lemma LossyRestoreRest(n: nat, repl: string)
    requires n == 2 || n == 3
    ensures ReplaceAll(LossyRestored, Placeholder(Inline, n), repl) == LossyRestored
  {
    var ph := Placeholder(Inline, n);
    InlineDigits();
    var mid := ['2'] + RunX + ['3'];
    var tail := mid + [Marker];
    assert LossyRestored == RunX + ([Marker] + tail);
    NoStartByFirst(RunX, ph);
    ReplaceThrough(RunX, [Marker] + tail, ph, repl);
    assert ([Marker] + tail)[2] == '<';
    ReplaceSkip(Marker, tail, ph, repl);
    NoStartByFirst(mid, ph);
    ReplaceThrough(mid, [Marker], ph, repl);
    AbsentChar([Marker], ph, ph[1]);
    ReplaceAbsent([Marker], ph, repl);
  }

  lemma LossyRestoreAll()
    ensures RestoreSequential(LossyMasked, LossyRuns, Inline) == LossyRestored
  {
    LossyRestoreFirst();
    assert LossyRuns[..2] == [RunX, RunY] && [RunX, RunY][..1] == [RunX];
    LossyRestoreRest(2, RunY);
    LossyRestoreRest(3, RunZ);
  }

  lemma LossyRunsSeparated()
    ensures Separated(Inline, LossyRuns)
  {
    forall j | 0 <= j < |LossyRuns| ensures LossyRuns[j] != [] && ApartFromFirst(Inline, 3, LossyRuns[j]) {
      forall n | 1 <= n <= 3 ensures Apart(Placeholder(Inline, n), LossyRuns[j]) {
        InlineApart(LossyRuns[j], n);
      }
    }
  }

  /**
   * The sequential restore of src/HTML/Indenter.php:160-162 loses the second run of
   * `LossyText`, while the single-pass restore gives the text back.
   */
  lemma SequentialRestoreLoses()
    ensures MaskAll(LossyText, LossyRuns, Inline) == LossyMasked
    ensures RestoreSequential(LossyMasked, LossyRuns, Inline) == LossyRestored
    ensures 'y' in LossyText && 'y' !in LossyRestored
    ensures RestoreOnce(LossyMasked, LossyRuns) == LossyText
  {
    LossyMasking();
    LossyRestoreAll();
    assert LossyText[11] == 'y';
    LossyRunsSeparated();
    InlineRoundTrip(LossyText, LossyRuns);
  }
}
