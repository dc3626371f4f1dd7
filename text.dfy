/**
 * Character classes and the PHP string primitives the indenter is built from:
 * strpos-like searches, str_replace, str_repeat, trim, and integer-to-string.
 */
module Text {

  /** PCRE's `\s`: space, tab, line feed, vertical tab, form feed, carriage return. */
  predicate IsSpace(c: char) {
    c == ' ' || c == '\t' || c == '\n' || c == '\U{0B}' || c == '\U{0C}' || c == '\r'
  }

  /** The characters PHP's trim() strips by default: space, \t, \n, \r, NUL and \x0B. */
  predicate IsTrimChar(c: char) {
    c == ' ' || c == '\t' || c == '\n' || c == '\r' || c == '\0' || c == '\U{0B}'
  }

  /** `[a-z]` */
  predicate IsLower(c: char) { 'a' <= c <= 'z' }

  predicate IsDigit(c: char) { '0' <= c <= '9' }

  /** `\w`: ASCII letters, digits and the underscore. */
  predicate IsWordChar(c: char) {
    IsLower(c) || ('A' <= c <= 'Z') || IsDigit(c) || c == '_'
  }

  /** ASCII case folding, as PCRE's `/i` does without Unicode support. */
  function ToLower(c: char): (r: char)
    ensures IsLower(r) <==> (IsLower(c) || 'A' <= c <= 'Z')
  {
    if 'A' <= c <= 'Z' then (c as int - 'A' as int + 'a' as int) as char else c
  }

  predicate AllSpace(s: string) {
    forall i :: 0 <= i < |s| ==> IsSpace(s[i])
  }

  /** `s` has `prefix` at position `at`. */
  predicate HasAt(s: string, at: nat, prefix: string) {
    at + |prefix| <= |s| && s[at..at + |prefix|] == prefix
  }

  predicate StartsWith(s: string, prefix: string) {
    HasAt(s, 0, prefix)
  }

  /** `needle` is a factor of `s` (occurs somewhere in it). */
  ghost predicate Occurs(s: string, needle: string) {
    exists at: nat :: HasAt(s, at, needle)
  }

  /** The first position at or after `from` holding `c`, or |s| when there is none. */
  function Find(s: string, c: char, from: nat): (r: nat)
    requires from <= |s|
    ensures from <= r <= |s|
    ensures r < |s| ==> s[r] == c
    ensures forall i :: from <= i < r ==> s[i] != c
    decreases |s| - from
  {
    if from == |s| || s[from] == c then from else Find(s, c, from + 1)
  }

  /** A prefix is a shorter prefix followed by the slice between them. */
  lemma PrefixSplit(s: string, i: nat, j: nat)
    requires i <= j <= |s|
    ensures s[..j] == s[..i] + s[i..j]
  {
  }

  /** `Find` does not stop before a stretch free of `c`. */
  lemma FindPast(s: string, c: char, from: nat, n: nat)
    requires from <= n <= |s|
    requires forall i :: from <= i < n ==> s[i] != c
    ensures n <= Find(s, c, from)
  {
  }

  /** `Find` stops at the first occurrence. */
  lemma FindIs(s: string, c: char, from: nat, j: nat)
    requires from <= j < |s| && s[j] == c
    requires forall i :: from <= i < j ==> s[i] != c
    ensures Find(s, c, from) == j
  {
  }

  /** The character classes the patterns scan runs of: `[a-z]`, `\s`, `\w` and `<`. */
  datatype Class = Lowers | Spaces | WordChars | OpenAngles

  predicate InClass(k: Class, c: char) {
    match k
    case Lowers => IsLower(c)
    case Spaces => IsSpace(c)
    case WordChars => IsWordChar(c)
    case OpenAngles => c == '<'
  }

  /** The end of the run of characters of class `k` that begins at `from`. */
  function RunEnd(s: string, from: nat, k: Class): (r: nat)
    requires from <= |s|
    ensures from <= r <= |s|
    ensures r < |s| ==> !InClass(k, s[r])
    ensures forall i :: from <= i < r ==> InClass(k, s[i])
    decreases |s| - from
  {
    if from == |s| || !InClass(k, s[from]) then from else RunEnd(s, from + 1, k)
  }

  /** PHP's str_replace for one search string: every non-overlapping occurrence, leftmost first. */
  function ReplaceAll(s: string, needle: string, repl: string): string
    decreases |s|
  {
    if needle == [] || s == [] then s
    else if StartsWith(s, needle) then repl + ReplaceAll(s[|needle|..], needle, repl)
    else [s[0]] + ReplaceAll(s[1..], needle, repl)
  }

  /**
   * PHP's str_repeat: the result starts with the unit and repeats with the unit's length as
   * its period, so it is `n` copies of the unit in order (`RepeatCopies`).
   */
  function Repeat(u: string, n: nat): (r: string)
    ensures |r| == |u| * n
    ensures forall i :: 0 <= i < |r| ==> r[i] in u
    ensures n > 0 ==> |u| <= |r| && r[..|u|] == u
    ensures forall i :: 0 <= i < |r| - |u| ==> r[i + |u|] == r[i]
  {
    if n == 0 then []
    else
      var rest := Repeat(u, n - 1);
      PeriodCons(u, rest);
      u + rest
  }

  /** One more copy in front keeps the period. */
  lemma PeriodCons(u: string, rest: string)
    requires rest != [] ==> |u| <= |rest| && rest[..|u|] == u
    requires forall i :: 0 <= i < |rest| - |u| ==> rest[i + |u|] == rest[i]
    ensures forall i :: 0 <= i < |u + rest| - |u| ==> (u + rest)[i + |u|] == (u + rest)[i]
  {
    var r := u + rest;
    forall i | 0 <= i < |r| - |u| ensures r[i + |u|] == r[i] {
      if i < |u| {
        assert r[i] == u[i] == rest[..|u|][i];
      } else {
        assert rest[i - |u| + |u|] == rest[i - |u|];
      }
    }
  }

  /** Copy `k` of the unit sits at `k * |u|` in the repetition. */
  lemma {:induction false} RepeatCopies(u: string, n: nat, k: nat)
    requires k < n
    ensures (k + 1) * |u| <= |Repeat(u, n)|
    ensures Repeat(u, n)[k * |u|..(k + 1) * |u|] == u
    decreases n
  {
    var rest := Repeat(u, n - 1);
    assert Repeat(u, n) == u + rest;
    if k > 0 {
      RepeatCopies(u, n - 1, k - 1);
      CopyShift(u, rest, k);
    }
  }

  /** Copy `k - 1` of `rest` is copy `k` of `u + rest`. */
  lemma CopyShift(u: string, rest: string, k: nat)
    requires k > 0 && k * |u| <= |rest| && rest[(k - 1) * |u|..k * |u|] == u
    ensures (k + 1) * |u| <= |u + rest| && (u + rest)[k * |u|..(k + 1) * |u|] == u
  {
    var m, p := |u|, (k - 1) * |u|;
    MulStep(k, m);
    SliceAfterHead(u, rest, p);
  }

  lemma MulStep(k: nat, m: nat)
    requires k > 0
    ensures k * m == (k - 1) * m + m && (k + 1) * m == (k - 1) * m + m + m
  {
  }

  lemma SliceAfterHead(u: string, rest: string, p: nat)
    requires p + |u| <= |rest|
    ensures (u + rest)[p + |u|..p + |u| + |u|] == rest[p..p + |u|]
  {
  }

  lemma {:induction false} RepeatOfSpace(u: string, n: nat)
    requires AllSpace(u)
    ensures AllSpace(Repeat(u, n))
  {
    if n > 0 {
      RepeatOfSpace(u, n - 1);
      assert Repeat(u, n) == u + Repeat(u, n - 1);
    }
  }

  /** What is left of `s` once every whitespace character is removed. */
  function NonSpace(s: string): string {
    if s == [] then [] else (if IsSpace(s[0]) then [] else [s[0]]) + NonSpace(s[1..])
  }

  function TrimStart(s: string): (r: string)
    ensures |r| <= |s| && r == s[|s| - |r|..]
    ensures r == [] || !IsTrimChar(r[0])
    ensures forall k :: 0 <= k < |s| - |r| ==> IsTrimChar(s[k])
  {
    if s != [] && IsTrimChar(s[0]) then TrimStart(s[1..]) else s
  }

  function TrimEnd(s: string): (r: string)
    ensures |r| <= |s| && r == s[..|r|]
    ensures r == [] || !IsTrimChar(r[|r| - 1])
    ensures forall k :: |r| <= k < |s| ==> IsTrimChar(s[k])
  {
    if s != [] && IsTrimChar(s[|s| - 1]) then TrimEnd(s[..|s| - 1]) else s
  }

  /** `r` is `s` with the characters before `i` and after `i + |r|` cut away, all of them trim characters. */
  ghost predicate StrippedAt(s: string, r: string, i: nat) {
    && i + |r| <= |s| && r == s[i..i + |r|]
    && (forall k :: 0 <= k < i ==> IsTrimChar(s[k]))
    && (forall k :: i + |r| <= k < |s| ==> IsTrimChar(s[k]))
  }

  /** PHP's trim(). */
  function Trim(s: string): (r: string)
    ensures r == [] || (!IsTrimChar(r[0]) && !IsTrimChar(r[|r| - 1]))
    ensures exists i: nat :: StrippedAt(s, r, i)
  {
    var t := TrimStart(s);
    var r := TrimEnd(t);
    assert StrippedAt(s, r, |s| - |t|);
    r
  }

  function DigitChar(d: nat): (c: char)
    requires d < 10
    ensures IsDigit(c)
  {
    ('0' as int + d) as char
  }

  /** The decimal spelling of `n`, as PHP writes an integer into a string. */
  function Decimal(n: nat): (r: string)
    ensures |r| > 0
    ensures forall i :: 0 <= i < |r| ==> IsDigit(r[i])
  {
    if n < 10 then [DigitChar(n)] else Decimal(n / 10) + [DigitChar(n % 10)]
  }

  // ---------------------------------------------------------------------------
  // Lemmas

  lemma SliceJoin(s: string, a: nat, b: nat, c: nat)
    requires a <= b <= c <= |s|
    ensures s[a..b] + s[b..c] == s[a..c]
  {
  }

  lemma PrefixExtend(s: string, a: nat, b: nat)
    requires a <= b <= |s|
    ensures s[..b] == s[..a] + s[a..b]
  {
  }

  lemma Cut3(s: string, a: nat, b: nat, m: nat)
    requires a <= b <= m <= |s|
    ensures s[..m] == s[..a] + s[a..b] + s[b..m]
  {
  }

  /** Distinct numbers have distinct decimal spellings, so numbered placeholders never coincide. */
  lemma {:induction false} DecimalDistinct(a: nat, b: nat)
    requires a != b
    ensures Decimal(a) != Decimal(b)
  {
    if a >= 10 && b >= 10 {
      var da, db := Decimal(a / 10), Decimal(b / 10);
      assert Decimal(a) == da + [DigitChar(a % 10)];
      assert Decimal(b) == db + [DigitChar(b % 10)];
      if a / 10 == b / 10 {
        assert a % 10 != b % 10;
        assert Decimal(a)[|da|] != Decimal(b)[|db|];
      } else {
        DecimalDistinct(a / 10, b / 10);
        assert Decimal(a)[..|da|] == da && Decimal(b)[..|db|] == db;
      }
    } else if a < 10 && b < 10 {
      assert Decimal(a)[0] != Decimal(b)[0];
    } else if a < 10 {
      assert |Decimal(b)| == |Decimal(b / 10)| + 1 > 1;
    } else {
      assert |Decimal(a)| == |Decimal(a / 10)| + 1 > 1;
    }
  }

  /** Removing whitespace distributes over concatenation. */
  lemma {:induction false} NonSpaceAppend(a: string, b: string)
    ensures NonSpace(a + b) == NonSpace(a) + NonSpace(b)
  {
    if a != [] {
      assert (a + b)[1..] == a[1..] + b;
      NonSpaceAppend(a[1..], b);
    } else {
      assert a + b == b;
    }
  }

  lemma {:induction false} NonSpaceOfSpace(s: string)
    requires AllSpace(s)
    ensures NonSpace(s) == []
  {
    if s != [] {
      NonSpaceOfSpace(s[1..]);
    }
  }

  /** trim() removes only whitespace from a string without NUL, so the rest survives it. */
  lemma TrimKeepsContent(s: string)
    requires '\0' !in s
    ensures NonSpace(Trim(s)) == NonSpace(s)
  {
    var r := Trim(s);
    var i: nat :| StrippedAt(s, r, i);
    TrimmedEnds(s, r, i);
    NonSpaceAroundSpace(s[..i], r, s[i + |r|..]);
  }

  /** Whitespace on either side adds no content. */
  lemma NonSpaceAroundSpace(front: string, r: string, back: string)
    requires AllSpace(front) && AllSpace(back)
    ensures NonSpace(front + r + back) == NonSpace(r)
  {
    NonSpaceAppend(front + r, back);
    NonSpaceAppend(front, r);
    NonSpaceOfSpace(front);
    NonSpaceOfSpace(back);
  }

  /** What trim() cuts from a string without NUL is whitespace. */
  lemma TrimmedEnds(s: string, r: string, i: nat)
    requires '\0' !in s && StrippedAt(s, r, i)
    ensures AllSpace(s[..i]) && AllSpace(s[i + |r|..]) && s == s[..i] + r + s[i + |r|..]
  {
    var front, back := s[..i], s[i + |r|..];
    forall k | 0 <= k < |front| ensures IsSpace(front[k]) {
      assert front[k] == s[k] && s[k] in s;
    }
    forall k | 0 <= k < |back| ensures IsSpace(back[k]) {
      assert back[k] == s[i + |r| + k] && s[i + |r| + k] in s;
    }
    assert s == front + r + back;
  }

  /** str_replace leaves a string without the search string untouched. */
  lemma {:induction false} ReplaceAbsent(s: string, needle: string, repl: string)
    requires !Occurs(s, needle)
    ensures ReplaceAll(s, needle, repl) == s
    decreases |s|
  {
    if needle != [] && s != [] {
      assert !HasAt(s, 0, needle);
      if Occurs(s[1..], needle) {
        var at: nat :| HasAt(s[1..], at, needle);
        assert s[1..][at..at + |needle|] == s[at + 1..at + 1 + |needle|];
        assert HasAt(s, at + 1, needle);
      }
      ReplaceAbsent(s[1..], needle, repl);
    }
  }

  /** str_replace on a string that begins with the search string replaces that occurrence first. */
  lemma ReplaceHead(needle: string, t: string, repl: string)
    requires needle != []
    ensures ReplaceAll(needle + t, needle, repl) == repl + ReplaceAll(t, needle, repl)
  {
    assert StartsWith(needle + t, needle);
    assert (needle + t)[|needle|..] == t;
  }

  /** str_replace copies a leading character at which no occurrence starts. */
  lemma ReplaceSkip(c: char, t: string, needle: string, repl: string)
    requires needle != [] && !StartsWith([c] + t, needle)
    ensures ReplaceAll([c] + t, needle, repl) == [c] + ReplaceAll(t, needle, repl)
  {
    assert ([c] + t)[1..] == t;
  }
}
