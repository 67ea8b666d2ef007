/**
 * The four rewrites applied to the `Sponsored by` value before it is
 * written out, each with the semantics of Python's `re.sub` (leftmost,
 * non-overlapping matches found on the original string, ordered
 * alternation) or `str.rstrip(" ")`.
 */
module SponsorCleanup {
  import opened Strings

  predicate IsAsciiLetter(c: char) {
    'A' <= c <= 'Z' || 'a' <= c <= 'z'
  }

  /** `\w`, restricted to ASCII. */
  predicate IsWordChar(c: char) {
    IsAsciiLetter(c) || '0' <= c <= '9' || c == '_'
  }

  /** `\b` at position `i` of `s`: word character on exactly one side. */
  predicate WordBoundary(s: string, i: nat)
    requires i <= |s|
  {
    (i > 0 && IsWordChar(s[i - 1])) != (i < |s| && IsWordChar(s[i]))
  }

  /** `w` occurs in `s` starting at `i`. */
  predicate LiteralAt(s: string, i: nat, w: string) {
    i + |w| <= |s| && s[i..i + |w|] == w
  }

  /** The two patterns after whose matches a blank is inserted. */
  datatype Pattern =
    | GluedTitle  // \b(Delegate|Delegates)(?=[A-Za-z])  replaced by  \1 + " "
    | TitleComma  // (Delegate|Delegates),               replaced by  \1 + ", "

  /**
   * Length of the match of `p` at position `i` (0: no match). Alternatives
   * are tried in order, the lookahead is not part of the match.
   */
  function MatchLength(p: Pattern, s: string, i: nat): (m: nat)
    requires i <= |s|
    ensures m == 0 || (0 < m && i + m <= |s| && s[i] == 'D')
    ensures p.GluedTitle? && m > 0 ==> i + m < |s| && IsAsciiLetter(s[i + m])
    ensures p.TitleComma? && m > 0 ==> s[i + m - 1] == ','
  {
    match p
    case GluedTitle =>
      if !WordBoundary(s, i) then 0
      else if LiteralAt(s, i, "Delegate") && i + 8 < |s| && IsAsciiLetter(s[i + 8]) then
        assert s[i..i + 8][0] == s[i]; 8
      else if LiteralAt(s, i, "Delegates") && i + 9 < |s| && IsAsciiLetter(s[i + 9]) then
        assert s[i..i + 9][0] == s[i]; 9
      else 0
    case TitleComma =>
      if LiteralAt(s, i, "Delegate,") then
        assert s[i..i + 9][0] == s[i] && s[i..i + 9][8] == s[i + 8]; 9
      else if LiteralAt(s, i, "Delegates,") then
        assert s[i..i + 10][0] == s[i] && s[i..i + 10][9] == s[i + 9]; 10
      else 0
  }

  /**
   * `re.sub` of `p` over `s[i..]`: every match is copied followed by one
   * blank (both replacements reproduce the match and add a blank), every
   * other character is copied, and scanning resumes after the match.
   */
  function InsertBlankFrom(p: Pattern, s: string, i: nat): (r: string)
    requires i <= |s|
    ensures |r| >= |s| - i
    decreases |s| - i
  {
    if i == |s| then ""
    else
      var m := MatchLength(p, s, i);
      if m > 0 then s[i..i + m] + " " + InsertBlankFrom(p, s, i + m)
      else [s[i]] + InsertBlankFrom(p, s, i + 1)
  }

  function InsertBlank(p: Pattern, s: string): string {
    InsertBlankFrom(p, s, 0)
  }

  /** The first position at or after `i` that does not hold a blank. */
  function SkipBlanks(s: string, i: nat): (j: nat)
    requires i <= |s|
    ensures i <= j <= |s|
    ensures j == |s| || s[j] != ' '
    ensures forall k :: i <= k < j ==> s[k] == ' '
    decreases |s| - i
  {
    if i < |s| && s[i] == ' ' then SkipBlanks(s, i + 1) else i
  }

  /** `re.sub(r'  +', ' ', s[i..])`: every run of two or more blanks becomes one. */
  function CollapseFrom(s: string, i: nat): (r: string)
    requires i <= |s|
    ensures |r| <= |s| - i
    decreases |s| - i
  {
    if i == |s| then ""
    else if i + 1 < |s| && s[i] == ' ' && s[i + 1] == ' ' then " " + CollapseFrom(s, SkipBlanks(s, i))
    else [s[i]] + CollapseFrom(s, i + 1)
  }

  function Collapse(s: string): string {
    CollapseFrom(s, 0)
  }

  /** `s.rstrip(" ")`. */
  function RStrip(s: string): (r: string)
    ensures |r| <= |s| && r == s[..|r|]
    ensures forall k :: |r| <= k < |s| ==> s[k] == ' '
    ensures r == [] || r[|r| - 1] != ' '
  {
    if s != [] && s[|s| - 1] == ' ' then RStrip(s[..|s| - 1]) else s
  }

  /**
   * The whole clean-up of extract_bill_info.py, lines 60 to 65, in order:
   * its result has no two adjacent blanks and no trailing blank.
   */
  function Cleanup(s: string): (r: string)
    ensures NoDoubleBlank(r)
    ensures r == [] || r[|r| - 1] != ' '
  {
    var b := InsertBlank(TitleComma, InsertBlank(GluedTitle, s));
    CollapseNoDoubleBlank(b, 0);
    RStripNoDoubleBlank(Collapse(b));
    RStrip(Collapse(b))
  }

  // ---------------------------------------------------------------------
  // Each step only adds or removes blanks.

  lemma {:induction false} NonBlankOfBlanks(s: string)
    requires forall k :: 0 <= k < |s| ==> s[k] == ' '
    ensures NonBlank(s) == ""
  {
    if s != [] {
      NonBlankOfBlanks(s[1..]);
    }
  }

  lemma {:induction false} InsertBlankKeepsNonBlank(p: Pattern, s: string, i: nat)
    requires i <= |s|
    ensures NonBlank(InsertBlankFrom(p, s, i)) == NonBlank(s[i..])
    decreases |s| - i
  {
    if i < |s| {
      var m := MatchLength(p, s, i);
      if m > 0 {
        InsertBlankKeepsNonBlank(p, s, i + m);
        MatchKeepsNonBlank(p, s, i, m);
      } else {
        InsertBlankKeepsNonBlank(p, s, i + 1);
        CopyKeepsNonBlank(p, s, i);
      }
    }
  }

  /** Inserting a blank after `a` keeps what is not blank. */
  lemma BlankAfter(a: string, rest: string, tail: string)
    requires NonBlank(rest) == NonBlank(tail)
    ensures NonBlank(a + " " + rest) == NonBlank(a + tail)
  {
    NonBlankAppend(a + " ", rest);
    NonBlankAppend(a, " ");
    NonBlankAppend(a, tail);
  }

  lemma MatchKeepsNonBlank(p: Pattern, s: string, i: nat, m: nat)
    requires i < |s| && m == MatchLength(p, s, i) && m > 0
    requires NonBlank(InsertBlankFrom(p, s, i + m)) == NonBlank(s[i + m..])
    ensures NonBlank(InsertBlankFrom(p, s, i)) == NonBlank(s[i..])
  {
    BlankAfter(s[i..i + m], InsertBlankFrom(p, s, i + m), s[i + m..]);
    assert s[i..] == s[i..i + m] + s[i + m..];
  }

  lemma CopyKeepsNonBlank(p: Pattern, s: string, i: nat)
    requires i < |s| && MatchLength(p, s, i) == 0
    requires NonBlank(InsertBlankFrom(p, s, i + 1)) == NonBlank(s[i + 1..])
    ensures NonBlank(InsertBlankFrom(p, s, i)) == NonBlank(s[i..])
  {
    NonBlankAppend([s[i]], InsertBlankFrom(p, s, i + 1));
    assert s[i..] == [s[i]] + s[i + 1..];
    NonBlankAppend([s[i]], s[i + 1..]);
  }

  lemma SkipBlanksKeepsNonBlank(s: string, i: nat)
    requires i <= |s|
    ensures NonBlank(s[i..]) == NonBlank(s[SkipBlanks(s, i)..])
  {
    var j := SkipBlanks(s, i);
    assert s[i..] == s[i..j] + s[j..];
    NonBlankAppend(s[i..j], s[j..]);
    NonBlankOfBlanks(s[i..j]);
  }

  lemma {:induction false} CollapseKeepsNonBlank(s: string, i: nat)
    requires i <= |s|
    ensures NonBlank(CollapseFrom(s, i)) == NonBlank(s[i..])
    decreases |s| - i
  {
    if i < |s| {
      if i + 1 < |s| && s[i] == ' ' && s[i + 1] == ' ' {
        var j := SkipBlanks(s, i);
        CollapseKeepsNonBlank(s, j);
        NonBlankAppend(" ", CollapseFrom(s, j));
        SkipBlanksKeepsNonBlank(s, i);
      } else {
        CollapseKeepsNonBlank(s, i + 1);
        NonBlankAppend([s[i]], CollapseFrom(s, i + 1));
        assert s[i..] == [s[i]] + s[i + 1..];
        NonBlankAppend([s[i]], s[i + 1..]);
      }
    }
  }

  lemma RStripKeepsNonBlank(s: string)
    ensures NonBlank(RStrip(s)) == NonBlank(s)
  {
    var r := RStrip(s);
    assert s == r + s[|r|..];
    NonBlankAppend(r, s[|r|..]);
    NonBlankOfBlanks(s[|r|..]);
  }

  // ---------------------------------------------------------------------
  // Each step keeps the first character.

  lemma InsertBlankFirst(p: Pattern, s: string, i: nat)
    requires i < |s|
    ensures InsertBlankFrom(p, s, i) != [] && InsertBlankFrom(p, s, i)[0] == s[i]
  {
  }

  lemma CollapseFirst(s: string, i: nat)
    requires i < |s|
    ensures CollapseFrom(s, i) != [] && CollapseFrom(s, i)[0] == s[i]
  {
  }

  // ---------------------------------------------------------------------
  // After the collapse no two blanks are adjacent.

  lemma {:induction false} CollapseNoDoubleBlank(s: string, i: nat)
    requires i <= |s|
    ensures NoDoubleBlank(CollapseFrom(s, i))
    decreases |s| - i
  {
    if i < |s| {
      if i + 1 < |s| && s[i] == ' ' && s[i + 1] == ' ' {
        var j := SkipBlanks(s, i);
        CollapseNoDoubleBlank(s, j);
        if j < |s| {
          CollapseFirst(s, j);
        }
      } else {
        CollapseNoDoubleBlank(s, i + 1);
        if i + 1 < |s| {
          CollapseFirst(s, i + 1);
        }
      }
    }
  }

  /** Stripping trailing blanks makes no blanks adjacent. */
  lemma RStripNoDoubleBlank(c: string)
    requires NoDoubleBlank(c)
    ensures NoDoubleBlank(RStrip(c))
  {
    var r := RStrip(c);
    forall j | 0 <= j < |r| - 1 ensures !(r[j] == ' ' && r[j + 1] == ' ') {
      assert r[j] == c[j] && r[j + 1] == c[j + 1];
    }
  }

  /**
   * What the sponsor clean-up guarantees: no two adjacent blanks, no
   * trailing blank, every character other than a blank kept in order, and
   * the first character (a leading blank included) kept whenever the value
   * is not all blanks.
   */
  lemma CleanupSpec(s: string)
    ensures NoDoubleBlank(Cleanup(s))
    ensures Cleanup(s) == [] || Cleanup(s)[|Cleanup(s)| - 1] != ' '
    ensures NonBlank(Cleanup(s)) == NonBlank(s)
    ensures NonBlank(s) != [] ==> Cleanup(s) != [] && Cleanup(s)[0] == s[0]
    ensures NonBlank(s) == [] <==> Cleanup(s) == []
  {
    var a := InsertBlank(GluedTitle, s);
    var b := InsertBlank(TitleComma, a);
    var c := Collapse(b);
    var r := RStrip(c);
    InsertBlankKeepsNonBlank(GluedTitle, s, 0);
    InsertBlankKeepsNonBlank(TitleComma, a, 0);
    CollapseKeepsNonBlank(b, 0);
    RStripKeepsNonBlank(c);
    assert s[0..] == s && a[0..] == a && b[0..] == b;
    if NonBlank(s) != [] {
      assert s != [];
      InsertBlankFirst(GluedTitle, s, 0);
      InsertBlankFirst(TitleComma, a, 0);
      CollapseFirst(b, 0);
    }
    if r == [] {
      assert NonBlank(r) == [];
    }
  }

  /**
   * The second alternative of the first rewrite never matches: wherever
   * `Delegates` is followed by a letter, `Delegate` is followed by the
   * letter `s` and is taken first.
   */
  lemma PluralTitleNeverMatches(s: string, i: nat)
    requires i <= |s|
    ensures MatchLength(GluedTitle, s, i) != 9
  {
    if i + 9 <= |s| {
      assert s[i..i + 8] == s[i..i + 9][..8];
      assert s[i + 8] == s[i..i + 9][8];
    }
  }
}
