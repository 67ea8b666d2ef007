/** Worked inputs for the sponsor clean-up of extract_bill_info.py. */
module SponsorCleanupExamples {
  import opened Strings
  import opened SponsorCleanup


  lemma CopyOne(p: Pattern, s: string, i: nat)
    requires i < |s| && MatchLength(p, s, i) == 0
    ensures InsertBlankFrom(p, s, i) == [s[i]] + InsertBlankFrom(p, s, i + 1)
  {
  }

  lemma MatchOne(p: Pattern, s: string, i: nat, m: nat)
    requires i < |s| && m == MatchLength(p, s, i) && m > 0
    ensures InsertBlankFrom(p, s, i) == s[i..i + m] + " " + InsertBlankFrom(p, s, i + m)
  {
  }

  lemma AtEnd(p: Pattern, s: string)
    ensures InsertBlankFrom(p, s, |s|) == ""
  {
  }

  /** Outputs that each begin with their own character spell out the span. */
  lemma {:induction false} StepsGiveSpan(s: string, f: nat -> string, i: nat, j: nat)
    requires i <= j <= |s|
    requires forall k :: i <= k < j ==> f(k) == [s[k]] + f(k + 1)
    ensures f(i) == s[i..j] + f(j)
    decreases j - i
  {
    if i < j {
      StepsGiveSpan(s, f, i + 1, j);
      assert [s[i]] + s[i + 1..j] == s[i..j];
    }
  }

  /** Positions where no match starts are copied unchanged. */
  lemma CopiedSpan(p: Pattern, s: string, i: nat, j: nat)
    requires i <= j <= |s|
    requires forall k :: i <= k < j ==> MatchLength(p, s, k) == 0
    ensures InsertBlankFrom(p, s, i) == s[i..j] + InsertBlankFrom(p, s, j)
  {
    var f := (k: nat) => if k <= |s| then InsertBlankFrom(p, s, k) else "";
    forall k | i <= k < j
      ensures f(k) == [s[k]] + f(k + 1)
    {
      CopyOne(p, s, k);
    }
    StepsGiveSpan(s, f, i, j);
  }

  /** A value without adjacent blanks is left alone by the collapse. */
  lemma {:induction false} CollapseIdentity(s: string, i: nat)
    requires i <= |s|
    requires NoDoubleBlank(s)
    ensures CollapseFrom(s, i) == s[i..]
    decreases |s| - i
  {
    if i < |s| {
      CollapseIdentity(s, i + 1);
      assert s[i..] == [s[i]] + s[i + 1..];
    }
  }

  /** A name made of letters other than `D`: no pattern can start inside it. */
  predicate PlainName(x: string) {
    x != [] && forall k :: 0 <= k < |x| ==> IsAsciiLetter(x[k]) && x[k] != 'D'
  }

  /** A title followed by neither `,` nor `s,` does not match the second rewrite. */
  lemma NoCommaAfterTitle(s: string, i: nat)
    requires i <= |s|
    requires i + 8 < |s| ==> s[i + 8] != ','
    requires i + 9 < |s| ==> s[i + 9] != ','
    ensures MatchLength(TitleComma, s, i) == 0
  {
    if i + 9 <= |s| {
      assert s[i..i + 9][8] == s[i + 8];
    }
    if i + 10 <= |s| {
      assert s[i..i + 10][9] == s[i + 9];
    }
  }

  /**
   * A value in which the second rewrite finds nothing, with no adjacent
   * blanks and no trailing blank, is what the last three steps return.
   */
  lemma Settled(a: string)
    requires forall k :: 0 <= k < |a| ==> MatchLength(TitleComma, a, k) == 0
    requires NoDoubleBlank(a)
    requires a == [] || a[|a| - 1] != ' '
    ensures RStrip(Collapse(InsertBlank(TitleComma, a))) == a
  {
    CopiedSpan(TitleComma, a, 0, |a|);
    assert InsertBlank(TitleComma, a) == a by {
      assert a[0..|a|] == a;
    }
    CollapseIdentity(a, 0);
    assert Collapse(a) == a by {
      assert a[0..] == a;
    }
  }

  /** The spaced form of two sponsors, as the clean-up is meant to produce it. */
  function Spaced(x: string, y: string): string {
    "Delegate " + x + ",Delegate " + y
  }

  lemma SpacedNoMatch(x: string, y: string)
    requires PlainName(x) && PlainName(y)
    ensures forall k :: 0 <= k < |Spaced(x, y)| ==> MatchLength(TitleComma, Spaced(x, y), k) == 0
  {
    var a := Spaced(x, y);
    var n := |x|;
    forall k | 0 <= k < |a| ensures MatchLength(TitleComma, a, k) == 0 {
      if a[k] == 'D' {
        assert k == 0 || k == 10 + n;
        NoCommaAfterTitle(a, k);
      }
    }
  }

  lemma SpacedNoDoubleBlank(x: string, y: string)
    requires PlainName(x) && PlainName(y)
    ensures NoDoubleBlank(Spaced(x, y))
    ensures Spaced(x, y)[|Spaced(x, y)| - 1] != ' '
  {
    var a := Spaced(x, y);
    var n := |x|;
    forall j | 0 <= j < |a| - 1 ensures !(a[j] == ' ' && a[j + 1] == ' ') {
      if a[j] == ' ' {
        assert j == 8 || j == 18 + n;
      }
    }
    assert a[|a| - 1] == y[|y| - 1];
  }

  /** Titles already followed by a blank and names followed by a comma are left alone. */
  lemma SpacedNamesUnchanged(x: string, y: string)
    requires PlainName(x) && PlainName(y)
    ensures RStrip(Collapse(InsertBlank(TitleComma, Spaced(x, y)))) == Spaced(x, y)
  {
    SpacedNoMatch(x, y);
    SpacedNoDoubleBlank(x, y);
    Settled(Spaced(x, y));
  }

  /** Two sponsors with the title glued to each name, the case the comment at extract_bill_info.py:59 describes. */
  function Glued(x: string, y: string): string {
    "Delegate" + x + ",Delegate" + y
  }

  lemma GluedMatches(x: string, y: string)
    requires PlainName(x) && PlainName(y)
    ensures MatchLength(GluedTitle, Glued(x, y), 0) == 8
    ensures MatchLength(GluedTitle, Glued(x, y), 9 + |x|) == 8
    ensures forall k :: 8 <= k < 9 + |x| ==> MatchLength(GluedTitle, Glued(x, y), k) == 0
    ensures forall k :: 17 + |x| <= k < |Glued(x, y)| ==> MatchLength(GluedTitle, Glued(x, y), k) == 0
  {
    var s := Glued(x, y);
    var n := |x|;
    GluedSlices(x, y);
    assert s[8] == x[0] && s[17 + n] == y[0];
    assert forall k :: 8 <= k < 9 + n ==> s[k] != 'D';
    assert forall k :: 17 + n <= k < |s| ==> s[k] != 'D';
  }

  lemma GluedSlices(x: string, y: string)
    ensures var s := Glued(x, y); var n := |x|;
      && |s| == 17 + n + |y|
      && s[0..8] == "Delegate" && s[8..9 + n] == x + ","
      && s[9 + n..17 + n] == "Delegate" && s[17 + n..|s|] == y
  {
  }

  lemma SpacedParts(x: string, y: string)
    ensures Spaced(x, y) == "Delegate" + " " + ((x + ",") + ("Delegate" + " " + (y + "")))
  {
  }

  /** A title glued to the following name gets its blank, the comma between names gets none. */
  lemma GluedFirstRewrite(x: string, y: string)
    requires PlainName(x) && PlainName(y)
    ensures InsertBlank(GluedTitle, Glued(x, y)) == Spaced(x, y)
  {
    var s := Glued(x, y);
    var n := |x|;
    GluedMatches(x, y);
    GluedSlices(x, y);
    MatchOne(GluedTitle, s, 0, 8);
    CopiedSpan(GluedTitle, s, 8, 9 + n);
    MatchOne(GluedTitle, s, 9 + n, 8);
    CopiedSpan(GluedTitle, s, 17 + n, |s|);
    AtEnd(GluedTitle, s);
    SpacedParts(x, y);
  }

  lemma GluedNamesExample(x: string, y: string)
    requires PlainName(x) && PlainName(y)
    ensures Cleanup(Glued(x, y)) == Spaced(x, y)
  {
    GluedFirstRewrite(x, y);
    SpacedNamesUnchanged(x, y);
  }

  /** The plural title glued to a name: the blank lands after `Delegate`. */
  function PluralResult(x: string): string {
    "Delegate " + ("s" + x)
  }

  lemma PluralMatches(x: string)
    requires PlainName(x)
    ensures MatchLength(GluedTitle, "Delegates" + x, 0) == 8
    ensures forall k :: 8 <= k < 9 + |x| ==> MatchLength(GluedTitle, "Delegates" + x, k) == 0
  {
    var s := "Delegates" + x;
    assert s[0..8] == "Delegate" && s[8] == 's';
    assert forall k :: 8 <= k < |s| ==> s[k] != 'D';
  }

  lemma PluralParts(x: string)
    ensures |"Delegates" + x| == 9 + |x|
    ensures ("Delegates" + x)[0..8] == "Delegate" && ("Delegates" + x)[8..9 + |x|] == "s" + x
    ensures PluralResult(x) == "Delegate" + " " + (("s" + x) + "")
  {
  }

  lemma PluralFirstRewrite(x: string)
    requires PlainName(x)
    ensures InsertBlank(GluedTitle, "Delegates" + x) == PluralResult(x)
  {
    var s := "Delegates" + x;
    PluralMatches(x);
    PluralParts(x);
    MatchOne(GluedTitle, s, 0, 8);
    CopiedSpan(GluedTitle, s, 8, |s|);
    AtEnd(GluedTitle, s);
  }

  lemma CommaMatches(x: string)
    requires PlainName(x)
    ensures MatchLength(TitleComma, "Delegate," + x, 0) == 9
    ensures forall k :: 9 <= k < 9 + |x| ==> MatchLength(TitleComma, "Delegate," + x, k) == 0
  {
    var s := "Delegate," + x;
    assert s[0..9] == "Delegate,";
    assert forall k :: 9 <= k < |s| ==> s[k] != 'D';
  }

  lemma CommaParts(x: string)
    ensures |"Delegate," + x| == 9 + |x|
    ensures ("Delegate," + x)[0..9] == "Delegate," && ("Delegate," + x)[9..9 + |x|] == x
    ensures "Delegate, " + x == "Delegate," + " " + (x + "")
  {
  }

  /** The comma rewrite puts a blank after a title directly followed by a comma. */
  lemma CommaRewrite(x: string)
    requires PlainName(x)
    ensures InsertBlank(TitleComma, "Delegate," + x) == "Delegate, " + x
  {
    var s := "Delegate," + x;
    CommaMatches(x);
    CommaParts(x);
    MatchOne(TitleComma, s, 0, 9);
    CopiedSpan(TitleComma, s, 9, |s|);
    AtEnd(TitleComma, s);
  }

  lemma PluralResultSettled(x: string)
    requires PlainName(x)
    ensures RStrip(Collapse(InsertBlank(TitleComma, PluralResult(x)))) == PluralResult(x)
  {
    var a := PluralResult(x);
    forall k | 0 <= k < |a| ensures MatchLength(TitleComma, a, k) == 0 {
      if a[k] == 'D' {
        assert k == 0;
        NoCommaAfterTitle(a, k);
      }
    }
    forall j | 0 <= j < |a| - 1 ensures !(a[j] == ' ' && a[j + 1] == ' ') {
      if a[j] == ' ' {
        assert j == 8;
      }
    }
    assert a[|a| - 1] == x[|x| - 1];
    Settled(a);
  }

  /**
   * `Delegates` glued to a name comes out as `Delegate s` and the name:
   * the plural alternative of the first rewrite is never reached.
   */
  lemma PluralTitleExample(x: string)
    requires PlainName(x)
    ensures Cleanup("Delegates" + x) == "Delegate s" + x
  {
    PluralFirstRewrite(x);
    PluralResultSettled(x);
    assert PluralResult(x) == "Delegate s" + x;
  }

  /** A title glued to a second title. */
  function Doubled(x: string): string {
    "DelegateDelegate" + x
  }

  function OnceResult(x: string): string {
    "Delegate " + ("Delegate" + x)
  }

  function TwiceResult(x: string): string {
    "Delegate " + ("Delegate " + x)
  }

  lemma DoubledMatches(x: string)
    requires PlainName(x)
    ensures MatchLength(GluedTitle, Doubled(x), 0) == 8
    ensures forall k :: 8 <= k < 16 + |x| ==> MatchLength(GluedTitle, Doubled(x), k) == 0
  {
    var s := Doubled(x);
    assert s[0..8] == "Delegate" && s[8] == 'D';
    assert !WordBoundary(s, 8);
    assert forall k :: 9 <= k < |s| ==> s[k] != 'D';
  }

  lemma DoubledParts(x: string)
    ensures |Doubled(x)| == 16 + |x|
    ensures Doubled(x)[0..8] == "Delegate" && Doubled(x)[8..16 + |x|] == "Delegate" + x
    ensures OnceResult(x) == "Delegate" + " " + (("Delegate" + x) + "")
  {
  }

  /** The first pass separates only the first title: inside a word there is no boundary. */
  lemma DoubledFirstRewrite(x: string)
    requires PlainName(x)
    ensures InsertBlank(GluedTitle, Doubled(x)) == OnceResult(x)
  {
    var s := Doubled(x);
    DoubledMatches(x);
    DoubledParts(x);
    MatchOne(GluedTitle, s, 0, 8);
    CopiedSpan(GluedTitle, s, 8, |s|);
    AtEnd(GluedTitle, s);
  }

  lemma OnceResultSettled(x: string)
    requires PlainName(x)
    ensures RStrip(Collapse(InsertBlank(TitleComma, OnceResult(x)))) == OnceResult(x)
  {
    var a := OnceResult(x);
    forall k | 0 <= k < |a| ensures MatchLength(TitleComma, a, k) == 0 {
      if a[k] == 'D' {
        assert k == 0 || k == 9;
        NoCommaAfterTitle(a, k);
      }
    }
    forall j | 0 <= j < |a| - 1 ensures !(a[j] == ' ' && a[j + 1] == ' ') {
      if a[j] == ' ' {
        assert j == 8;
      }
    }
    assert a[|a| - 1] == x[|x| - 1];
    Settled(a);
  }

  lemma OnceMatches(x: string)
    requires PlainName(x)
    ensures forall k :: 0 <= k < 9 ==> MatchLength(GluedTitle, OnceResult(x), k) == 0
    ensures MatchLength(GluedTitle, OnceResult(x), 9) == 8
    ensures forall k :: 17 <= k < |OnceResult(x)| ==> MatchLength(GluedTitle, OnceResult(x), k) == 0
  {
    var s := OnceResult(x);
    assert s[0..8] == "Delegate" && s[8] == ' ';
    assert s[9..17] == "Delegate" && s[17] == x[0];
    assert forall k :: 1 <= k < 9 ==> s[k] != 'D';
    assert forall k :: 17 <= k < |s| ==> s[k] != 'D';
  }

  lemma OnceParts(x: string)
    ensures |OnceResult(x)| == 17 + |x|
    ensures OnceResult(x)[0..9] == "Delegate " && OnceResult(x)[9..17] == "Delegate"
    ensures OnceResult(x)[17..17 + |x|] == x
    ensures TwiceResult(x) == "Delegate " + ("Delegate" + " " + (x + ""))
  {
  }

  /** The second pass separates the second title from the name. */
  lemma OnceFirstRewrite(x: string)
    requires PlainName(x)
    ensures InsertBlank(GluedTitle, OnceResult(x)) == TwiceResult(x)
  {
    var s := OnceResult(x);
    OnceMatches(x);
    OnceParts(x);
    CopiedSpan(GluedTitle, s, 0, 9);
    MatchOne(GluedTitle, s, 9, 8);
    CopiedSpan(GluedTitle, s, 17, |s|);
    AtEnd(GluedTitle, s);
  }

  lemma TwiceResultSettled(x: string)
    requires PlainName(x)
    ensures RStrip(Collapse(InsertBlank(TitleComma, TwiceResult(x)))) == TwiceResult(x)
  {
    var a := TwiceResult(x);
    forall k | 0 <= k < |a| ensures MatchLength(TitleComma, a, k) == 0 {
      if a[k] == 'D' {
        assert k == 0 || k == 9;
        NoCommaAfterTitle(a, k);
      }
    }
    forall j | 0 <= j < |a| - 1 ensures !(a[j] == ' ' && a[j + 1] == ' ') {
      if a[j] == ' ' {
        assert j == 8 || j == 17;
      }
    }
    assert a[|a| - 1] == x[|x| - 1];
    Settled(a);
  }

  /** The clean-up is not idempotent: a second application changes the value. */
  lemma CleanupNotIdempotent(x: string)
    requires PlainName(x)
    ensures Cleanup(Cleanup(Doubled(x))) != Cleanup(Doubled(x))
  {
    DoubledFirstRewrite(x);
    OnceResultSettled(x);
    OnceFirstRewrite(x);
    TwiceResultSettled(x);
    assert |TwiceResult(x)| != |OnceResult(x)|;
  }
}
