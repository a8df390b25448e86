module Examples {
  import opened PyStrings
  import opened Scanner
  import opened Prefilters
  import opened LongForm
  import opened Disambiguation
  import opened Store
  import opened Matcher

  lemma NoWordStartsWithR(s: string)
    requires s == "BRCA1 gene" || s == "BRCA1"
    ensures 'r' !in Initials(s)
  {
    InitialsMember(s, 'r');
    forall j | 0 <= j < |s| && IsWordStart(s, j) ensures LowerChar(s[j]) != 'r' {
      assert j == 0 || j == 6;
    }
  }

  lemma LowerOfVariants()
    ensures Lower("BRCA1 gene") == "brca1 gene"
    ensures Lower("BRCA1") == "brca1"
  {
    var s := "BRCA1 gene";
    var l := Lower(s);
    assert l[0] == 'b' && l[1] == 'r' && l[2] == 'c' && l[3] == 'a' && l[4] == '1';
    assert l[5] == ' ' && l[6] == 'g' && l[7] == 'e' && l[8] == 'n' && l[9] == 'e';
    var l1 := Lower("BRCA1");
    assert l1[0] == 'b' && l1[1] == 'r' && l1[2] == 'c' && l1[3] == 'a' && l1[4] == '1';
  }

  /** `strip('gene')` removes the characters g, e and n, so " gene" loses all but its
      space; the two variants stay apart. */
  lemma GeneStripOfVariants()
    ensures GeneStrip("BRCA1 gene") == "brca1 "
    ensures GeneStrip("BRCA1") == "brca1"
  {
    var gen := Chars({'g', 'e', 'n'});
    LowerOfVariants();
    assert "brca1 gene"[..9] == "brca1 gen";
    assert "brca1 gen"[..8] == "brca1 ge";
    assert "brca1 ge"[..7] == "brca1 g";
    assert "brca1 g"[..6] == "brca1 ";
    RStripStep("brca1 gene", gen);
    RStripStep("brca1 gen", gen);
    RStripStep("brca1 ge", gen);
    RStripStep("brca1 g", gen);
    RStripStep("brca1 ", gen);
    LStripStep("brca1 ", gen);
    RStripStep("brca1", gen);
    LStripStep("brca1", gen);
  }

  lemma CleanVariants()
    ensures HasNoPunctuation("BRCA1 gene") && HasNoPunctuation("BRCA1")
    ensures FilterBy(["BRCA1 gene", "BRCA1"], HasNoPunctuation) == ["BRCA1 gene", "BRCA1"]
  {
    var xs := ["BRCA1 gene", "BRCA1"];
    assert xs[..1][..0] == [];
    assert xs[..2][..1] == xs[..1];
    assert xs[..2] == xs;
  }

  /** The two forms differ ignoring case, and still differ after `strip('gene')`. */
  lemma VariantsDiffer()
    ensures !AllSame(["BRCA1 gene", "BRCA1"], Lower)
    ensures !AllSame(["BRCA1 gene", "BRCA1"], GeneStrip)
  {
    var xs := ["BRCA1 gene", "BRCA1"];
    LowerOfVariants();
    GeneStripOfVariants();
    assert Lower(xs[1]) != Lower(xs[0]);
    assert GeneStrip(xs[1]) != GeneStrip(xs[0]);
  }

  /** No word of either form starts with the second letter of "BRCA". */
  lemma VariantsDoNotCover()
    ensures !CoversInitials("BRCA1 gene", "BRCA")
    ensures !CoversInitials("BRCA1", "BRCA")
  {
    NoWordStartsWithR("BRCA1 gene");
    NoWordStartsWithR("BRCA1");
    assert LowerChar("BRCA"[1]) == 'r';
  }

  /** The gene-suffix example: the two forms differ ignoring case and still differ after
      `strip('gene')`, which leaves a trailing space on the first. Neither covers the
      initials of "BRCA", both are free of punctuation, so both are kept; with two forms
      left, `replace_abbrevs` substitutes the first recorded one. */
  lemma GeneVariants()
    ensures FilteredLongVersions(["BRCA1 gene", "BRCA1"], "BRCA") == ["BRCA1 gene", "BRCA1"]
    ensures Resolve(["BRCA1 gene", "BRCA1"], "BRCA") == "BRCA1 gene"
  {
    var xs := ["BRCA1 gene", "BRCA1"];
    VariantsDiffer();
    VariantsDoNotCover();
    FirstCoveringNone(xs, "BRCA");
    ByInitialsNone(xs, "BRCA");
    CleanVariants();
  }

  lemma TokensSpaceFoo()
    ensures SplitTokens(" foo") == ["", "foo"]
  {
    SplitTokensAppend([], ' ', "foo");
    assert [] + [' '] + "foo" == " foo";
  }

  /** A leading separator gives an empty first token. */
  lemma TokensSpaceFooBar()
    ensures SplitTokens(" foo bar") == ["", "foo", "bar"]
  {
    TokensSpaceFoo();
    SplitTokensAppend(" foo", ' ', "bar");
    assert " foo" + [' '] + "bar" == " foo bar";
  }

  lemma TokensFooBar()
    ensures SplitTokens("foo bar") == ["foo", "bar"]
  {
    var u, w := "foo", "bar";
    assert u + [' '] + w == "foo bar";
    TwoTokens(u, ' ', w);
  }

  /** Two words joined by one separator split into those two words. */
  lemma TwoTokens(u: string, c: char, w: string)
    requires IsSeparator(c)
    requires forall j :: 0 <= j < |u| ==> !IsSeparator(u[j])
    requires forall j :: 0 <= j < |w| ==> !IsSeparator(w[j])
    ensures SplitTokens(u + [c] + w) == [u, w]
  {
    SplitTokensAppendWord([], u);
    assert [] + u == u;
    SplitTokensAppend(u, c, w);
  }

  /** The empty last token is skipped by the `continue` of lines 144-147, so the end test
      never runs and both words are kept although `long_version_max` is 0. */
  lemma WalkSpaceFooBar()
    ensures Walk(["bar", "foo", ""], 'A', 0) == ["bar", "foo"]
  {
    var rev: seq<string> := ["bar", "foo", ""];
    StripUnchanged("foo", Punctuation);
    assert Strip(rev[2], Punctuation) == [];
    ReachesEnd(rev, 'A', 0);
  }

  /** Without the empty token, the end is reached at position 1, which is beyond
      `long_version_max` 0, and everything is deleted. */
  lemma WalkFooBar()
    ensures Walk(["bar", "foo"], 'A', 0) == []
  {
    StripUnchanged("foo", Punctuation);
    ReachesEnd(["bar", "foo"], 'A', 0);
  }

  /** `LongVersion` once the tokens and the walk's result are known. */
  lemma LongVersionFrom(pre: string, anchor: char, lvMax: int, rev: seq<string>, ex: seq<string>)
    requires Reverse(SplitTokens(pre)) == rev && Walk(rev, anchor, lvMax) == ex
    ensures LongVersion(pre, anchor, lvMax)
            == if ex == [] then None else Some(Strip(Join(Reverse(ex), " "), Punctuation))
  {
  }

  /** A text before the bracket that starts with a separator keeps every token. */
  lemma LeadingSpace()
    ensures LongVersion(" foo bar", 'A', 0) == Some("foo bar")
  {
    TokensSpaceFooBar();
    assert Reverse(["", "foo", "bar"]) == ["bar", "foo", ""];
    WalkSpaceFooBar();
    LongVersionFrom(" foo bar", 'A', 0, ["bar", "foo", ""], ["bar", "foo"]);
    FooBarForm();
  }

  lemma FooBarForm()
    ensures Strip(Join(Reverse(["bar", "foo"]), " "), Punctuation) == "foo bar"
  {
    assert Reverse(["bar", "foo"]) == ["foo", "bar"];
    assert Join(["foo", "bar"], " ") == "foo bar";
    StripUnchanged("foo bar", Punctuation);
  }

  /** The same words without the leading separator give no long form. */
  lemma NoLeadingSpace()
    ensures LongVersion("foo bar", 'A', 0) == None
  {
    TokensFooBar();
    assert Reverse(["foo", "bar"]) == ["bar", "foo"];
    WalkFooBar();
    LongVersionFrom("foo bar", 'A', 0, ["bar", "foo"], []);
  }

  /** "see figure (a)": the only bracket closes the text, so no character follows the
      `)`, the pattern matches nowhere, and the text yields no entry. */
  lemma BracketAtTextEnd()
    ensures FindIter("see figure (a)", 0) == []
    ensures Discover(DefaultConfig, "see figure (a)") == []
  {
    var t := "see figure (a)";
    forall p | 0 <= p < |t| ensures MatchAt(t, p).None? {
      if p == 10 || p == 11 {
        assert BodyEnd(t, 13) == 13;
        assert BodyEnd(t, 12) == 13;
      } else {
        MatchAtNeedsOpen(t, p);
      }
    }
    FindIterEmptyIff(t, 0);
  }

  /** The one match of " (IL6) " in "Interleukin 6 (IL6) is elevated.", with its leading
      space. */
  lemma IL6Matches()
    ensures FindIter("Interleukin 6 (IL6) is elevated.", 0) == [Match(13, 20)]
  {
    var t := "Interleukin 6 (IL6) is elevated.";
    IL6NoneBefore();
    IL6MatchAt();
    assert FindIter(t, 13) == [Match(13, 20)] + FindIter(t, 20);
    IL6NoneAfter();
  }

  /** No `(` occurs before offset 14, so nothing matches before offset 13. */
  lemma IL6NoneBefore()
    ensures FindIter("Interleukin 6 (IL6) is elevated.", 0) == FindIter("Interleukin 6 (IL6) is elevated.", 13)
  {
    var t := "Interleukin 6 (IL6) is elevated.";
    forall p | 0 <= p < 13 ensures MatchAt(t, p).None? {
      MatchAtNeedsOpen(t, p);
    }
    FindIterSkip(t, 0, 13);
  }

  lemma IL6NoneAfter()
    ensures FindIter("Interleukin 6 (IL6) is elevated.", 20) == []
  {
    var t := "Interleukin 6 (IL6) is elevated.";
    forall p | 20 <= p < |t| ensures MatchAt(t, p).None? {
      MatchAtNeedsOpen(t, p);
    }
    FindIterEmptyIff(t, 20);
  }

  /** The content run "IL6" ends at the `)` at offset 18. */
  lemma IL6MatchAt()
    ensures MatchAt("Interleukin 6 (IL6) is elevated.", 13) == Some(20)
  {
    var t := "Interleukin 6 (IL6) is elevated.";
    assert BodyEnd(t, 18) == 18;
    assert BodyEnd(t, 17) == 18;
    assert BodyEnd(t, 16) == 18;
    assert BodyEnd(t, 15) == 18;
  }

  /** The candidate: `strip()` drops the spaces, `rstrip(string.punctuation)` the `)`,
      and `lstrip('(')` the `(`. */
  lemma IL6Candidate()
    ensures Candidate(" (IL6) ") == "IL6"
    ensures PrefilterCandidate(DefaultConfig, "IL6")
  {
    var g := " (IL6) ";
    assert IsBracketMatch(g);
    CandidateOfMatch(g);
    assert Body(g) == "IL6";
    RStripStep("IL6", Punctuation);
  }

  /** The walk stops at once: the token before "6" starts with the anchor `I`. */
  lemma IL6LongVersion()
    ensures LongVersion("Interleukin 6", 'I', 7) == Some("Interleukin 6")
  {
    var rev: seq<string> := ["6", "Interleukin"];
    IL6Tokens();
    assert Reverse(["Interleukin", "6"]) == rev;
    IL6Walk();
    LongVersionFrom("Interleukin 6", 'I', 7, rev, rev);
    IL6Form();
  }

  lemma IL6Tokens()
    ensures SplitTokens("Interleukin 6") == ["Interleukin", "6"]
  {
    var u, w := "Interleukin", "6";
    assert forall j :: 0 <= j < |u| ==> !IsSeparator(u[j]);
    assert u + [' '] + w == "Interleukin 6";
    TwoTokens(u, ' ', w);
  }

  lemma IL6Walk()
    ensures Walk(["6", "Interleukin"], 'I', 7) == ["6", "Interleukin"]
  {
    StripUnchanged("Interleukin", Punctuation);
    assert |Lower("Interleukin")| == 11;
    AnchorStop(["6", "Interleukin"], 'I', 7, 1);
  }

  lemma IL6Form()
    ensures Strip(Join(Reverse(["6", "Interleukin"]), " "), Punctuation) == "Interleukin 6"
  {
    assert Reverse(["6", "Interleukin"]) == ["Interleukin", "6"];
    assert Join(["Interleukin", "6"], " ") == "Interleukin 6";
    StripUnchanged("Interleukin 6", Punctuation);
  }

  /** "Interleukin 6" passes the long-form prefilter for "IL6": it has no " .", no
      punctuation, no "il6" inside it, and holds `i` (position 0), `l` (position 5) and
      `6` (position 12). */
  lemma IL6Passes()
    ensures PrefilterLongVersion("Interleukin 6", "IL6")
  {
    IL6NoDot();
    IL6NotInside();
    IL6NoPunctuation();
    IL6HasLetters("Interleukin 6", "IL6");
  }

  lemma IL6NoPunctuation()
    ensures Count("Interleukin 6", Punctuation) == 0
  {
    var lv := "Interleukin 6";
    assert forall i :: 0 <= i < |lv| ==> !InSet(lv[i], Punctuation);
  }

  lemma IL6HasLetters(lv: string, a: string)
    requires lv == "Interleukin 6" && a == "IL6"
    ensures forall i :: 0 <= i < |a| ==> exists j :: 0 <= j < |lv| && LowerChar(lv[j]) == LowerChar(a[i])
  {
    assert LowerChar(lv[0]) == LowerChar(a[0]);
    assert LowerChar(lv[5]) == LowerChar(a[1]);
    assert LowerChar(lv[12]) == LowerChar(a[2]);
  }

  lemma IL6NoDot()
    ensures !(exists i :: 0 <= i <= 13 && " ." <= "Interleukin 6"[i..])
  {
    var lv := "Interleukin 6";
    forall i | 0 <= i <= 13 ensures !(" ." <= lv[i..]) {
      if i + 1 < 13 {
        assert lv[i + 1] != '.';
      }
    }
  }

  lemma IL6NotInside()
    ensures !(exists i :: 0 <= i <= 13 && Lower("IL6") <= Lower("Interleukin 6")[i..])
  {
    var lv := "Interleukin 6";
    var l := Lower(lv);
    assert Lower("IL6") == "il6";
    forall i | 0 <= i <= 13 ensures !("il6" <= l[i..]) {
      if i == 10 {
        assert l[10] == LowerChar('n');
      } else if i < 10 {
        assert l[i + 2] == LowerChar(lv[i + 2]) && lv[i + 2] != '6';
      }
    }
  }

  /** The match at 13 records "IL6" with the long form "Interleukin 6". */
  lemma IL6Accept()
    ensures Accept(DefaultConfig, "Interleukin 6 (IL6) is elevated.", Match(13, 20))
            == Some(Entry("IL6", "Interleukin 6"))
  {
    var t := "Interleukin 6 (IL6) is elevated.";
    assert t[13..20] == " (IL6) ";
    assert t[..13] == "Interleukin 6";
    IL6Candidate();
    assert "IL6"[0] == 'I';
    IL6LongVersion();
    IL6Passes();
  }

  /** End to end: the sentence yields the dictionary {"IL6": ["Interleukin 6"]}. */
  lemma IL6Discover()
    ensures Discover(DefaultConfig, "Interleukin 6 (IL6) is elevated.") == [Entry("IL6", "Interleukin 6")]
    ensures AddAll(Empty, Discover(DefaultConfig, "Interleukin 6 (IL6) is elevated.")).data
            == map["IL6" := ["Interleukin 6"]]
  {
    var e := Entry("IL6", "Interleukin 6");
    IL6Matches();
    IL6Accept();
    DiscoverOne(DefaultConfig, "Interleukin 6 (IL6) is elevated.", Match(13, 20), e);
    AddAllOne(e);
  }

  /** A text whose one match is accepted yields that one entry. */
  lemma DiscoverOne(cfg: Config, t: string, m: Match, e: Entry)
    requires FindIter(t, 0) == [m] && m.start <= m.end <= |t| && Accept(cfg, t, m) == Some(e)
    ensures Discover(cfg, t) == [e]
  {
    OutcomesOne(cfg, t, m);
    SomesOne(Outcomes(cfg, t, [m]), e);
  }

  lemma OutcomesOne(cfg: Config, t: string, m: Match)
    requires m.start <= m.end <= |t|
    ensures Outcomes(cfg, t, [m]) == [Accept(cfg, t, m)]
  {
  }

  /** One accepted outcome gives one entry. */
  lemma SomesOne(os: seq<Option<Entry>>, e: Entry)
    requires |os| == 1 && os[0] == Some(e)
    ensures Somes(os) == [e]
  {
    assert os[..0] == [];
  }

  lemma AddAllOne(e: Entry)
    ensures AddAll(Empty, [e]).data == map[e.abbrev := [e.longVersion]]
  {
    assert [e][..0] == [];
  }
}
