/** `filter_long_version_list` (abbrev_matcher.py lines 77-96): the rules that narrow the
    long forms collected for one abbreviation, and the choice `replace_abbrevs` makes from
    them (lines 189-196). */
module Disambiguation {
  import opened PyStrings

  /** `set([f(lv) for lv in xs])` */
  function ImageSet(xs: seq<string>, f: string -> string): set<string> {
    set i | 0 <= i < |xs| :: f(xs[i])
  }

  /** Every element of `xs` has the same image under `f`, and there is at least one. */
  predicate AllSame(xs: seq<string>, f: string -> string) {
    xs != [] && forall i :: 0 <= i < |xs| ==> f(xs[i]) == f(xs[0])
  }

  /** `len(set(...)) == 1` holds exactly when the list is not empty and all images agree. */
  lemma ImageSetSingleton(xs: seq<string>, f: string -> string)
    ensures |ImageSet(xs, f)| == 1 <==> AllSame(xs, f)
  {
    var s := ImageSet(xs, f);
    if xs == [] {
      assert s == {};
    } else {
      var x := f(xs[0]);
      assert x in s;
      if AllSame(xs, f) {
        assert s == {x};
      } else {
        var i :| 0 <= i < |xs| && f(xs[i]) != x;
        assert f(xs[i]) in s - {x};
        assert |s - {x}| == |s| - 1;
      }
    }
  }

  /** `lv.lower().strip('gene')`: the characters g, e and n are stripped from both ends
      of the lower-cased form, in any order and any number. */
  function GeneStrip(lv: string): string {
    Strip(Lower(lv), Chars({'g', 'e', 'n'}))
  }

  predicate NotGeneSuffixed(lv: string) {
    !EndsWith(lv, "gene")
  }

  /** `not set(string.punctuation).intersection(lv)` */
  predicate HasNoPunctuation(lv: string) {
    forall i :: 0 <= i < |lv| ==> !IsPunctuation(lv[i])
  }

  /** The elements of `xs` that `keep` accepts, in order. */
  function FilterBy(xs: seq<string>, keep: string -> bool): (r: seq<string>)
    ensures |r| <= |xs|
    decreases |xs|
  {
    if xs == [] then []
    else FilterBy(xs[..|xs| - 1], keep) + (if keep(xs[|xs| - 1]) then [xs[|xs| - 1]] else [])
  }

  /** Everything `FilterBy` keeps is accepted by `keep`. */
  lemma {:induction false} FilterByKeeps(xs: seq<string>, keep: string -> bool)
    ensures forall k :: 0 <= k < |FilterBy(xs, keep)| ==> keep(FilterBy(xs, keep)[k])
    decreases |xs|
  {
    if xs != [] {
      FilterByKeeps(xs[..|xs| - 1], keep);
    }
  }

  /** Position `j` starts a word of `s.split()`: a non-space character at the beginning
      or after a space. */
  predicate IsWordStart(s: string, j: int) {
    0 <= j < |s| && !IsSpace(s[j]) && (j == 0 || IsSpace(s[j - 1]))
  }

  /** `[lt[0].lower() for lt in lv.split()]`: the lower-cased initial of every word. */
  function Initials(s: string): seq<char>
    decreases |s|
  {
    if s == [] then []
    else
      var n := |s| - 1;
      Initials(s[..n]) + (if IsWordStart(s, n) then [LowerChar(s[n])] else [])
  }

  /** Some word of `s` starts with a character that lower-cases to `c`. */
  predicate StartsSomeWord(s: string, c: char) {
    exists j :: 0 <= j < |s| && IsWordStart(s, j) && LowerChar(s[j]) == c
  }

  /** A character is among the initials exactly when some word starts with it (ignoring
      case). */
  lemma {:induction false} InitialsMember(s: string, c: char)
    ensures c in Initials(s) <==> StartsSomeWord(s, c)
    decreases |s|
  {
    if s != [] {
      var n := |s| - 1;
      var init := s[..n];
      var last := if IsWordStart(s, n) then [LowerChar(s[n])] else [];
      assert Initials(s) == Initials(init) + last;
      InitialsMember(init, c);
      if StartsSomeWord(init, c) {
        var j :| 0 <= j < |init| && IsWordStart(init, j) && LowerChar(init[j]) == c;
        WordStartInit(s, j);
      }
      if StartsSomeWord(s, c) {
        var j :| 0 <= j < |s| && IsWordStart(s, j) && LowerChar(s[j]) == c;
        if j < n {
          WordStartInit(s, j);
        }
      }
    }
  }

  /** Cutting off the last character does not change where the earlier words start. */
  lemma WordStartInit(s: string, j: nat)
    requires j < |s| - 1
    ensures IsWordStart(s[..|s| - 1], j) <==> IsWordStart(s, j)
    ensures s[..|s| - 1][j] == s[j]
  {
  }

  /** Line 86: every character of the abbreviation, lower-cased, is the initial of some
      word of the long form. */
  predicate CoversInitials(lv: string, a: string) {
    forall i :: 0 <= i < |a| ==> LowerChar(a[i]) in Initials(lv)
  }

  /** The covering test phrased on the long form itself. */
  lemma CoversInitialsIff(lv: string, a: string)
    ensures CoversInitials(lv, a) <==> forall i :: 0 <= i < |a| ==> StartsSomeWord(lv, LowerChar(a[i]))
  {
    forall i | 0 <= i < |a| {
      InitialsMember(lv, LowerChar(a[i]));
    }
  }

  /** The index of the first long form whose initials cover the abbreviation, or `|xs|`. */
  function FirstCovering(xs: seq<string>, a: string): (k: nat)
    ensures k <= |xs|
    decreases |xs|
  {
    if xs == [] then 0
    else if CoversInitials(xs[0], a) then 0
    else FirstCovering(xs[1..], a) + 1
  }

  /** `FirstCovering` is the least index whose form covers the initials. */
  lemma {:induction false} FirstCoveringSpec(xs: seq<string>, a: string)
    ensures var k := FirstCovering(xs, a);
      && (forall j :: 0 <= j < k ==> !CoversInitials(xs[j], a))
      && (k < |xs| ==> CoversInitials(xs[k], a))
    decreases |xs|
  {
    if xs != [] && !CoversInitials(xs[0], a) {
      FirstCoveringSpec(xs[1..], a);
      assert forall j :: 1 <= j < |xs| ==> xs[j] == xs[1..][j - 1];
    }
  }

  /** The result of `filter_long_version_list(xs, a)`:
      - all forms equal ignoring case: the first form;
      - all forms equal after the `strip('gene')` of line 81: those not ending in "gene";
      - otherwise the forms without punctuation that come before the first form covering
        the abbreviation's initials, followed by that form; when no form covers them,
        the forms without punctuation, or all of `xs` if there are none. */
  function FilteredLongVersions(xs: seq<string>, a: string): seq<string> {
    if AllSame(xs, Lower) then [xs[0]]
    else if AllSame(xs, GeneStrip) then FilterBy(xs, NotGeneSuffixed)
    else ByInitials(xs, a)
  }

  /** The third rule of `FilteredLongVersions`, the loop of lines 84-96. */
  function ByInitials(xs: seq<string>, a: string): seq<string> {
    var k := FirstCovering(xs, a);
    var clean := FilterBy(xs[..k], HasNoPunctuation);
    if k < |xs| then clean + [xs[k]]
    else if clean != [] then clean
    else xs
  }

  /** Lines 77-96, with the loop and its early `return`. */
  method FilterLongVersionList(longVersionList: seq<string>, abbrevCandidate: string) returns (lvList: seq<string>)
    ensures lvList == FilteredLongVersions(longVersionList, abbrevCandidate)
  {
    lvList := [];
    ImageSetSingleton(longVersionList, Lower);
    if |ImageSet(longVersionList, Lower)| == 1 {
      return [longVersionList[0]];
    }
    ImageSetSingleton(longVersionList, GeneStrip);
    if |ImageSet(longVersionList, GeneStrip)| == 1 {
      lvList := lvList + FilterBy(longVersionList, NotGeneSuffixed);
      return;
    }
    ghost var first := FirstCovering(longVersionList, abbrevCandidate);
    assert longVersionList[..0] == [];
    var i := 0;
    while i < |longVersionList|
      invariant 0 <= i <= first
      invariant lvList == FilterBy(longVersionList[..i], HasNoPunctuation)
    {
      var lv := longVersionList[i];
      CleanStep(longVersionList, i, lvList);
      if CoversInitials(lv, abbrevCandidate) {
        CoveringReturn(longVersionList, abbrevCandidate, i, lvList);
        lvList := lvList + [lv];
        return;
      } else if HasNoPunctuation(lv) {
        lvList := lvList + [lv];
      }
      assert !CoversInitials(lv, abbrevCandidate);
      FirstCoveringSkip(longVersionList, abbrevCandidate, i);
      i := i + 1;
    }
    assert longVersionList[..i] == longVersionList;
    NoCoveringReturn(longVersionList, abbrevCandidate, lvList);
    if lvList != [] {
      return;
    } else {
      return longVersionList;
    }
  }

  lemma FilterBySnoc(xs: seq<string>, i: nat, keep: string -> bool)
    requires i < |xs|
    ensures FilterBy(xs[..i + 1], keep) == FilterBy(xs[..i], keep) + (if keep(xs[i]) then [xs[i]] else [])
  {
    assert xs[..i + 1][..i] == xs[..i];
  }

  /** The early `return` of line 88: the forms kept so far and the first covering one. */
  lemma CoveringReturn(xs: seq<string>, a: string, i: nat, clean: seq<string>)
    requires !AllSame(xs, Lower) && !AllSame(xs, GeneStrip)
    requires i < |xs| && i <= FirstCovering(xs, a) && CoversInitials(xs[i], a)
    requires clean == FilterBy(xs[..i], HasNoPunctuation)
    ensures clean + [xs[i]] == FilteredLongVersions(xs, a)
  {
    FirstCoveringHit(xs, a, i);
    ByInitialsAt(xs, a, i);
  }

  /** The returns of lines 93-96, after a loop that found no covering form. */
  lemma NoCoveringReturn(xs: seq<string>, a: string, clean: seq<string>)
    requires !AllSame(xs, Lower) && !AllSame(xs, GeneStrip)
    requires |xs| <= FirstCovering(xs, a)
    requires clean == FilterBy(xs, HasNoPunctuation)
    ensures (if clean != [] then clean else xs) == FilteredLongVersions(xs, a)
  {
    ByInitialsNone(xs, a);
  }

  /** One turn of the loop of lines 89-91: the form is kept exactly when it has no
      punctuation. */
  lemma CleanStep(xs: seq<string>, i: nat, clean: seq<string>)
    requires i < |xs| && clean == FilterBy(xs[..i], HasNoPunctuation)
    ensures FilterBy(xs[..i + 1], HasNoPunctuation) == if HasNoPunctuation(xs[i]) then clean + [xs[i]] else clean
  {
    FilterBySnoc(xs, i, HasNoPunctuation);
  }

  /** A form that does not cover the initials is not the first one that does. */
  lemma FirstCoveringSkip(xs: seq<string>, a: string, i: nat)
    requires i < |xs| && i <= FirstCovering(xs, a) && !CoversInitials(xs[i], a)
    ensures i < FirstCovering(xs, a)
  {
    FirstCoveringSpec(xs, a);
  }

  /** When no form covers the initials, there is no first one. */
  lemma FirstCoveringNone(xs: seq<string>, a: string)
    requires forall j :: 0 <= j < |xs| ==> !CoversInitials(xs[j], a)
    ensures FirstCovering(xs, a) == |xs|
  {
    FirstCoveringSpec(xs, a);
  }

  /** The first form at or after `i` that covers the initials is the one at `i`. */
  lemma FirstCoveringHit(xs: seq<string>, a: string, i: nat)
    requires i < |xs| && i <= FirstCovering(xs, a) && CoversInitials(xs[i], a)
    ensures FirstCovering(xs, a) == i
  {
    FirstCoveringSpec(xs, a);
  }

  /** The covering branch when the form at `i` is the first to cover the initials. */
  lemma ByInitialsAt(xs: seq<string>, a: string, i: nat)
    requires i < |xs| && i == FirstCovering(xs, a)
    ensures !AllSame(xs, Lower) && !AllSame(xs, GeneStrip) ==>
      FilteredLongVersions(xs, a) == FilterBy(xs[..i], HasNoPunctuation) + [xs[i]]
  {
  }

  /** The covering branch when no form covers the initials. */
  lemma ByInitialsNone(xs: seq<string>, a: string)
    requires FirstCovering(xs, a) == |xs|
    ensures var clean := FilterBy(xs, HasNoPunctuation);
      !AllSame(xs, Lower) && !AllSame(xs, GeneStrip) ==>
      FilteredLongVersions(xs, a) == if clean != [] then clean else xs
  {
    assert xs[..|xs|] == xs;
  }


  /** `ys` can be obtained from `xs` by deleting elements (order is kept). */
  predicate IsSubsequence(ys: seq<string>, xs: seq<string>)
    decreases |xs|
  {
    ys == [] ||
    (xs != [] &&
      ((ys[|ys| - 1] == xs[|xs| - 1] && IsSubsequence(ys[..|ys| - 1], xs[..|xs| - 1]))
       || IsSubsequence(ys, xs[..|xs| - 1])))
  }

  lemma {:induction false} SubsequenceRefl(xs: seq<string>)
    ensures IsSubsequence(xs, xs)
    decreases |xs|
  {
    if xs != [] {
      SubsequenceRefl(xs[..|xs| - 1]);
    }
  }

  /** A subsequence stays one when more elements follow. */
  lemma {:induction false} SubsequenceExtend(ys: seq<string>, xs: seq<string>, zs: seq<string>)
    requires IsSubsequence(ys, xs)
    ensures IsSubsequence(ys, xs + zs)
    decreases |zs|
  {
    if zs != [] {
      var init := zs[..|zs| - 1];
      SubsequenceExtend(ys, xs, init);
      assert (xs + zs)[..|xs + zs| - 1] == xs + init;
    } else {
      assert xs + zs == xs;
    }
  }

  /** Every element of a subsequence is an element of the original. */
  lemma {:induction false} SubsequenceMembers(ys: seq<string>, xs: seq<string>)
    requires IsSubsequence(ys, xs)
    ensures forall k :: 0 <= k < |ys| ==> ys[k] in xs
    decreases |xs|
  {
    if ys != [] {
      var xi := xs[..|xs| - 1];
      if ys[|ys| - 1] == xs[|xs| - 1] && IsSubsequence(ys[..|ys| - 1], xi) {
        SubsequenceMembers(ys[..|ys| - 1], xi);
        forall k | 0 <= k < |ys| ensures ys[k] in xs {
          if k < |ys| - 1 {
            assert ys[k] == ys[..|ys| - 1][k];
            assert ys[k] in xi;
          }
        }
      } else {
        SubsequenceMembers(ys, xi);
      }
    }
  }

  lemma {:induction false} FilterBySubsequence(xs: seq<string>, keep: string -> bool)
    ensures IsSubsequence(FilterBy(xs, keep), xs)
    decreases |xs|
  {
    if xs != [] {
      var init := xs[..|xs| - 1];
      var r := FilterBy(xs, keep);
      FilterBySubsequence(init, keep);
      if keep(xs[|xs| - 1]) {
        assert r[|r| - 1] == xs[|xs| - 1];
        assert r[..|r| - 1] == FilterBy(init, keep);
      } else {
        assert r == FilterBy(init, keep);
      }
    }
  }

  /** Disambiguation only deletes and never reorders: the result is a subsequence of the
      input. */
  lemma FilteredIsSubsequence(xs: seq<string>, a: string)
    ensures IsSubsequence(FilteredLongVersions(xs, a), xs)
  {
    if AllSame(xs, Lower) {
      FirstIsSubsequence(xs);
    } else if AllSame(xs, GeneStrip) {
      FilterBySubsequence(xs, NotGeneSuffixed);
    } else {
      ByInitialsIsSubsequence(xs, a);
    }
  }

  lemma FirstIsSubsequence(xs: seq<string>)
    requires xs != []
    ensures IsSubsequence([xs[0]], xs)
  {
    SubsequenceRefl(xs[..1]);
    assert IsSubsequence([xs[0]], xs[..1]);
    SubsequenceExtend([xs[0]], xs[..1], xs[1..]);
    assert xs[..1] + xs[1..] == xs;
  }

  lemma ByInitialsIsSubsequence(xs: seq<string>, a: string)
    ensures IsSubsequence(ByInitials(xs, a), xs)
  {
    var k := FirstCovering(xs, a);
    var pre := xs[..k];
    var clean := FilterBy(pre, HasNoPunctuation);
    FilterBySubsequence(pre, HasNoPunctuation);
    if k < |xs| {
      SubsequenceThenAt(clean, xs, k);
    } else if clean != [] {
      assert pre == xs;
    } else {
      SubsequenceRefl(xs);
    }
  }

  /** A subsequence of the first `k` forms, followed by form `k`, is a subsequence of
      all of them. */
  lemma SubsequenceThenAt(ys: seq<string>, xs: seq<string>, k: nat)
    requires k < |xs| && IsSubsequence(ys, xs[..k])
    ensures IsSubsequence(ys + [xs[k]], xs)
  {
    SubsequenceSnoc(ys, xs[..k], xs[k]);
    assert xs[..k] + [xs[k]] == xs[..k + 1];
    SubsequencePrefix(ys + [xs[k]], xs, k + 1);
  }

  lemma SubsequenceSnoc(ys: seq<string>, xs: seq<string>, x: string)
    requires IsSubsequence(ys, xs)
    ensures IsSubsequence(ys + [x], xs + [x])
  {
    assert (ys + [x])[..|ys|] == ys;
    assert (xs + [x])[..|xs|] == xs;
  }

  /** A subsequence of a prefix is a subsequence of the whole. */
  lemma SubsequencePrefix(ys: seq<string>, xs: seq<string>, n: nat)
    requires n <= |xs| && IsSubsequence(ys, xs[..n])
    ensures IsSubsequence(ys, xs)
  {
    SubsequenceExtend(ys, xs[..n], xs[n..]);
    assert xs[..n] + xs[n..] == xs;
  }

  /** Forms that agree ignoring case collapse to the first one. */
  lemma FilteredSameIgnoringCase(xs: seq<string>, a: string)
    requires xs != [] && forall i :: 0 <= i < |xs| ==> Lower(xs[i]) == Lower(xs[0])
    ensures FilteredLongVersions(xs, a) == [xs[0]]
  {
  }

  /** In the covering branch, and when no form covers the initials, nothing retained
      means everything is returned. */
  lemma FilteredNoneRetained(xs: seq<string>, a: string)
    requires !AllSame(xs, Lower) && !AllSame(xs, GeneStrip)
    requires forall i :: 0 <= i < |xs| ==> !CoversInitials(xs[i], a) && !HasNoPunctuation(xs[i])
    ensures FilteredLongVersions(xs, a) == xs
  {
    FirstCoveringNone(xs, a);
    ByInitialsNone(xs, a);
    FilterByEmptyIff(xs, HasNoPunctuation);
  }

  /** The result is empty exactly when the input is empty, or when the forms agree after
      the `strip('gene')` (and not ignoring case) and every one of them ends in "gene". */
  lemma FilteredEmptyIff(xs: seq<string>, a: string)
    ensures FilteredLongVersions(xs, a) == [] <==>
      xs == [] ||
      (!AllSame(xs, Lower) && AllSame(xs, GeneStrip)
       && forall i :: 0 <= i < |xs| ==> EndsWith(xs[i], "gene"))
  {
    if xs != [] && !AllSame(xs, Lower) && AllSame(xs, GeneStrip) {
      FilterByEmptyIff(xs, NotGeneSuffixed);
    }
  }

  lemma {:induction false} FilterByEmptyIff(xs: seq<string>, keep: string -> bool)
    ensures FilterBy(xs, keep) == [] <==> forall i :: 0 <= i < |xs| ==> !keep(xs[i])
    decreases |xs|
  {
    if xs != [] {
      var init := xs[..|xs| - 1];
      FilterByEmptyIff(init, keep);
      assert forall i :: 0 <= i < |init| ==> init[i] == xs[i];
    }
  }

  /** The long form `replace_abbrevs` substitutes for an abbreviation with the recorded
      forms `lvs` (lines 189-196): the first form when they all agree ignoring case, the
      only filtered form when filtering leaves exactly one, and the first form otherwise. */
  function Resolve(lvs: seq<string>, a: string): string
    requires lvs != []
  {
    if AllSame(lvs, Lower) then lvs[0]
    else
      var f := FilteredLongVersions(lvs, a);
      if |f| == 1 then f[0] else lvs[0]
  }

  /** The substitute is always one of the abbreviation's own recorded forms. */
  lemma ResolveIsOwnForm(lvs: seq<string>, a: string)
    requires lvs != []
    ensures Resolve(lvs, a) in lvs
  {
    if !AllSame(lvs, Lower) {
      var f := FilteredLongVersions(lvs, a);
      if |f| == 1 {
        FilteredIsSubsequence(lvs, a);
        SubsequenceMembers(f, lvs);
      }
    }
  }
}
