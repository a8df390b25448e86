/** The `AbbrevMatcher` class (abbrev_matcher.py lines 23-201): a configuration fixed at
    construction, and the dictionary `data` that `match_abbrevs` grows and
    `replace_abbrevs` reads. */
module Matcher {
  import opened PyStrings
  import opened Scanner
  import opened Prefilters
  import opened LongForm
  import opened Disambiguation
  import opened Store

  /** What one bracket match of `text` contributes to `data` (lines 111-175): its
      candidate, if the candidate passes its prefilter, the walk keeps some tokens before
      the match, and the long form they make passes its own prefilter. */
  function Accept(cfg: Config, text: string, m: Match): Option<Entry>
    requires m.start <= m.end <= |text|
  {
    var c := Candidate(text[m.start..m.end]);
    if !PrefilterCandidate(cfg, c) then None
    else
      match LongVersion(text[..m.start], c[0], cfg.longVersionMax)
      case None => None
      case Some(lv) => if PrefilterLongVersion(lv, c) then Some(Entry(c, lv)) else None
  }

  predicate InText(text: string, ms: seq<Match>) {
    forall k :: 0 <= k < |ms| ==> ms[k].start <= ms[k].end <= |text|
  }

  /** The outcome of every match of `ms`, in order. */
  function Outcomes(cfg: Config, text: string, ms: seq<Match>): seq<Option<Entry>>
    requires InText(text, ms)
  {
    seq(|ms|, k requires 0 <= k < |ms| => Accept(cfg, text, ms[k]))
  }

  /** The entries among the outcomes, in order. */
  function Somes(os: seq<Option<Entry>>): seq<Entry>
    decreases |os|
  {
    if os == [] then []
    else Somes(os[..|os| - 1]) + (match os[|os| - 1] case Some(e) => [e] case None => [])
  }

  /** The entries of the first `i + 1` outcomes. */
  lemma SomesStep(os: seq<Option<Entry>>, i: nat)
    requires i < |os|
    ensures os[i].Some? ==> Somes(os[..i + 1]) == Somes(os[..i]) + [os[i].value]
    ensures os[i].None? ==> Somes(os[..i + 1]) == Somes(os[..i])
  {
    var os1 := os[..i + 1];
    assert os1[..|os1| - 1] == os[..i] && os1[|os1| - 1] == os[i];
    assert Somes(os[..i]) + [] == Somes(os[..i]);
  }

  /** Every entry comes from one of the outcomes. */
  lemma {:induction false} SomesOrigin(os: seq<Option<Entry>>, k: nat)
    requires k < |Somes(os)|
    ensures exists q :: 0 <= q < |os| && os[q] == Some(Somes(os)[k])
    decreases |os|
  {
    var init := os[..|os| - 1];
    if k < |Somes(init)| {
      SomesOrigin(init, k);
      var q :| 0 <= q < |init| && init[q] == Some(Somes(init)[k]);
      assert os[q] == init[q];
    } else {
      assert os[|os| - 1] == Some(Somes(os)[k]);
    }
  }

  /** For a match whose candidate passes, the outcome is decided by the tokens the walk
      keeps and by the long-form prefilter. */
  lemma AcceptByWalk(cfg: Config, text: string, m: Match, exList: seq<string>)
    requires m.start <= m.end <= |text|
    requires var c := Candidate(text[m.start..m.end]);
      PrefilterCandidate(cfg, c)
      && exList == Walk(Reverse(SplitTokens(text[..m.start])), c[0], cfg.longVersionMax)
    ensures var c := Candidate(text[m.start..m.end]);
      Accept(cfg, text, m) ==
        if exList == [] then None
        else
          var lv := Strip(Join(Reverse(exList), " "), Punctuation);
          if PrefilterLongVersion(lv, c) then Some(Entry(c, lv)) else None
  {
  }

  /** Everything one call of `match_abbrevs` on `text` records, in order. */
  function Discover(cfg: Config, text: string): seq<Entry> {
    Somes(Outcomes(cfg, text, FindIter(text, 0)))
  }

  /** Both prefilters accept the entry. */
  predicate Passes(cfg: Config, e: Entry) {
    PrefilterCandidate(cfg, e.abbrev) && PrefilterLongVersion(e.longVersion, e.abbrev)
  }

  /** Every recorded abbreviation and every long form recorded for it passed the
      prefilters. */
  predicate Sound(cfg: Config, ix: Index) {
    forall k {:trigger ix.data[k]} :: k in ix.data ==> PrefilterCandidate(cfg, k) && AllPass(ix.data[k], k)
  }

  /** Every long form in `lvs` passed the long-form prefilter for abbreviation `k`. */
  predicate AllPass(lvs: seq<string>, k: string) {
    forall j :: 0 <= j < |lvs| ==> PrefilterLongVersion(lvs[j], k)
  }

  lemma AllPassSnoc(lvs: seq<string>, lv: string, k: string)
    requires AllPass(lvs, k) && PrefilterLongVersion(lv, k)
    ensures AllPass(lvs + [lv], k)
  {
    forall j | 0 <= j < |lvs| + 1 ensures PrefilterLongVersion((lvs + [lv])[j], k) {
      if j < |lvs| {
        assert (lvs + [lv])[j] == lvs[j];
      }
    }
  }

  /** Every entry a text yields passed both prefilters, and comes from one of the
      reported bracket matches. */
  lemma DiscoverSound(cfg: Config, text: string, k: nat)
    requires k < |Discover(cfg, text)|
    ensures var e := Discover(cfg, text)[k];
      && Passes(cfg, e)
      && exists q :: 0 <= q < |FindIter(text, 0)| && Accept(cfg, text, FindIter(text, 0)[q]) == Some(e)
  {
    var ms := FindIter(text, 0);
    var os := Outcomes(cfg, text, ms);
    SomesOrigin(os, k);
    var q :| 0 <= q < |os| && os[q] == Some(Discover(cfg, text)[k]);
    assert Accept(cfg, text, ms[q]) == Some(Discover(cfg, text)[k]);
  }

  /** An accepted entry has the candidate of its match as abbreviation and, as long
      form, the walk over the tokens before the match anchored at the candidate's
      first character. */
  lemma AcceptShape(cfg: Config, text: string, m: Match)
    requires m.start <= m.end <= |text|
    requires Accept(cfg, text, m).Some?
    ensures var e := Accept(cfg, text, m).value;
      && e.abbrev == Candidate(text[m.start..m.end])
      && e.abbrev != []
      && LongVersion(text[..m.start], e.abbrev[0], cfg.longVersionMax) == Some(e.longVersion)
  {
  }

  /** Adding an entry that passes the prefilters keeps `data` sound. */
  lemma AddSound(cfg: Config, ix: Index, e: Entry)
    requires Sound(cfg, ix) && Passes(cfg, e)
    ensures Sound(cfg, Add(ix, e))
  {
    if e.abbrev in ix.data {
      AllPassSnoc(ix.data[e.abbrev], e.longVersion, e.abbrev);
    } else {
      assert AllPass([e.longVersion], e.abbrev);
    }
  }

  lemma {:induction false} AddAllSound(cfg: Config, ix: Index, es: seq<Entry>)
    requires Sound(cfg, ix)
    requires forall k :: 0 <= k < |es| ==> Passes(cfg, es[k])
    ensures Sound(cfg, AddAll(ix, es))
    decreases |es|
  {
    if es != [] {
      var init := es[..|es| - 1];
      assert forall k :: 0 <= k < |init| ==> init[k] == es[k];
      AddAllSound(cfg, ix, init);
      AddSound(cfg, AddAll(ix, init), es[|es| - 1]);
    }
  }

  lemma DiscoverPasses(cfg: Config, text: string)
    ensures forall k :: 0 <= k < |Discover(cfg, text)| ==> Passes(cfg, Discover(cfg, text)[k])
  {
    forall k | 0 <= k < |Discover(cfg, text)| ensures Passes(cfg, Discover(cfg, text)[k]) {
      DiscoverSound(cfg, text, k);
    }
  }

  /** Recording what a text yields keeps `data` well formed and sound. */
  lemma DiscoverKeepsValid(cfg: Config, ix: Index, text: string)
    requires WellFormed(ix) && Sound(cfg, ix)
    ensures WellFormed(AddAll(ix, Discover(cfg, text))) && Sound(cfg, AddAll(ix, Discover(cfg, text)))
  {
    AddAllWellFormed(ix, Discover(cfg, text));
    DiscoverPasses(cfg, text);
    AddAllSound(cfg, ix, Discover(cfg, text));
  }

  /** The keys in `ks` are all recorded with at least one long form. */
  predicate Recorded(ks: seq<string>, data: map<string, seq<string>>) {
    forall i :: 0 <= i < |ks| ==> ks[i] in data && data[ks[i]] != []
  }

  /** Lines 188-196: each abbreviation of `ks`, in order, is replaced everywhere in the
      text by the long form chosen for it. */
  function SubstituteAll(s: string, ks: seq<string>, data: map<string, seq<string>>): string
    requires Recorded(ks, data)
    decreases |ks|
  {
    if ks == [] then s
    else
      var k := ks[|ks| - 1];
      Replace(SubstituteAll(s, ks[..|ks| - 1], data), k, Resolve(data[k], k))
  }

  /** One turn of the loop of lines 188-196. */
  lemma SubstituteStep(s0: string, ks: seq<string>, i: nat, data: map<string, seq<string>>, s: string)
    requires Recorded(ks, data) && i < |ks|
    requires Recorded(ks[..i], data) && s == SubstituteAll(s0, ks[..i], data)
    ensures Recorded(ks[..i + 1], data)
    ensures Replace(s, ks[i], Resolve(data[ks[i]], ks[i])) == SubstituteAll(s0, ks[..i + 1], data)
  {
    var ks1 := ks[..i + 1];
    forall j | 0 <= j < |ks1| ensures ks1[j] in data && data[ks1[j]] != [] {
      assert ks1[j] == ks[j];
    }
    assert ks1[..i] == ks[..i];
  }

  /** A text in which no recorded abbreviation occurs comes back unchanged. */
  lemma {:induction false} SubstituteAbsent(s: string, ks: seq<string>, data: map<string, seq<string>>)
    requires Recorded(ks, data)
    requires forall i :: 0 <= i < |ks| ==> ks[i] != [] && !IsSubstring(ks[i], s)
    ensures SubstituteAll(s, ks, data) == s
    decreases |ks|
  {
    if ks != [] {
      var k := ks[|ks| - 1];
      SubstituteAbsent(s, ks[..|ks| - 1], data);
      ReplaceAbsent(s, k, Resolve(data[k], k));
    }
  }

  /** Each abbreviation is replaced by one of its own recorded long forms. */
  lemma SubstituteUsesOwnForms(ks: seq<string>, data: map<string, seq<string>>)
    requires Recorded(ks, data)
    ensures forall i :: 0 <= i < |ks| ==> Resolve(data[ks[i]], ks[i]) in data[ks[i]]
  {
    forall i | 0 <= i < |ks| ensures Resolve(data[ks[i]], ks[i]) in data[ks[i]] {
      ResolveIsOwnForm(data[ks[i]], ks[i]);
    }
  }

  /** Every abbreviation `data` can hold is a non-empty string. */
  lemma SoundKeysNonEmpty(cfg: Config, ix: Index)
    requires Sound(cfg, ix)
    ensures forall k :: k in ix.data ==> k != []
  {
    forall k | k in ix.data ensures k != [] {
      assert PrefilterCandidate(cfg, k);
    }
  }

  /** The body of the loop of lines 110-175 for one match `m`: the candidate, its
      prefilter, the backward walk over the tokens before the match, the long form and
      its prefilter. Each `continue` of the source gives `None`. */
  method MatchOutcome(cfg: Config, textString: string, m: Match) returns (found: Option<Entry>)
    requires m.start <= m.end <= |textString|
    ensures found == Accept(cfg, textString, m)
    ensures found.Some? ==> Passes(cfg, found.value)
  {
    var abbrevCandidate := Candidate(textString[m.start..m.end]);
    if !PrefilterCandidate(cfg, abbrevCandidate) {
      return None;
    }
    var startChar := abbrevCandidate[0];
    var abbrevOffset := m.start;
    var preString := textString[..abbrevOffset];
    var preStringListRev := Reverse(SplitTokens(preString));
    var exList := WalkTokens(preStringListRev, startChar, cfg.longVersionMax);
    AcceptByWalk(cfg, textString, m, exList);
    if exList == [] {
      return None;
    }
    var longVersion := Strip(Join(Reverse(exList), " "), Punctuation);
    if !PrefilterLongVersion(longVersion, abbrevCandidate) {
      return None;
    }
    return Some(Entry(abbrevCandidate, longVersion));
  }

  class AbbrevMatcher {
    const config: Config
    var data: map<string, seq<string>>
    /** The keys of `data` in insertion order, which `data.items()` follows. */
    var order: seq<string>

    function Current(): Index
      reads this
    {
      Index(data, order)
    }

    ghost predicate Valid()
      reads this
    {
      WellFormed(Current()) && Sound(config, Current())
    }

    /** Lines 24-34. The pattern of line 26 is the fixed scanner of `FindIter`. */
    constructor (minLen: int := 2, maxLen: int := 4, longVersionMax: int := 7,
                 abbrevExclude: seq<string> := [], debug: bool := false)
      ensures config == Config(minLen, maxLen, longVersionMax, abbrevExclude, debug)
      ensures Current() == Empty
      ensures Valid()
    {
      config := Config(minLen, maxLen, longVersionMax, abbrevExclude, debug);
      data := map[];
      order := [];
    }

    /** Lines 180-181: `data` is emptied. */
    method ClearCache()
      modifies this
      ensures Current() == Empty
      ensures Valid()
    {
      data := map[];
      order := [];
    }

    /** Lines 98-178: every bracket match of the text, in order, adds its entry to
        `data`; entries found by earlier calls stay. The result is `data` itself. */
    method MatchAbbrevs(textString: string) returns (r: map<string, seq<string>>)
      requires Valid()
      modifies this
      ensures Valid()
      ensures Current() == AddAll(old(Current()), Discover(config, textString))
      ensures r == data
    {
      ghost var ix0 := Current();
      var ms := FindIter(textString, 0);
      ghost var os := Outcomes(config, textString, ms);
      ghost var es: seq<Entry> := [];
      var i := 0;
      while i < |ms|
        invariant 0 <= i <= |ms|
        invariant es == Somes(os[..i])
        invariant Current() == AddAll(ix0, es)
        invariant Valid()
      {
        SomesStep(os, i);
        var found := MatchOutcome(config, textString, ms[i]);
        assert found == os[i];
        if found.Some? {
          AddAllSnoc(ix0, es, found.value);
          Record(found.value.abbrev, found.value.longVersion);
          es := es + [found.value];
        }
        i := i + 1;
      }
      assert os[..i] == os;
      r := data;
    }

    /** Lines 172-175: a new abbreviation gets a one-element list and joins the end
        of the key order; a known one has the long form appended to its list. An entry
        that passed both prefilters keeps `data` valid. */
    method Record(abbrevCandidate: string, longVersion: string)
      requires Valid() && Passes(config, Entry(abbrevCandidate, longVersion))
      modifies this
      ensures Current() == Add(old(Current()), Entry(abbrevCandidate, longVersion))
      ensures Valid()
    {
      AddWellFormed(Current(), Entry(abbrevCandidate, longVersion));
      AddSound(config, Current(), Entry(abbrevCandidate, longVersion));
      if abbrevCandidate !in data {
        data := data[abbrevCandidate := [longVersion]];
        order := order + [abbrevCandidate];
      } else {
        data := data[abbrevCandidate := data[abbrevCandidate] + [longVersion]];
      }
    }

    /** Lines 183-201: `None` gives `None` and leaves `data` alone. Otherwise the text
        is first scanned (so its own abbreviations join `data`, which is not cleared),
        then every abbreviation in `data`, in insertion order, is replaced by the long
        form chosen for it. */
    method ReplaceAbbrevs(instring: Option<string>) returns (r: Option<string>)
      requires Valid()
      modifies this
      ensures Valid()
      ensures instring.None? ==> r.None? && Current() == old(Current())
      ensures instring.Some? ==>
        && Current() == AddAll(old(Current()), Discover(config, instring.value))
        && Recorded(order, data)
        && r == Some(SubstituteAll(instring.value, order, data))
    {
      if instring.None? {
        return None;
      }
      var s := instring.value;
      var _ := MatchAbbrevs(s);
      assert Recorded(order, data);
      ghost var scanned := Current();
      var i := 0;
      while i < |order|
        invariant Current() == scanned
        invariant 0 <= i <= |order|
        invariant Recorded(order[..i], data)
        invariant s == SubstituteAll(instring.value, order[..i], data)
      {
        var abbrev := order[i];
        var longVersions := data[abbrev];
        SubstituteStep(instring.value, order, i, data, s);
        ImageSetSingleton(longVersions, Lower);
        if |ImageSet(longVersions, Lower)| == 1 {
          s := Replace(s, abbrev, longVersions[0]);
        } else {
          var filteredLongVersions := FilterLongVersionList(longVersions, abbrev);
          if |filteredLongVersions| == 1 {
            s := Replace(s, abbrev, filteredLongVersions[0]);
          } else {
            s := Replace(s, abbrev, longVersions[0]);
          }
        }
        i := i + 1;
      }
      assert order[..i] == order;
      r := Some(s);
    }
  }
}
