/** The long-form reconstructor of `match_abbrevs` (abbrev_matcher.py lines 117-166):
    the text before a candidate is cut into tokens, and the tokens are walked from the
    nearest one backwards until a token starting with the candidate's first character
    is found. */
module LongForm {
  import opened PyStrings

  /** The class `[\/\s-]` of `re.split`. */
  predicate IsSeparator(c: char) {
    c == '/' || c == '-' || IsSpace(c)
  }

  /** `re.split('[\/\s-]', s)`: a cut at every single separator character, so that
      neighbouring separators leave empty tokens between them. */
  function SplitTokens(s: string): (ts: seq<string>)
    ensures |ts| >= 1
    decreases |s|
  {
    if s == [] then [[]]
    else
      var ts := SplitTokens(s[..|s| - 1]);
      var c := s[|s| - 1];
      if IsSeparator(c) then ts + [[]]
      else ts[..|ts| - 1] + [ts[|ts| - 1] + [c]]
  }

  /** No token holds a separator character. */
  predicate NoSeparators(ts: seq<string>) {
    forall k, j :: 0 <= k < |ts| && 0 <= j < |ts[k]| ==> !IsSeparator(ts[k][j])
  }

  lemma {:induction false} SplitTokensNoSeparator(s: string)
    ensures NoSeparators(SplitTokens(s))
    decreases |s|
  {
    if s != [] {
      var ts := SplitTokens(s[..|s| - 1]);
      var c := s[|s| - 1];
      SplitTokensNoSeparator(s[..|s| - 1]);
      if !IsSeparator(c) {
        var n := |ts| - 1;
        var last := ts[n] + [c];
        var us := ts[..n] + [last];
        assert SplitTokens(s) == us;
        forall k, j | 0 <= k < |us| && 0 <= j < |us[k]| ensures !IsSeparator(us[k][j]) {
          if k < n {
            assert us[k][j] == ts[k][j];
          } else if j < |ts[n]| {
            assert us[k][j] == ts[n][j];
          } else {
            assert us[k][j] == c;
          }
        }
      } else {
        var us := ts + [[]];
        assert SplitTokens(s) == us;
        forall k, j | 0 <= k < |us| && 0 <= j < |us[k]| ensures !IsSeparator(us[k][j]) {
          assert k < |ts| && us[k][j] == ts[k][j];
        }
      }
    }
  }

  /** `s` with every separator character replaced by a space, built one character at a
      time as `SplitTokens` reads it: separators become spaces, and every other
      character stays where it was. */
  function SeparatorsAsSpaces(s: string): (r: string)
    ensures |r| == |s|
    ensures forall i :: 0 <= i < |s| ==> r[i] == if IsSeparator(s[i]) then ' ' else s[i]
    decreases |s|
  {
    if s == [] then []
    else
      var c := s[|s| - 1];
      SeparatorsAsSpaces(s[..|s| - 1]) + [if IsSeparator(c) then ' ' else c]
  }

  lemma JoinAppendToLast(ts: seq<string>, c: char)
    requires |ts| >= 1
    ensures Join(ts[..|ts| - 1] + [ts[|ts| - 1] + [c]], " ") == Join(ts, " ") + [c]
  {
    var us := ts[..|ts| - 1] + [ts[|ts| - 1] + [c]];
    if |ts| > 1 {
      assert us[..|us| - 1] == ts[..|ts| - 1];
    }
  }

  /** Joining the tokens with single spaces gives back the text with each separator
      turned into a space: no character is lost, and each separator makes one cut.
      Together with the token contract (no token holds a separator) this pins the
      tokens down completely. */
  lemma {:induction false} JoinSplitTokens(s: string)
    ensures Join(SplitTokens(s), " ") == SeparatorsAsSpaces(s)
    decreases |s|
  {
    if s != [] {
      var init := s[..|s| - 1];
      var c := s[|s| - 1];
      var ts := SplitTokens(init);
      JoinSplitTokens(init);
      if IsSeparator(c) {
        var us := ts + [[]];
        assert us[..|us| - 1] == ts;
        assert Join(us, " ") == Join(ts, " ") + " " + [];
      } else {
        JoinAppendToLast(ts, c);
      }
    }
  }

  /** Text without separators extends the last token. */
  lemma {:induction false} SplitTokensAppendWord(s: string, w: string)
    requires forall j :: 0 <= j < |w| ==> !IsSeparator(w[j])
    ensures var ts := SplitTokens(s);
      SplitTokens(s + w) == ts[..|ts| - 1] + [ts[|ts| - 1] + w]
    decreases |w|
  {
    var ts := SplitTokens(s);
    var n := |ts| - 1;
    if w == [] {
      assert s + w == s;
      assert ts[n] + w == ts[n];
      assert ts[..n] + [ts[n]] == ts;
    } else {
      var w0 := w[..|w| - 1];
      var c := w[|w| - 1];
      SplitTokensAppendWord(s, w0);
      var us := SplitTokens(s + w0);
      assert |us| == n + 1 && us[..n] == ts[..n] && us[n] == ts[n] + w0;
      SplitTokensSnoc(s + w0, c);
      assert w0 + [c] == w;
      AppendAssoc(s, w0, [c]);
      AppendAssoc(ts[n], w0, [c]);
    }
  }

  /** A character that is not a separator extends the last token. */
  lemma SplitTokensSnoc(s: string, c: char)
    requires !IsSeparator(c)
    ensures var ts := SplitTokens(s);
      SplitTokens(s + [c]) == ts[..|ts| - 1] + [ts[|ts| - 1] + [c]]
  {
    var sc := s + [c];
    assert sc[..|sc| - 1] == s;
  }

  /** A separator followed by text without separators adds exactly one token. */
  lemma SplitTokensAppend(s: string, c: char, w: string)
    requires IsSeparator(c)
    requires forall j :: 0 <= j < |w| ==> !IsSeparator(w[j])
    ensures SplitTokens(s + [c] + w) == SplitTokens(s) + [w]
  {
    var sc := s + [c];
    assert sc[..|sc| - 1] == s && sc[|sc| - 1] == c;
    var ts := SplitTokens(sc);
    assert ts == SplitTokens(s) + [[]];
    SplitTokensAppendWord(sc, w);
    var n := |ts| - 1;
    assert ts[..n] == SplitTokens(s) && ts[n] == [];
    assert ts[n] + w == w;
  }

  /** `w.lower() in stopwords` */
  predicate IsStopword(w: string) {
    Lower(w) == "and" || Lower(w) == "also"
  }

  /** A token initial compared with the anchor `start_char`, ignoring case. */
  predicate SameInitial(c: char, anchor: char) {
    LowerChar(c) == LowerChar(anchor)
  }

  /** `first_before_start == start_char.lower()`: the raw first character of the
      token next to the bracket (not stripped of punctuation); no character at all
      (`None`) never matches. */
  predicate FirstBeforeMatches(w0: string, anchor: char) {
    w0 != [] && LowerChar(w0[0]) == LowerChar(anchor)
  }

  /** The token at `q` ends the walk: after stripping punctuation it starts with the
      anchor, and it is not a stopword. */
  predicate AnchorStopAt(rev: seq<string>, anchor: char, q: nat)
    requires q < |rev|
  {
    var t := Strip(rev[q], Punctuation);
    t != [] && SameInitial(t[0], anchor) && !IsStopword(rev[q])
  }

  /** The eight-token fallback fires at `q` if the walk gets there without stopping. */
  predicate FallbackAt(rev: seq<string>, anchor: char, q: nat)
    requires q < |rev|
  {
    q >= 7 && Strip(rev[q], Punctuation) != [] && FirstBeforeMatches(rev[0], anchor)
  }

  /** What a token that does not end the walk adds to the kept tokens: nothing if it is
      only punctuation; itself twice if it is a stopword starting with the anchor (once
      on the anchor test, once more on falling through); otherwise itself once. */
  function Contribution(w: string, anchor: char): seq<string> {
    var t := Strip(w, Punctuation);
    if t == [] then [] else if SameInitial(t[0], anchor) then [w, w] else [w]
  }

  /** The last token is not only punctuation, so reaching it runs the end test of lines
      157-161. */
  predicate LastAt(rev: seq<string>, q: nat)
    requires q < |rev|
  {
    q == |rev| - 1 && Strip(rev[q], Punctuation) != []
  }

  /** The loop at lines 129-163 from position `pos` on, with `ex` the tokens kept so
      far; the result is `ex_list` when the loop is left. A token ends the walk by
      stopping at the anchor, by the eight-token fallback, or by being the last one;
      any other token adds its contribution and the walk goes on. */
  function WalkFrom(rev: seq<string>, anchor: char, lvMax: int, pos: nat, ex: seq<string>): seq<string>
    requires 1 <= pos <= |rev|
    decreases |rev| - pos
  {
    if pos == |rev| then ex
    else if AnchorStopAt(rev, anchor, pos) then ex + [rev[pos]]
    else if FallbackAt(rev, anchor, pos) then [rev[0]]
    else if LastAt(rev, pos) then (if pos <= lvMax then [rev[0]] else [])
    else WalkFrom(rev, anchor, lvMax, pos + 1, ex + Contribution(rev[pos], anchor))
  }

  /** The tokens the walk keeps for the reversed token list `rev` (nearest first); the
      token next to the bracket is always taken first. */
  function Walk(rev: seq<string>, anchor: char, lvMax: int): seq<string> {
    if rev == [] then [] else WalkFrom(rev, anchor, lvMax, 1, [rev[0]])
  }

  /** The loop itself (lines 127-163), with its `continue`s and `break`s. */
  method WalkTokens(rev: seq<string>, startChar: char, longVersionMax: int) returns (exList: seq<string>)
    ensures exList == Walk(rev, startChar, longVersionMax)
  {
    exList := [];
    var firstBeforeStart: Option<char> := None;
    var pos := 0;
    while pos < |rev|
      invariant 0 <= pos <= |rev|
      invariant pos == 0 ==> exList == []
      invariant pos >= 1 ==> firstBeforeStart == if rev[0] != [] then Some(LowerChar(rev[0][0])) else None
      invariant pos >= 1 ==> Walk(rev, startChar, longVersionMax) == WalkFrom(rev, startChar, longVersionMax, pos, exList)
    {
      var w := rev[pos];
      if pos == 0 {
        firstBeforeStart := if w != [] then Some(LowerChar(w[0])) else None;
        exList := exList + [w];
        assert exList == [rev[0]];
        pos := pos + 1;
        continue;
      }
      ghost var ex0 := exList;
      var wTest := Strip(w, Punctuation);
      if wTest == [] {
        assert exList + Contribution(w, startChar) == exList;
        pos := pos + 1;
        continue;
      }
      var wordStart := wTest[0];
      if LowerChar(wordStart) == LowerChar(startChar) {
        exList := exList + [w];
        if !IsStopword(w) {
          assert AnchorStopAt(rev, startChar, pos);
          break;
        }
      }
      assert !AnchorStopAt(rev, startChar, pos);
      if pos >= 7 && firstBeforeStart == Some(LowerChar(startChar)) {
        assert FallbackAt(rev, startChar, pos);
        exList := [rev[0]];
        break;
      }
      assert !FallbackAt(rev, startChar, pos);
      if pos == |rev| - 1 {
        assert LastAt(rev, pos);
        if pos <= longVersionMax {
          exList := [rev[0]];
        } else {
          exList := [];
        }
        assert WalkFrom(rev, startChar, longVersionMax, pos + 1, exList) == exList;
      } else {
        exList := exList + [w];
        assert exList == ex0 + Contribution(w, startChar);
      }
      pos := pos + 1;
    }
  }

  /** What the tokens at positions `lo` up to (not including) `hi` contribute. */
  function Kept(rev: seq<string>, anchor: char, lo: nat, hi: nat): seq<string>
    requires lo <= hi <= |rev|
    decreases hi - lo
  {
    if lo == hi then [] else Contribution(rev[lo], anchor) + Kept(rev, anchor, lo + 1, hi)
  }

  lemma AppendAssoc<T>(a: seq<T>, b: seq<T>, c: seq<T>)
    ensures a + b + c == a + (b + c)
  {
  }

  lemma {:induction false} WalkFromAnchorStop(rev: seq<string>, anchor: char, lvMax: int, pos: nat, ex: seq<string>, p: nat)
    requires 1 <= pos <= p < |rev|
    requires AnchorStopAt(rev, anchor, p)
    requires forall q :: pos <= q < p ==> !AnchorStopAt(rev, anchor, q) && !FallbackAt(rev, anchor, q)
    ensures WalkFrom(rev, anchor, lvMax, pos, ex) == ex + Kept(rev, anchor, pos, p) + [rev[p]]
    decreases p - pos
  {
    if pos < p {
      var c := Contribution(rev[pos], anchor);
      assert !AnchorStopAt(rev, anchor, pos) && !FallbackAt(rev, anchor, pos) && !LastAt(rev, pos);
      WalkFromAnchorStop(rev, anchor, lvMax, pos + 1, ex + c, p);
      AppendAssoc(ex, c, Kept(rev, anchor, pos + 1, p));
    }
  }

  /** Anchor stop: when the first token (from position 1 on) that starts with the
      anchor and is not a stopword is at `p`, and the eight-token fallback has not
      fired before it, the walk keeps the token next to the bracket, then what every
      token in between contributes, then the token at `p`. */
  lemma AnchorStop(rev: seq<string>, anchor: char, lvMax: int, p: nat)
    requires 1 <= p < |rev|
    requires AnchorStopAt(rev, anchor, p)
    requires forall q :: 1 <= q < p ==> !AnchorStopAt(rev, anchor, q) && !FallbackAt(rev, anchor, q)
    ensures Walk(rev, anchor, lvMax) == [rev[0]] + Kept(rev, anchor, 1, p) + [rev[p]]
  {
    WalkFromAnchorStop(rev, anchor, lvMax, 1, [rev[0]], p);
  }

  lemma {:induction false} WalkFromFallback(rev: seq<string>, anchor: char, lvMax: int, pos: nat, ex: seq<string>, q: nat)
    requires 1 <= pos <= q < |rev|
    requires FallbackAt(rev, anchor, q) && !AnchorStopAt(rev, anchor, q)
    requires forall j :: pos <= j < q ==> !AnchorStopAt(rev, anchor, j)
    ensures WalkFrom(rev, anchor, lvMax, pos, ex) == [rev[0]]
    decreases q - pos
  {
    if pos < q && !FallbackAt(rev, anchor, pos) {
      assert !AnchorStopAt(rev, anchor, pos) && !LastAt(rev, pos);
      WalkFromFallback(rev, anchor, lvMax, pos + 1, ex + Contribution(rev[pos], anchor), q);
    }
  }

  /** Eight-token fallback: when the token next to the bracket already starts with the
      anchor and the walk reaches position 7 or beyond on a token that is not only
      punctuation and does not stop it, only the token next to the bracket is kept. */
  lemma Fallback(rev: seq<string>, anchor: char, lvMax: int, q: nat)
    requires 1 <= q < |rev|
    requires FallbackAt(rev, anchor, q) && !AnchorStopAt(rev, anchor, q)
    requires forall j :: 1 <= j < q ==> !AnchorStopAt(rev, anchor, j)
    ensures Walk(rev, anchor, lvMax) == [rev[0]]
  {
    WalkFromFallback(rev, anchor, lvMax, 1, [rev[0]], q);
  }

  lemma {:induction false} WalkFromToEnd(rev: seq<string>, anchor: char, lvMax: int, pos: nat, ex: seq<string>)
    requires 1 <= pos <= |rev|
    requires forall j :: pos <= j < |rev| ==> !AnchorStopAt(rev, anchor, j) && !FallbackAt(rev, anchor, j)
    ensures WalkFrom(rev, anchor, lvMax, pos, ex) ==
      if pos < |rev| && LastAt(rev, |rev| - 1)
      then (if |rev| - 1 <= lvMax then [rev[0]] else [])
      else ex + Kept(rev, anchor, pos, |rev|)
    decreases |rev| - pos
  {
    if pos < |rev| && !LastAt(rev, pos) {
      assert !AnchorStopAt(rev, anchor, pos) && !FallbackAt(rev, anchor, pos);
      var c := Contribution(rev[pos], anchor);
      WalkFromToEnd(rev, anchor, lvMax, pos + 1, ex + c);
      AppendAssoc(ex, c, Kept(rev, anchor, pos + 1, |rev|));
      if pos + 1 == |rev| {
        assert c == [];
      }
    }
  }

  /** End of the tokens: when no token stops the walk and the fallback never fires, the
      last token decides. If it is not only punctuation, the walk keeps just the token next
      to the bracket when at most `long_version_max` tokens came after it, and nothing
      otherwise; if it is only punctuation it is skipped and everything kept so far
      stays. */
  lemma ReachesEnd(rev: seq<string>, anchor: char, lvMax: int)
    requires |rev| >= 2
    requires forall j :: 1 <= j < |rev| ==> !AnchorStopAt(rev, anchor, j) && !FallbackAt(rev, anchor, j)
    ensures Walk(rev, anchor, lvMax) ==
      if Strip(rev[|rev| - 1], Punctuation) != []
      then (if |rev| - 1 <= lvMax then [rev[0]] else [])
      else [rev[0]] + Kept(rev, anchor, 1, |rev|)
  {
    WalkFromToEnd(rev, anchor, lvMax, 1, [rev[0]]);
  }

  lemma {:induction false} WalkFromKeepsFirst(rev: seq<string>, anchor: char, lvMax: int, pos: nat, ex: seq<string>)
    requires 1 <= pos <= |rev|
    requires ex != [] && ex[0] == rev[0]
    ensures var r := WalkFrom(rev, anchor, lvMax, pos, ex);
      (r != [] ==> r[0] == rev[0]) && (r == [] ==> |rev| - 1 > lvMax)
    decreases |rev| - pos
  {
    if pos < |rev| && !AnchorStopAt(rev, anchor, pos) && !FallbackAt(rev, anchor, pos) && !LastAt(rev, pos) {
      WalkFromKeepsFirst(rev, anchor, lvMax, pos + 1, ex + Contribution(rev[pos], anchor));
    }
  }

  /** The token next to the bracket is always the first one kept, and the walk keeps
      nothing only when it ran to the end of more than `long_version_max` further
      tokens. */
  lemma WalkKeepsFirst(rev: seq<string>, anchor: char, lvMax: int)
    requires rev != []
    ensures var r := Walk(rev, anchor, lvMax);
      (r != [] ==> r[0] == rev[0]) && (r == [] ==> |rev| - 1 > lvMax)
  {
    WalkFromKeepsFirst(rev, anchor, lvMax, 1, [rev[0]]);
  }

  /** Lines 118-124 and 165-166: the long form for a candidate whose match starts after
      `pre`, if the walk keeps anything: the kept tokens in reading order, joined by
      single spaces, with punctuation stripped from both ends. */
  function LongVersion(pre: string, anchor: char, lvMax: int): Option<string> {
    var ex := Walk(Reverse(SplitTokens(pre)), anchor, lvMax);
    if ex == [] then None else Some(Strip(Join(Reverse(ex), " "), Punctuation))
  }

  /** The anchor stop phrased on the text: the long form reads from the anchor token
      through the kept tokens in between to the token next to the bracket. */
  lemma LongVersionAtAnchor(pre: string, anchor: char, lvMax: int, p: nat)
    requires var rev := Reverse(SplitTokens(pre));
      1 <= p < |rev| && AnchorStopAt(rev, anchor, p)
      && forall q :: 1 <= q < p ==> !AnchorStopAt(rev, anchor, q) && !FallbackAt(rev, anchor, q)
    ensures var rev := Reverse(SplitTokens(pre));
      LongVersion(pre, anchor, lvMax)
      == Some(Strip(Join([rev[p]] + Reverse(Kept(rev, anchor, 1, p)) + [rev[0]], " "), Punctuation))
  {
    var rev := Reverse(SplitTokens(pre));
    var k := Kept(rev, anchor, 1, p);
    AnchorStop(rev, anchor, lvMax, p);
    ReverseAround(rev[0], k, rev[p]);
  }

  lemma ReverseAround(x: string, k: seq<string>, y: string)
    ensures Reverse([x] + k + [y]) == [y] + Reverse(k) + [x]
  {
  }
}
