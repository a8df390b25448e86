/** The candidate locator: every match of the fixed pattern `\s?\([^\)^\(\)]+\)[^\w]`
    (abbrev_matcher.py line 26), found left to right as `re.finditer` does, and the
    abbreviation candidate cut out of each match (line 111). */
module Scanner {
  import opened PyStrings

  /** One match: `start` is `m.start()`, which includes the optional leading
      whitespace, and `end` is `m.end()`, just after the trailing non-word character. */
  datatype Match = Match(start: nat, end: nat)

  /** The bracket contents class `[^\)^\(\)]`: anything except `(`, `)` and `^`. */
  predicate IsBodyChar(c: char) {
    c != '(' && c != ')' && c != '^'
  }

  /** The end of the longest run of bracket-content characters starting at `j`. */
  function BodyEnd(text: string, j: nat): (k: nat)
    requires j <= |text|
    ensures j <= k <= |text|
    ensures forall m :: j <= m < k ==> IsBodyChar(text[m])
    ensures k < |text| ==> !IsBodyChar(text[k])
    decreases |text| - j
  {
    if j < |text| && IsBodyChar(text[j]) then BodyEnd(text, j + 1) else j
  }

  /** `\([^\)^\(\)]+\)[^\w]` tried at position `j`: the end of the match, if any. The
      content run cannot contain `)`, so the greedy `+` has nothing to backtrack to. */
  function BracketAt(text: string, j: nat): (r: Option<nat>)
    ensures r.Some? ==> j + 4 <= r.value <= |text|
  {
    if j < |text| && text[j] == '(' then
      var k := BodyEnd(text, j + 1);
      if j + 1 < k && k + 1 < |text| && text[k] == ')' && !IsWordChar(text[k + 1])
      then Some(k + 2)
      else None
    else None
  }

  /** The whole pattern tried at position `i`. The greedy `\s?` first takes a whitespace
      character; without it the match would have to start with `(` at `i`, which a
      whitespace character is not. */
  function MatchAt(text: string, i: nat): (r: Option<nat>)
    ensures r.Some? ==> i + 4 <= r.value <= |text|
  {
    if i < |text| && IsSpace(text[i]) then BracketAt(text, i + 1) else BracketAt(text, i)
  }

  /** Reference reading of the pattern as a property of the matched text: an optional
      whitespace character, `(`, at least one content character, `)`, and one
      character that is not a word character. */
  predicate IsBracketMatch(g: string) {
    var o := if g != [] && IsSpace(g[0]) then 1 else 0;
    o + 4 <= |g| && g[o] == '(' && g[|g| - 2] == ')' && !IsWordChar(g[|g| - 1])
    && forall m :: o < m < |g| - 2 ==> IsBodyChar(g[m])
  }

  /** The scanner step finds a match at `i` ending at `e` exactly when the text between
      them has the shape of the pattern: both directions. */
  lemma MatchAtIff(text: string, i: nat, e: nat)
    ensures MatchAt(text, i) == Some(e) <==> i < e <= |text| && IsBracketMatch(text[i..e])
  {
    if i < e <= |text| && IsBracketMatch(text[i..e]) {
      var g := text[i..e];
      var o := if IsSpace(g[0]) then 1 else 0;
      var j := i + o;
      assert text[j] == '(';
      var k := BodyEnd(text, j + 1);
      assert forall m :: j + 1 <= m < e - 2 ==> IsBodyChar(text[m]) by {
        forall m | j + 1 <= m < e - 2 ensures IsBodyChar(text[m]) {
          assert text[m] == g[m - i];
        }
      }
      assert text[e - 2] == g[|g| - 2];
      assert k == e - 2;
      assert text[e - 1] == g[|g| - 1];
    }
    if MatchAt(text, i) == Some(e) {
      var o := if IsSpace(text[i]) then 1 else 0;
      var g := text[i..e];
      assert g[0] == text[i];
      assert forall m :: o < m < |g| - 2 ==> IsBodyChar(g[m]) by {
        forall m | o < m < |g| - 2 ensures IsBodyChar(g[m]) {
          assert g[m] == text[i + m];
        }
      }
    }
  }

  /** `re.finditer` from position `i`: try each position in turn; after a match, go on
      from its end (the trailing non-word character is consumed). */
  function FindIter(text: string, i: nat): (ms: seq<Match>)
    requires i <= |text|
    ensures forall k :: 0 <= k < |ms| ==> i <= ms[k].start && ms[k].start + 4 <= ms[k].end <= |text|
    ensures forall k :: 0 <= k < |ms| - 1 ==> ms[k].end <= ms[k + 1].start
    decreases |text| - i
  {
    if i == |text| then []
    else
      match MatchAt(text, i)
      case Some(e) => [Match(i, e)] + FindIter(text, e)
      case None => FindIter(text, i + 1)
  }

  /** Every reported match is a match of the pattern at its own position. */
  lemma FindIterSound(text: string, i: nat, k: nat)
    requires i <= |text| && k < |FindIter(text, i)|
    ensures var m := FindIter(text, i)[k];
      MatchAt(text, m.start) == Some(m.end) && IsBracketMatch(text[m.start..m.end])
  {
    var m := FindIter(text, i)[k];
    FindIterMatchAt(text, i, k);
    MatchAtIff(text, m.start, m.end);
  }

  lemma {:induction false} FindIterMatchAt(text: string, i: nat, k: nat)
    requires i <= |text| && k < |FindIter(text, i)|
    ensures MatchAt(text, FindIter(text, i)[k].start) == Some(FindIter(text, i)[k].end)
    decreases |text| - i
  {
    var ms := FindIter(text, i);
    var r := MatchAt(text, i);
    if r.Some? {
      var e := r.value;
      var rest := FindIter(text, e);
      assert ms == [Match(i, e)] + rest;
      if k > 0 {
        assert ms[k] == rest[k - 1];
        FindIterMatchAt(text, e, k - 1);
      }
    } else {
      assert ms == FindIter(text, i + 1);
      FindIterMatchAt(text, i + 1, k);
    }
  }

  /** The pattern can only match where a `(` stands at the position or right after it. */
  lemma MatchAtNeedsOpen(text: string, i: nat)
    requires i < |text|
    requires text[i] != '(' && (i + 1 < |text| ==> text[i + 1] != '(')
    ensures MatchAt(text, i).None?
  {
  }

  /** Positions where no match starts are passed over. */
  lemma {:induction false} FindIterSkip(text: string, i: nat, j: nat)
    requires i <= j <= |text|
    requires forall p :: i <= p < j ==> MatchAt(text, p).None?
    ensures FindIter(text, i) == FindIter(text, j)
    decreases j - i
  {
    if i < j {
      FindIterSkip(text, i + 1, j);
    }
  }

  /** `finditer` reports nothing exactly when the pattern matches at no position from
      `i` on. */
  lemma FindIterEmptyIff(text: string, i: nat)
    requires i <= |text|
    ensures FindIter(text, i) == [] <==> forall p :: i <= p < |text| ==> MatchAt(text, p).None?
  {
    if forall p :: i <= p < |text| ==> MatchAt(text, p).None? {
      FindIterSkip(text, i, |text|);
    } else {
      var p :| i <= p < |text| && MatchAt(text, p).Some?;
      FindIterLeftmost(text, i, p);
    }
  }

  predicate Covers(m: Match, p: nat) {
    m.start <= p < m.end
  }

  /** No match is missed: every position from `i` on where the pattern matches lies
      inside one of the reported matches (at its start, or covered by it). */
  lemma {:induction false} FindIterLeftmost(text: string, i: nat, p: nat)
    requires i <= p < |text| && MatchAt(text, p).Some?
    ensures exists k :: 0 <= k < |FindIter(text, i)| && Covers(FindIter(text, i)[k], p)
    decreases |text| - i
  {
    var ms := FindIter(text, i);
    var r := MatchAt(text, i);
    if r.Some? {
      var e := r.value;
      var rest := FindIter(text, e);
      assert ms == [Match(i, e)] + rest;
      if e <= p {
        FindIterLeftmost(text, e, p);
        var k :| 0 <= k < |rest| && Covers(rest[k], p);
        assert ms[k + 1] == rest[k];
      } else {
        assert Covers(ms[0], p);
      }
    } else {
      assert p != i;
      assert ms == FindIter(text, i + 1);
      FindIterLeftmost(text, i + 1, p);
    }
  }

  /** `m.group().strip().rstrip(string.punctuation).rstrip(')').lstrip('(')` */
  function Candidate(group: string): string {
    LStrip(RStrip(RStrip(Strip(group, Whitespace), Punctuation), Chars({')'})), Chars({'('}))
  }

  /** The parts of a match: optional whitespace, `(`, the contents, `)`, and `c`. */
  function Offset(g: string): nat {
    if g != [] && IsSpace(g[0]) then 1 else 0
  }

  function Body(g: string): string
    requires IsBracketMatch(g)
  {
    g[Offset(g) + 1..|g| - 2]
  }

  /** The contents are not empty and hold only content characters. */
  lemma BodyChars(g: string)
    requires IsBracketMatch(g)
    ensures Body(g) != [] && forall m :: 0 <= m < |Body(g)| ==> IsBodyChar(Body(g)[m])
  {
    var o := Offset(g);
    forall m | 0 <= m < |Body(g)| ensures IsBodyChar(Body(g)[m]) {
      assert Body(g)[m] == g[o + 1 + m];
    }
  }

  lemma RStripOfParts(front: string, c: char)
    requires front != [] && front[|front| - 1] == ')'
    ensures RStrip(front + [c], Whitespace) == front + (if IsSpace(c) then [] else [c])
  {
    var g := front + [c];
    RStripStep(g, Whitespace);
    if IsSpace(c) {
      assert g[..|g| - 1] == front;
      RStripStep(front, Whitespace);
    }
  }

  lemma LStripOfParts(ws: string, t: string)
    requires |ws| <= 1 && (ws != [] ==> IsSpace(ws[0]))
    requires t != [] && t[0] == '('
    ensures LStrip(ws + t, Whitespace) == t
  {
    LStripStep(t, Whitespace);
    if ws != [] {
      LStripStep(ws + t, Whitespace);
      assert (ws + t)[1..] == t;
    } else {
      assert ws + t == t;
    }
  }

  /** `strip()` removes the optional leading whitespace and, if `c` is whitespace, `c`. */
  lemma StripOfParts(ws: string, body: string, c: char)
    requires |ws| <= 1 && (ws != [] ==> IsSpace(ws[0]))
    ensures Strip(ws + "(" + body + ")" + [c], Whitespace)
            == "(" + body + ")" + (if IsSpace(c) then [] else [c])
  {
    var inner := "(" + body + ")";
    var rest := if IsSpace(c) then [] else [c];
    assert ws + "(" + body + ")" + [c] == (ws + inner) + [c];
    RStripOfParts(ws + inner, c);
    assert (ws + inner) + rest == ws + (inner + rest);
    LStripOfParts(ws, inner + rest);
  }

  lemma StripOfMatch(g: string)
    requires IsBracketMatch(g)
    ensures var c := g[|g| - 1];
      Strip(g, Whitespace) == "(" + Body(g) + ")" + (if IsSpace(c) then [] else [c])
  {
    var o := Offset(g);
    assert g == g[..o] + "(" + Body(g) + ")" + [g[|g| - 1]];
    StripOfParts(g[..o], Body(g), g[|g| - 1]);
  }

  lemma RStripPunctuationOfParts(body: string, c: char)
    requires IsSpace(c) || IsPunctuation(c)
    ensures var rb := RStrip(body, Punctuation);
      RStrip("(" + body + ")" + (if IsSpace(c) then [] else [c]), Punctuation)
      == if rb == [] then [] else "(" + rb
  {
    var rest := if IsSpace(c) then [] else [c];
    var tail := ")" + rest;
    assert RStrip(tail, Punctuation) == [] by {
      RStripStep(tail, Punctuation);
      if !IsSpace(c) {
        assert tail[..|tail| - 1] == ")";
        RStripStep(")", Punctuation);
        assert ")"[..0] == [];
      } else {
        assert tail == ")";
        assert ")"[..0] == [];
      }
    }
    assert "(" + body + ")" + rest == ("(" + body) + tail;
    RStripConcat("(" + body, tail, Punctuation);
    RStripConcat("(", body, Punctuation);
    RStripStep("(", Punctuation);
    assert "("[..0] == [];
  }

  /** A trailing whitespace or punctuation character: what is left is the contents
      with their trailing punctuation removed. */
  lemma CandidateEndingInPunctuation(body: string, c: char)
    requires forall m :: 0 <= m < |body| ==> IsBodyChar(body[m])
    requires IsSpace(c) || IsPunctuation(c)
    ensures var s1 := "(" + body + ")" + (if IsSpace(c) then [] else [c]);
      LStrip(RStrip(RStrip(s1, Punctuation), Chars({')'})), Chars({'('})) == RStrip(body, Punctuation)
  {
    RStripPunctuationOfParts(body, c);
    var rb := RStrip(body, Punctuation);
    var s2 := if rb == [] then [] else "(" + rb;
    RStripSpec(body, Punctuation);
    if rb != [] {
      RStripStep(s2, Chars({')'}));
      assert s2[|s2| - 1] == rb[|rb| - 1];
      assert rb[0] == body[0];
      LStripStep(s2, Chars({'('}));
      assert s2[1..] == rb;
      LStripStep(rb, Chars({'('}));
    }
  }

  /** Any other trailing non-word character stops both `rstrip`s at once. */
  lemma CandidateEndingInOther(body: string, c: char)
    requires body != [] && IsBodyChar(body[0])
    requires !IsSpace(c) && !IsPunctuation(c)
    ensures var s1 := "(" + body + ")" + [c];
      LStrip(RStrip(RStrip(s1, Punctuation), Chars({')'})), Chars({'('})) == body + ")" + [c]
  {
    var s1 := "(" + body + ")" + [c];
    assert s1[1..] == body + ")" + [c];
  }

  /** What the candidate of a match is, in terms of the bracket contents and the
      trailing character `c`. When `c` is whitespace or punctuation, the candidate is
      the contents with trailing punctuation removed (possibly nothing at all); for any
      other non-word character (a control or non-ASCII character), `)` and `c` stay
      attached. */
  lemma CandidateOfMatch(g: string)
    requires IsBracketMatch(g)
    ensures var c := g[|g| - 1];
      Candidate(g) == if IsSpace(c) || IsPunctuation(c) then RStrip(Body(g), Punctuation)
                      else Body(g) + ")" + [c]
  {
    var c := g[|g| - 1];
    StripOfMatch(g);
    BodyChars(g);
    if IsSpace(c) || IsPunctuation(c) {
      CandidateEndingInPunctuation(Body(g), c);
    } else {
      CandidateEndingInOther(Body(g), c);
    }
  }
}
