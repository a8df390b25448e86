/** The small slice of Python's `str` and `string` behaviour the matcher relies on,
    restricted to ASCII: character classes, lower-casing, `strip` with a character set,
    `in` on strings, `endswith`, `str.replace`, `' '.join` and `reversed`. */
module PyStrings {

  datatype Option<T> = None | Some(value: T)

  /** `str.isspace` on ASCII characters: space, tab to carriage return, and the four
      information separators. The same set is used by `strip()`, `split()` and `\s`. */
  predicate IsSpace(c: char) {
    c == ' ' || ('\t' <= c <= '\r') || ('\U{1C}' <= c <= '\U{1F}')
  }

  predicate IsUpper(c: char) { 'A' <= c <= 'Z' }

  predicate IsLowerLetter(c: char) { 'a' <= c <= 'z' }

  predicate IsAlpha(c: char) { IsUpper(c) || IsLowerLetter(c) }

  predicate IsDigit(c: char) { '0' <= c <= '9' }

  /** Membership in the regex class `\w`. */
  predicate IsWordChar(c: char) { IsAlpha(c) || IsDigit(c) || c == '_' }

  /** Membership in `string.punctuation`: the 32 printable ASCII characters that are
      neither letters, digits nor space. */
  predicate IsPunctuation(c: char) {
    ('!' <= c <= '/') || (':' <= c <= '@') || ('[' <= c <= '`') || ('{' <= c <= '~')
  }

  /** The character sets passed to `strip`, `lstrip` and `rstrip`. */
  datatype CharSet = Whitespace | Punctuation | Chars(chars: set<char>)

  predicate InSet(c: char, cs: CharSet) {
    match cs
    case Whitespace => IsSpace(c)
    case Punctuation => IsPunctuation(c)
    case Chars(chars) => c in chars
  }

  /** `char.lower()`: upper-case letters become the matching lower-case letters. The
      result is never upper-case, a character keeps its class (letter, digit,
      whitespace, punctuation), and only upper-case letters change. */
  function LowerChar(c: char): (r: char)
    ensures !IsUpper(r)
    ensures IsAlpha(r) == IsAlpha(c) && IsDigit(r) == IsDigit(c)
    ensures IsSpace(r) == IsSpace(c) && IsPunctuation(r) == IsPunctuation(c)
    ensures r != c ==> IsUpper(c)
  {
    if IsUpper(c) then (c as int + 32) as char else c
  }

  /** `str.lower()`: the result has no upper-case letter, and lower-casing it again
      changes nothing. */
  function Lower(s: string): (r: string)
    ensures |r| == |s|
    ensures forall i :: 0 <= i < |r| ==> !IsUpper(r[i])
    ensures forall i :: 0 <= i < |r| ==> LowerChar(r[i]) == r[i]
    ensures forall i :: 0 <= i < |s| && !IsUpper(s[i]) ==> r[i] == s[i]
  {
    seq(|s|, i requires 0 <= i < |s| => LowerChar(s[i]))
  }

  /** `s.lstrip(chars)`: drops the longest prefix made of characters of the set. */
  function LStrip(s: string, cs: CharSet): string
    decreases |s|
  {
    if s != [] && InSet(s[0], cs) then LStrip(s[1..], cs) else s
  }

  /** What `lstrip` leaves is a suffix that does not start in the set, and everything it
      cut off lies in the set. */
  lemma {:induction false} LStripSpec(s: string, cs: CharSet)
    ensures var r := LStrip(s, cs);
      |r| <= |s| && r == s[|s| - |r|..]
      && (forall i :: 0 <= i < |s| - |r| ==> InSet(s[i], cs))
      && (r != [] ==> !InSet(r[0], cs))
    decreases |s|
  {
    if s != [] && InSet(s[0], cs) {
      LStripSpec(s[1..], cs);
      var r := LStrip(s, cs);
      assert s[1..][|s| - 1 - |r|..] == s[|s| - |r|..];
      assert forall i :: 1 <= i < |s| - |r| ==> s[i] == s[1..][i - 1];
    } else {
      assert s[0..] == s;
    }
  }

  /** `s.rstrip(chars)`: drops the longest suffix made of characters of the set. */
  function RStrip(s: string, cs: CharSet): string
    decreases |s|
  {
    if s != [] && InSet(s[|s| - 1], cs) then RStrip(s[..|s| - 1], cs) else s
  }

  /** What `rstrip` leaves is a prefix that does not end in the set, and everything it
      cut off lies in the set. */
  lemma {:induction false} RStripSpec(s: string, cs: CharSet)
    ensures var r := RStrip(s, cs);
      |r| <= |s| && r == s[..|r|]
      && (forall i :: |r| <= i < |s| ==> InSet(s[i], cs))
      && (r != [] ==> !InSet(r[|r| - 1], cs))
    decreases |s|
  {
    if s != [] && InSet(s[|s| - 1], cs) {
      RStripSpec(s[..|s| - 1], cs);
      var r := RStrip(s, cs);
      assert s[..|s| - 1][..|r|] == s[..|r|];
      assert forall i :: |r| <= i < |s| - 1 ==> s[i] == s[..|s| - 1][i];
    }
  }

  /** `s.strip(chars)`: both ends. */
  function Strip(s: string, cs: CharSet): string {
    LStrip(RStrip(s, cs), cs)
  }

  /** One step of `lstrip`/`rstrip`: a character outside the set stops it, one inside
      is dropped. */
  lemma LStripStep(s: string, cs: CharSet)
    requires s != []
    ensures LStrip(s, cs) == if InSet(s[0], cs) then LStrip(s[1..], cs) else s
  {
  }

  lemma RStripStep(s: string, cs: CharSet)
    requires s != []
    ensures RStrip(s, cs) == if InSet(s[|s| - 1], cs) then RStrip(s[..|s| - 1], cs) else s
  {
  }

  /** A string that neither starts nor ends with a character of the set is left
      unchanged by `strip`. */
  lemma StripUnchanged(s: string, cs: CharSet)
    requires s != [] ==> !InSet(s[0], cs) && !InSet(s[|s| - 1], cs)
    ensures Strip(s, cs) == s
  {
    if s != [] {
      RStripStep(s, cs);
      LStripStep(s, cs);
    }
  }

  /** `rstrip` of a concatenation: the right part is stripped first, and only if it
      vanishes does stripping go on into the left part. */
  lemma {:induction false} RStripConcat(a: string, b: string, cs: CharSet)
    ensures RStrip(a + b, cs) == if RStrip(b, cs) == [] then RStrip(a, cs) else a + RStrip(b, cs)
    decreases |b|
  {
    if b == [] {
      assert a + b == a;
    } else if InSet(b[|b| - 1], cs) {
      assert (a + b)[..|a + b| - 1] == a + b[..|b| - 1];
      RStripConcat(a, b[..|b| - 1], cs);
    }
  }

  /** Python's `p in s` for strings, scanning left to right. */
  function IsSubstring(p: string, s: string): (r: bool)
    ensures r <==> exists i :: 0 <= i <= |s| && p <= s[i..]
    decreases |s|
  {
    if p <= s then assert s[0..] == s; true
    else if s == [] then false
    else
      var r := IsSubstring(p, s[1..]);
      assert forall i :: 1 <= i <= |s| ==> s[i..] == s[1..][i - 1..];
      assert r ==> exists i :: 0 <= i <= |s| && p <= s[i..] by {
        if r {
          var j :| 0 <= j <= |s[1..]| && p <= s[1..][j..];
          assert s[1..][j..] == s[j + 1..];
        }
      }
      r
  }

  /** `s.endswith(suffix)` */
  predicate EndsWith(s: string, suffix: string) {
    |suffix| <= |s| && s[|s| - |suffix|..] == suffix
  }

  /** The number of characters of `s` in the set. */
  function Count(s: string, cs: CharSet): (n: nat)
    ensures n <= |s|
    ensures n == 0 <==> forall i :: 0 <= i < |s| ==> !InSet(s[i], cs)
    ensures |s| == 1 ==> (n == 1 <==> InSet(s[0], cs))
    decreases |s|
  {
    if s == [] then 0
    else Count(s[..|s| - 1], cs) + (if InSet(s[|s| - 1], cs) then 1 else 0)
  }

  /** The count of a concatenation is the sum of the counts of its parts; with the
      one-character case of `Count`'s contract this fixes the count of every string. */
  lemma {:induction false} CountConcat(a: string, b: string, cs: CharSet)
    ensures Count(a + b, cs) == Count(a, cs) + Count(b, cs)
    decreases |b|
  {
    if b != [] {
      var b' := b[..|b| - 1];
      CountConcat(a, b', cs);
      assert (a + b)[..|a + b| - 1] == a + b';
    } else {
      assert a + b == a;
    }
  }

  /** Python's `s.islower()` on ASCII, as CPython computes it: scanning left to right,
      an upper-case letter answers false at once, and at least one lower-case letter
      must be seen. `cased` says whether one has been seen already. */
  function IsLowerFrom(s: string, cased: bool): (r: bool)
    ensures r <==> (forall i :: 0 <= i < |s| ==> !IsUpper(s[i]))
                   && (cased || exists i :: 0 <= i < |s| && IsLowerLetter(s[i]))
    decreases |s|
  {
    if s == [] then cased
    else if IsUpper(s[0]) then false
    else
      var r := IsLowerFrom(s[1..], cased || IsLowerLetter(s[0]));
      assert forall i :: 1 <= i < |s| ==> s[i] == s[1..][i - 1];
      r
  }

  function IsLowerStr(s: string): bool {
    IsLowerFrom(s, false)
  }

  /** `any(char.isalpha() for char in s)` */
  function HasAlpha(s: string): (r: bool)
    ensures r <==> exists i :: 0 <= i < |s| && IsAlpha(s[i])
    decreases |s|
  {
    if s == [] then false
    else if IsAlpha(s[0]) then true
    else
      var r := HasAlpha(s[1..]);
      assert forall i :: 1 <= i < |s| ==> s[i] == s[1..][i - 1];
      r
  }

  /** `sep.join(xs)` */
  function Join(xs: seq<string>, sep: string): string
    decreases |xs|
  {
    if xs == [] then []
    else if |xs| == 1 then xs[0]
    else Join(xs[..|xs| - 1], sep) + sep + xs[|xs| - 1]
  }

  /** `list(reversed(xs))`, built by taking elements from the end: the element at
      position `i` of the result is the one `i` places from the end of `xs`. */
  function Reverse<T>(xs: seq<T>): (r: seq<T>)
    ensures |r| == |xs| && forall i :: 0 <= i < |xs| ==> r[i] == xs[|xs| - 1 - i]
    decreases |xs|
  {
    if xs == [] then [] else [xs[|xs| - 1]] + Reverse(xs[..|xs| - 1])
  }

  /** `s.replace(old, new)` with an empty `old`: `new` goes before every character and
      at the end. */
  function InterleaveEmpty(s: string, rep: string): string
    decreases |s|
  {
    if s == [] then rep else rep + [s[0]] + InterleaveEmpty(s[1..], rep)
  }

  /** `s.replace(old, new)`: every occurrence of `old`, found left to right without
      overlap, is replaced by `new`. */
  function Replace(s: string, pat: string, rep: string): string
    decreases |s|
  {
    if pat == [] then InterleaveEmpty(s, rep)
    else if |s| < |pat| then s
    else if pat <= s then rep + Replace(s[|pat|..], pat, rep)
    else [s[0]] + Replace(s[1..], pat, rep)
  }

  /** Text that does not contain `old` comes back unchanged. */
  lemma {:induction false} ReplaceAbsent(s: string, pat: string, rep: string)
    requires pat != []
    requires !IsSubstring(pat, s)
    ensures Replace(s, pat, rep) == s
    decreases |s|
  {
    if |s| >= |pat| {
      ReplaceAbsent(s[1..], pat, rep);
    }
  }
}
