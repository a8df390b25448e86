# AbbrevMatcher in Dafny

This project models `AbbrevMatcher` from `lib/abbrev_matcher.py`. The class is a rule-based
detector of abbreviations written as "long form (ABBR)". It scans a text for bracketed spans and
cuts the abbreviation candidate out of each one. It then walks backwards over the tokens before
the bracket to rebuild the long form. Every pair that passes the two shape prefilters is
recorded in an insertion-ordered dictionary, `data`. To replace abbreviations, it chooses one
recorded long form for each abbreviation and substitutes it everywhere in a text.

The modules follow the stages of the program:

- `PyStrings`: the Python string behaviour the matcher relies on. This covers ASCII character
  classes and `lower`, char-set `strip`/`lstrip`/`rstrip`, `in`, `islower`, `join`,
  `reversed` and `replace`.
- `Scanner`: the fixed pattern of line 26, modelled as a left-to-right scanner with the
  semantics of `re.finditer`. It also holds the candidate extraction of line 111.
- `Prefilters`: the constructor configuration and the two prefilters.
- `LongForm`: the token split of line 122 and the backward walk of lines 127-163. The walk
  is the method `WalkTokens`, proved equal to the function `Walk`. Lemmas describe how the
  walk ends.
- `Disambiguation`: `filter_long_version_list`, as the method `FilterLongVersionList` proved
  equal to the function `FilteredLongVersions`. This module also holds the choice
  `replace_abbrevs` makes (`Resolve`).
- `Store`: the dictionary `data`, as a map plus its key order, together with its
  append-only laws.
- `Matcher`: the class `AbbrevMatcher`. It has the constant field `config`, which holds the
  constructor arguments, and the mutable fields `data` and `order`. Its methods are the
  constructor, `ClearCache`, `MatchAbbrevs`, `ReplaceAbbrevs` and `Record`. `Record` is the
  dictionary update of lines 172-175. Each method states the new state in terms of the
  functions of the other modules.
- `Examples`: cases computed through the model. They are the gene-suffix case
  `["BRCA1 gene", "BRCA1"]`, a text that starts with a separator, a text that ends in a bracket,
  and the sentence "Interleukin 6 (IL6) is elevated." from scan to dictionary.

Several behaviours of the code are easy to misread; the model follows the code:

- `re.split('[\/\s-]', ...)` cuts at every single separator. Runs of separators therefore
  give empty tokens.
- The trailing non-word character belongs to the match. So does the leading whitespace
  character: `m.start()` is the offset where the long-form text ends. The trailing
  character is consumed, so the next match starts after it.
- A bracket at the very end of a text never matches, because nothing follows the `)`.
  For example, "(a)" as the last characters. For the same reason, the text "see figure (a)"
  yields no entry without reaching the prefilter (`Examples.BracketAtTextEnd`).
- The long form has punctuation stripped from both ends, not only the trailing end.
- `strip('gene')` removes the characters `g`, `e` and `n` from both ends. It does not
  remove the word "gene". As a result, `["BRCA1 gene", "BRCA1"]` is not merged: the first
  form keeps a trailing space after the strip. Both forms are kept, and `replace_abbrevs`
  substitutes `"BRCA1 gene"` (`Examples.GeneVariants`).
- In the gene branch, when every form ends in "gene", the result is empty. `replace_abbrevs`
  then falls back to the first recorded form.
- In the covering-initials branch, the result is not only the covering form. It is the forms
  without punctuation that came before the covering form, followed by the covering form.
- A stopword that starts with the anchor letter is appended twice: once on the anchor test,
  and once more when the loop falls through to line 163.
- When the last reversed token is empty or only punctuation, the `continue` of lines 144-147
  skips the end-of-list test of lines 157-161. Every token is then kept, whatever
  `long_version_max` is, and no anchor token is needed. A text before the bracket that starts
  with a separator gives such a token. So `" foo bar"` yields the long form "foo bar" with
  `long_version_max` 0, while `"foo bar"` yields nothing (`Examples.LeadingSpace`,
  `Examples.NoLeadingSpace`).

## Model

| member | source | states |
|---|---|---|
| PyStrings.LowerChar | lib/abbrev_matcher.py:69 | `char.lower()` never gives an upper-case letter, keeps the input's letter, digit, whitespace and punctuation classes, and changes only an upper-case letter |
| PyStrings.Lower | lib/abbrev_matcher.py:69 | `str.lower()` keeps the length, leaves no upper-case letter, passes every character that is not upper-case through unchanged, and lower-casing its result again changes nothing |
| PyStrings.LStripSpec | lib/abbrev_matcher.py:111 | what `lstrip(chars)` leaves is a suffix that does not start with a character of the set, and everything removed is in the set |
| PyStrings.RStripSpec | lib/abbrev_matcher.py:111 | what `rstrip(chars)` leaves is a prefix that does not end with a character of the set, and everything removed is in the set |
| PyStrings.LStripStep | lib/abbrev_matcher.py:143 | `lstrip` removes a first character of the set and stops at the first one outside it |
| PyStrings.RStripStep | lib/abbrev_matcher.py:143 | `rstrip` removes a last character of the set and stops at the last one outside it |
| PyStrings.LStrip | lib/abbrev_matcher.py:111 | definition of `lstrip(chars)`; described by `LStripSpec` and `LStripStep` |
| PyStrings.RStrip | lib/abbrev_matcher.py:111 | definition of `rstrip(chars)`; described by `RStripSpec`, `RStripStep` and `RStripConcat` |
| PyStrings.Strip | lib/abbrev_matcher.py:143 | definition of `strip(chars)` as `rstrip` then `lstrip`; described by `StripUnchanged` and `Scanner.StripOfParts` |
| PyStrings.Join | lib/abbrev_matcher.py:166 | definition of `sep.join(xs)`: the elements in order with `sep` between neighbours; described by `LongForm.JoinSplitTokens` |
| PyStrings.StripUnchanged | lib/abbrev_matcher.py:166 | `strip` leaves a text unchanged when neither its first nor its last character is in the set |
| PyStrings.RStripConcat | lib/abbrev_matcher.py:111 | `rstrip` of a concatenation strips the right part first and reaches the left part only when the right part strips away entirely |
| PyStrings.IsSubstring | lib/abbrev_matcher.py:63 | `p in s` holds exactly when `p` is a prefix of some suffix of `s` |
| PyStrings.Count | lib/abbrev_matcher.py:65-66 | `len([c for c in s if c in chars])`: the count is at most the length, is zero exactly when no character is in the set, and a one-character string counts 1 exactly when its character is in the set |
| PyStrings.CountConcat | lib/abbrev_matcher.py:65-66 | the count of a concatenation is the sum of the counts of its parts; with the one-character case this fixes the count that line 66 compares with 2 |
| PyStrings.IsLowerFrom | lib/abbrev_matcher.py:54 | the `islower` scan holds exactly when there is no upper-case letter and, unless one was already seen, some lower-case letter |
| PyStrings.HasAlpha | lib/abbrev_matcher.py:51 | `any(c.isalpha() ...)` holds exactly when some character is a letter |
| PyStrings.Reverse | lib/abbrev_matcher.py:124 | `reversed`, built from the last element on, keeps the length and puts element `i` at position `n-1-i` |
| PyStrings.ReplaceAbsent | lib/abbrev_matcher.py:190 | `replace` leaves a text unchanged when the pattern does not occur in it |
| PyStrings.Replace | lib/abbrev_matcher.py:190 | definition of `str.replace`: left to right and without overlap, with the empty pattern inserting the replacement around every character; described by `ReplaceAbsent` |
| PyStrings.IsSpace | lib/abbrev_matcher.py:26 | definition of ASCII whitespace (space, tab to carriage return, and the four information separators), the one set behind `\s` (lines 26 and 122), `strip()` (line 111) and `split()` (line 85); described by `LowerChar`, `Scanner.RStripOfParts`, `Scanner.LStripOfParts` and `Disambiguation.IsWordStart` |
| PyStrings.IsWordChar | lib/abbrev_matcher.py:26 | definition of the class `\w` on ASCII: letters, digits and `_`; the last character of a match is outside it, as `Scanner.IsBracketMatch` and `Scanner.MatchAtIff` state |
| PyStrings.IsPunctuation | lib/abbrev_matcher.py:65 | definition of `string.punctuation`: the 32 printable ASCII characters that are not letters, digits or space; used at lines 65, 90, 111, 143 and 166, and described by `LowerChar`, `Disambiguation.HasNoPunctuation` and `Scanner.CandidateOfMatch` |
| PyStrings.EndsWith | lib/abbrev_matcher.py:82 | definition of `s.endswith(suffix)`: the last `len(suffix)` characters are `suffix`; used by `Disambiguation.NotGeneSuffixed` and `Disambiguation.FilteredEmptyIff` |
| PyStrings.IsLowerStr | lib/abbrev_matcher.py:54 | definition of `s.islower()` as the scan `IsLowerFrom` started with no letter seen; so it holds exactly when there is no upper-case letter and some lower-case letter, and `Prefilters.PrefilterCandidate` rejects such a candidate |
| Scanner.IsBodyChar | lib/abbrev_matcher.py:26 | definition of the content class `[^\)^\(\)]`: every character except `(`, `)` and `^`; described by `BodyEnd` and `BodyChars` |
| Scanner.IsBracketMatch | lib/abbrev_matcher.py:26 | definition of the pattern read as a shape of the matched text: an optional whitespace character, `(`, one or more content characters, `)`, then one character that is not a word character; described by `MatchAtIff` and `FindIterSound` |
| Scanner.BodyEnd | lib/abbrev_matcher.py:26 | the greedy run of `[^\)^\(\)]` ends at the first character outside the class, or at the end of the text |
| Scanner.BracketAt | lib/abbrev_matcher.py:26 | a bracket match at `j` is at least four characters long and lies inside the text |
| Scanner.MatchAt | lib/abbrev_matcher.py:26 | a match of the whole pattern at `i` is at least four characters long and lies inside the text |
| Scanner.MatchAtIff | lib/abbrev_matcher.py:26 | both directions: the scanner matches from `i` to `e` exactly when that text is optional whitespace, `(`, one or more content characters, `)` and a non-word character |
| Scanner.FindIter | lib/abbrev_matcher.py:110 | `finditer` gives matches inside the text, from the start position on, in order and without overlap |
| Scanner.FindIterMatchAt | lib/abbrev_matcher.py:110 | every reported match is the scanner's match at its own start |
| Scanner.FindIterSound | lib/abbrev_matcher.py:110 | every reported match has the shape of the pattern |
| Scanner.FindIterLeftmost | lib/abbrev_matcher.py:110 | no match is missed: every position where the pattern matches is the start of a reported match or lies inside one |
| Scanner.MatchAtNeedsOpen | lib/abbrev_matcher.py:26 | no match starts at a position unless that character or the next one is `(` |
| Scanner.FindIterSkip | lib/abbrev_matcher.py:110 | positions where the pattern does not match are passed over: `finditer` from `i` gives what it gives from the first position that could match |
| Scanner.FindIterEmptyIff | lib/abbrev_matcher.py:110 | both directions: `finditer` from `i` finds nothing exactly when the pattern matches at no position from `i` on |
| Scanner.BodyChars | lib/abbrev_matcher.py:26 | the bracket contents of a match are not empty and hold no `(`, `)` or `^` |
| Scanner.RStripOfParts | lib/abbrev_matcher.py:111 | the whitespace `rstrip` of a match removes the trailing character only when it is whitespace |
| Scanner.LStripOfParts | lib/abbrev_matcher.py:111 | the whitespace `lstrip` of a match removes exactly the optional leading whitespace character |
| Scanner.StripOfParts | lib/abbrev_matcher.py:111 | `strip()` of a match is `(`, the contents, `)` and the trailing character unless that character is whitespace |
| Scanner.StripOfMatch | lib/abbrev_matcher.py:111 | the same for any match of the pattern, stated against its parts |
| Scanner.RStripPunctuationOfParts | lib/abbrev_matcher.py:111 | stripping trailing punctuation from the stripped match removes `)` and the trailing character, then the contents' own trailing punctuation |
| Scanner.CandidateEndingInPunctuation | lib/abbrev_matcher.py:111 | a match ending in whitespace or punctuation gives the contents without trailing punctuation as candidate |
| Scanner.CandidateEndingInOther | lib/abbrev_matcher.py:111 | a match ending in any other non-word character keeps `)` and that character after the contents |
| Scanner.CandidateOfMatch | lib/abbrev_matcher.py:111 | the candidate of every match in terms of its contents and trailing character, both cases |
| Scanner.Candidate | lib/abbrev_matcher.py:111 | definition of the candidate as the chain `strip()`, `rstrip(string.punctuation)`, `rstrip(')')`, `lstrip('(')`; described by `CandidateOfMatch`, `CandidateEndingInPunctuation` and `CandidateEndingInOther` |
| Prefilters.PrefilterCandidate | lib/abbrev_matcher.py:36-58 | both directions: a candidate passes exactly when its length is within bounds, it has no `=`, it has a letter, it is not all lower-case and it is not excluded. Equivalently, it has an upper-case letter in place of the two letter rules |
| Prefilters.PrefilterLongVersion | lib/abbrev_matcher.py:60-74 | both directions: a long form passes exactly when it has at most 50 characters, contains no " .", has at most two punctuation characters, does not contain the abbreviation, and contains every character of it, all ignoring case |
| LongForm.IsSeparator | lib/abbrev_matcher.py:122 | definition of the split class `[\/\s-]`: `/`, `-` and whitespace; described by `SplitTokensNoSeparator` and `JoinSplitTokens` |
| LongForm.SplitTokens | lib/abbrev_matcher.py:122 | `re.split` always gives at least one token |
| LongForm.SplitTokensNoSeparator | lib/abbrev_matcher.py:122 | no token holds `/`, `-` or whitespace |
| LongForm.SplitTokensSnoc | lib/abbrev_matcher.py:122 | a character that is not a separator extends the last token |
| LongForm.SplitTokensAppendWord | lib/abbrev_matcher.py:122 | appending text without separators extends the last token by that text and adds no token |
| LongForm.SplitTokensAppend | lib/abbrev_matcher.py:122 | a separator followed by text without separators adds exactly that text as one more token |
| LongForm.SeparatorsAsSpaces | lib/abbrev_matcher.py:122 | keeps the length and has, at every position, a space where the text has `/`, `-` or whitespace and the text's own character elsewhere |
| LongForm.JoinSplitTokens | lib/abbrev_matcher.py:122 | round trip: joining the tokens with single spaces gives back the text with every separator replaced by a space |
| LongForm.WalkTokens | lib/abbrev_matcher.py:127-163 | the loop with its `continue`s and `break`s computes the walk `Walk` over the reversed tokens |
| LongForm.IsStopword | lib/abbrev_matcher.py:107 | definition of `w.lower() in stopwords`, with the list `['and', 'also']` of line 107; used by `AnchorStopAt` |
| LongForm.SameInitial | lib/abbrev_matcher.py:148 | definition of `word_start.lower() == start_char.lower()`; used by `AnchorStopAt` and `Contribution` |
| LongForm.FirstBeforeMatches | lib/abbrev_matcher.py:131-138 | definition of `first_before_start == start_char.lower()`: the raw first character of the token next to the bracket, lower-cased, and never true for an empty token, whose `None` matches nothing (line 154); used by `FallbackAt` |
| LongForm.AnchorStopAt | lib/abbrev_matcher.py:143-151 | definition of the `break` at line 151: the token stripped of punctuation is not empty, starts with the anchor ignoring case, and is not a stopword; described by `WalkFromAnchorStop` and `AnchorStop` |
| LongForm.FallbackAt | lib/abbrev_matcher.py:154-156 | definition of the `break` at line 156, reached only by a token that passed the empty test of lines 144-147: position at least 7 and the token next to the bracket starts with the anchor; described by `WalkFromFallback` and `Fallback` |
| LongForm.LastAt | lib/abbrev_matcher.py:157 | definition of the end test: the last position, reached only by a token that is not empty after stripping punctuation; described by `WalkFromToEnd` and `ReachesEnd` |
| LongForm.Contribution | lib/abbrev_matcher.py:143-163 | definition of what a token that does not end the walk adds: nothing when it is empty after stripping punctuation (the `continue` of line 147), itself twice for a stopword with the anchor initial (lines 149 and 163), itself once otherwise (line 163); used by `Kept` |
| LongForm.Kept | lib/abbrev_matcher.py:129-163 | definition of the contributions of the tokens from position `lo` up to `hi`, in order; used by `WalkFromAnchorStop`, `AnchorStop`, `WalkFromToEnd`, `ReachesEnd` and `LongVersionAtAnchor` |
| LongForm.WalkFrom | lib/abbrev_matcher.py:142-163 | definition of the loop from position `pos` on, with the kept tokens so far; described by `WalkFromAnchorStop`, `WalkFromFallback`, `WalkFromToEnd` and `WalkFromKeepsFirst`, and computed by `WalkTokens` |
| LongForm.Walk | lib/abbrev_matcher.py:129-163 | definition of the whole loop over the reversed tokens; described by `AnchorStop`, `Fallback`, `ReachesEnd` and `WalkKeepsFirst` |
| LongForm.WalkFromAnchorStop | lib/abbrev_matcher.py:148-151 | from any position, the walk up to the first anchor stop keeps the earlier tokens' contributions plus the anchor token |
| LongForm.AnchorStop | lib/abbrev_matcher.py:148-151 | when the first non-stopword token with the anchor initial comes before any fallback, the kept tokens are the token next to the bracket, the contributions in between, and the anchor token |
| LongForm.WalkFromFallback | lib/abbrev_matcher.py:154-156 | from any position, reaching the eight-token fallback before an anchor stop keeps only the token next to the bracket |
| LongForm.Fallback | lib/abbrev_matcher.py:154-156 | the eight-token fallback gives only the token next to the bracket |
| LongForm.WalkFromToEnd | lib/abbrev_matcher.py:157-163 | from any position, with no stop and no fallback, the walk ends at the last token: only the first token if it is near enough, nothing if not, or everything kept when the last token is only punctuation |
| LongForm.ReachesEnd | lib/abbrev_matcher.py:157-161 | with no stop and no fallback, reaching the last token gives the first token while within `long_version_max`, nothing beyond it, or all contributions when the last token is only punctuation |
| LongForm.WalkFromKeepsFirst | lib/abbrev_matcher.py:131-161 | from any position, unless it is empty, the walk's result starts with the token next to the bracket, and it is empty only beyond `long_version_max` |
| LongForm.WalkKeepsFirst | lib/abbrev_matcher.py:131-161 | the long form always reads up to the token next to the bracket, and nothing is found only when more than `long_version_max` tokens follow that one, that is when the text before splits into more than `long_version_max + 1` tokens |
| LongForm.LongVersionAtAnchor | lib/abbrev_matcher.py:117-166 | on the text itself: with an anchor stop, the long form is the anchor token, the kept tokens and the token next to the bracket, in reading order, joined by spaces and stripped of punctuation |
| LongForm.LongVersion | lib/abbrev_matcher.py:118-124 | definition of the long form for the text before the match, with lines 165-166: nothing when no token is kept; described by `LongVersionAtAnchor`, `Matcher.AcceptByWalk` and the examples |
| Disambiguation.ImageSet | lib/abbrev_matcher.py:79-81 | definition of `set([f(lv) for lv in xs])`; described by `ImageSetSingleton` |
| Disambiguation.AllSame | lib/abbrev_matcher.py:79-81 | definition of a non-empty list whose images under `f` all agree; equal to `len(set(...)) == 1` by `ImageSetSingleton` |
| Disambiguation.ImageSetSingleton | lib/abbrev_matcher.py:79-83 | both directions: the set of images has one element exactly when the list is not empty and all images agree |
| Disambiguation.NotGeneSuffixed | lib/abbrev_matcher.py:82 | definition of `not lv.endswith('gene')`; used by `FilteredLongVersions`, and `FilteredEmptyIff` proves that the gene rule keeps nothing exactly when every form ends in "gene" |
| Disambiguation.HasNoPunctuation | lib/abbrev_matcher.py:90 | definition of `not set(string.punctuation).intersection(lv)`: no character of the form is punctuation; used by `ByInitials`, `ByInitialsAt`, `ByInitialsNone`, `FilteredNoneRetained` and `Examples.CleanVariants` |
| Disambiguation.FilterBy | lib/abbrev_matcher.py:82 | filtering never lengthens the list |
| Disambiguation.FilterByKeeps | lib/abbrev_matcher.py:82 | every kept form passes the test |
| Disambiguation.FilterBySubsequence | lib/abbrev_matcher.py:82 | filtering keeps order and only deletes forms |
| Disambiguation.FilterByEmptyIff | lib/abbrev_matcher.py:93-96 | both directions: the filter is empty exactly when no form passes |
| Disambiguation.IsWordStart | lib/abbrev_matcher.py:85 | definition of the first character of a word of `lv.split()`: a non-space character at the start or after a space; used by `Initials` and `StartsSomeWord` |
| Disambiguation.StartsSomeWord | lib/abbrev_matcher.py:85-86 | definition of "some word of `lv.split()` starts with a character that lower-cases to `c`"; `InitialsMember` proves it is membership in `lv_starts` |
| Disambiguation.CoversInitials | lib/abbrev_matcher.py:86 | definition of the `all(char.lower() in lv_starts ...)` test, the loop guard of `FilterLongVersionList`; described by `CoversInitialsIff` and `FirstCoveringSpec` |
| Disambiguation.InitialsMember | lib/abbrev_matcher.py:85 | both directions: a character is among `lv_starts` exactly when some word starts with it, ignoring case |
| Disambiguation.CoversInitialsIff | lib/abbrev_matcher.py:85-86 | the covering test of line 86 holds exactly when every abbreviation character starts some word of the form |
| Disambiguation.Initials | lib/abbrev_matcher.py:85 | definition of `lv_starts`, the lower-cased first character of every word; described by `InitialsMember` |
| Disambiguation.GeneStrip | lib/abbrev_matcher.py:81 | definition of `lv.lower().strip('gene')`; described by `Examples.GeneStripOfVariants` and `FilteredEmptyIff` |
| Disambiguation.FirstCovering | lib/abbrev_matcher.py:84-88 | the covering index is at most the length of the list |
| Disambiguation.FirstCoveringSpec | lib/abbrev_matcher.py:84-88 | the covering index is the least index whose form covers the initials, or the length when none does |
| Disambiguation.FilterLongVersionList | lib/abbrev_matcher.py:77-96 | the method with its early returns computes `FilteredLongVersions`: the case-merge rule, the gene rule, then the covering/punctuation loop with its final fallback |
| Disambiguation.FilterBySnoc | lib/abbrev_matcher.py:90-91 | one more loop turn adds the form exactly when it has no punctuation |
| Disambiguation.ByInitialsAt | lib/abbrev_matcher.py:86-88 | when form `i` is the first covering one, the result is the earlier forms without punctuation followed by it |
| Disambiguation.ByInitialsNone | lib/abbrev_matcher.py:93-96 | when no form covers the initials, the result is the forms without punctuation, or the whole list if there are none |
| Disambiguation.ByInitials | lib/abbrev_matcher.py:84-96 | definition of the covering/punctuation loop and its fallback; described by `ByInitialsAt` and `ByInitialsNone` |
| Disambiguation.FilteredLongVersions | lib/abbrev_matcher.py:77-96 | definition of the result of `filter_long_version_list`; computed by `FilterLongVersionList` and described by `FilteredIsSubsequence`, `FilteredSameIgnoringCase`, `FilteredNoneRetained` and `FilteredEmptyIff` |
| Disambiguation.FilteredIsSubsequence | lib/abbrev_matcher.py:77-96 | disambiguation only deletes forms and never reorders them |
| Disambiguation.FilteredSameIgnoringCase | lib/abbrev_matcher.py:79-80 | forms that agree ignoring case collapse to the first one |
| Disambiguation.FilteredNoneRetained | lib/abbrev_matcher.py:93-96 | when no form covers the initials and every form has punctuation, the whole list comes back |
| Disambiguation.FilteredEmptyIff | lib/abbrev_matcher.py:77-96 | both directions: the result is empty exactly when the list is empty, or when the forms differ ignoring case but agree after `strip('gene')` and all end in "gene" |
| Disambiguation.ResolveIsOwnForm | lib/abbrev_matcher.py:189-196 | the form substituted for an abbreviation is always one of its own recorded forms |
| Disambiguation.Resolve | lib/abbrev_matcher.py:189-196 | definition of the form `replace_abbrevs` substitutes; described by `ResolveIsOwnForm` and `Examples.GeneVariants` |
| Store.AddAllSnoc | lib/abbrev_matcher.py:172-175 | recording one more entry is one more `Add` |
| Store.NewKeys | lib/abbrev_matcher.py:172-175 | the abbreviations added to the key order were not there before |
| Store.AddWellFormed | lib/abbrev_matcher.py:172-175 | one insertion keeps the key order duplicate-free and in step with `data`, and keeps every list non-empty |
| Store.AddAllWellFormed | lib/abbrev_matcher.py:172-175 | any sequence of insertions keeps the dictionary well formed |
| Store.ValuesFor | lib/abbrev_matcher.py:172-175 | definition of the long forms of the entries for one abbreviation, in entry order; the independent reference of `AddAllContents` |
| Store.AddAllContents | lib/abbrev_matcher.py:172-175 | each abbreviation's list becomes its old list followed by its new long forms, in order |
| Store.AddAllOrder | lib/abbrev_matcher.py:172-175 | the key order becomes the old order followed by the new abbreviations, each once, in order of first discovery |
| Store.AddAllExtends | lib/abbrev_matcher.py:172-175 | append-only: every key stays, its old list is a prefix of its new one, and the old key order is a prefix of the new one |
| Store.AddEffect | lib/abbrev_matcher.py:172-175 | a new abbreviation gets a one-element list at the end of the order; a known one keeps its place and gains one form; no other key changes |
| Store.Add | lib/abbrev_matcher.py:172-175 | definition of one insertion into `data`; described by `AddEffect` and `AddWellFormed` |
| Store.AddAll | lib/abbrev_matcher.py:172-175 | definition of insertions one after the other; described by `AddAllContents`, `AddAllOrder`, `AddAllExtends` and `AddAllWellFormed` |
| Matcher.Outcomes | lib/abbrev_matcher.py:110-170 | definition of the outcome of every match, in match order; described through `Discover` by `DiscoverSound` |
| Matcher.Somes | lib/abbrev_matcher.py:165-175 | definition of the accepted entries among the outcomes, in order; described by `SomesStep` and `SomesOrigin` |
| Matcher.SomesStep | lib/abbrev_matcher.py:110-175 | one more match adds its entry exactly when it was accepted |
| Matcher.SomesOrigin | lib/abbrev_matcher.py:110-175 | every recorded entry comes from the outcome of one of the matches |
| Matcher.AcceptByWalk | lib/abbrev_matcher.py:165-170 | for a candidate that passes, the entry is decided by the kept tokens and the long-form prefilter: nothing kept gives no entry |
| Matcher.AcceptShape | lib/abbrev_matcher.py:111-175 | an accepted entry has the match's candidate as abbreviation, which is not empty, and the walk's long form for the text before the match |
| Matcher.Accept | lib/abbrev_matcher.py:111-175 | definition of the outcome of one match; computed by `MatchOutcome` and described by `AcceptShape` and `AcceptByWalk` |
| Matcher.Discover | lib/abbrev_matcher.py:110-175 | definition of the entries a text yields, in match order; described by `DiscoverSound` and `DiscoverPasses`, and recorded by `AbbrevMatcher.MatchAbbrevs` |
| Matcher.AllPassSnoc | lib/abbrev_matcher.py:175 | appending a passing form keeps every form of the list passing |
| Matcher.DiscoverSound | lib/abbrev_matcher.py:110-175 | every entry a text yields passed both prefilters and comes from one of the reported bracket matches |
| Matcher.DiscoverPasses | lib/abbrev_matcher.py:110-175 | every entry a text yields passed both prefilters |
| Matcher.AddSound | lib/abbrev_matcher.py:172-175 | recording a passing entry keeps every key and every recorded form passing its prefilter |
| Matcher.AddAllSound | lib/abbrev_matcher.py:172-175 | recording passing entries keeps `data` sound |
| Matcher.DiscoverKeepsValid | lib/abbrev_matcher.py:98-178 | recording what a text yields keeps `data` well formed and sound |
| Matcher.SubstituteStep | lib/abbrev_matcher.py:188-196 | one loop turn replaces the next abbreviation in insertion order by its chosen form |
| Matcher.SubstituteAbsent | lib/abbrev_matcher.py:188-196 | a text in which no recorded abbreviation occurs comes back unchanged |
| Matcher.SubstituteUsesOwnForms | lib/abbrev_matcher.py:188-196 | every abbreviation is replaced by one of its own recorded forms |
| Matcher.SubstituteAll | lib/abbrev_matcher.py:188-196 | definition of the substitution loop over the abbreviations in insertion order; described by `SubstituteStep`, `SubstituteAbsent` and `SubstituteUsesOwnForms` |
| Matcher.SoundKeysNonEmpty | lib/abbrev_matcher.py:112-113 | no recorded abbreviation is the empty string |
| Matcher.MatchOutcome | lib/abbrev_matcher.py:111-170 | the loop body for one match, with its `continue`s, gives exactly the entry `Accept` defines, and an entry it gives passed both prefilters |
| Matcher.AbbrevMatcher.constructor | lib/abbrev_matcher.py:24-34 | the configuration is the arguments, with the source's defaults, and `data` starts empty |
| Matcher.AbbrevMatcher.ClearCache | lib/abbrev_matcher.py:180-181 | `data` is emptied |
| Matcher.AbbrevMatcher.Record | lib/abbrev_matcher.py:172-175 | for an entry that passed both prefilters, the new `data` is the old one with the entry added (a new key with a one-element list, or one more form for a known key), and `data` stays well formed and sound |
| Matcher.AbbrevMatcher.MatchAbbrevs | lib/abbrev_matcher.py:98-178 | the new `data` is the old one with every entry the text yields added in match order, it stays well formed and sound, and the result is `data` |
| Matcher.AbbrevMatcher.ReplaceAbbrevs | lib/abbrev_matcher.py:183-201 | `None` gives `None` and leaves `data` alone; otherwise the text is scanned into `data` first, then each abbreviation in insertion order is replaced by its chosen form |
| Examples.NoWordStartsWithR | lib/abbrev_matcher.py:85 | neither "BRCA1 gene" nor "BRCA1" has a word starting with `r` |
| Examples.LowerOfVariants | lib/abbrev_matcher.py:79 | the lower-cased forms of the two variants |
| Examples.GeneStripOfVariants | lib/abbrev_matcher.py:81 | `strip('gene')` turns "BRCA1 gene" into "brca1 " and "BRCA1" into "brca1" |
| Examples.CleanVariants | lib/abbrev_matcher.py:90 | both variants are free of punctuation and both pass the filter |
| Examples.VariantsDiffer | lib/abbrev_matcher.py:79-83 | the two variants are merged neither by the case rule nor by the gene rule |
| Examples.VariantsDoNotCover | lib/abbrev_matcher.py:85-86 | neither variant covers the initials of "BRCA" |
| Examples.GeneVariants | lib/abbrev_matcher.py:77-96 | `filter_long_version_list(["BRCA1 gene", "BRCA1"], "BRCA")` keeps both forms, so the substitute is "BRCA1 gene" |
| Examples.TwoTokens | lib/abbrev_matcher.py:122 | two words joined by one separator split into exactly those two tokens |
| Examples.WalkSpaceFooBar | lib/abbrev_matcher.py:142-147 | the walk over `["bar", "foo", ""]` with `long_version_max` 0 keeps `["bar", "foo"]`: the empty last token is skipped before the end test |
| Examples.WalkFooBar | lib/abbrev_matcher.py:157-161 | the walk over `["bar", "foo"]` with `long_version_max` 0 keeps nothing: the end is reached beyond the limit |
| Examples.LeadingSpace | lib/abbrev_matcher.py:118-166 | the text `" foo bar"` before a bracket gives the long form "foo bar" with `long_version_max` 0 |
| Examples.NoLeadingSpace | lib/abbrev_matcher.py:118-166 | the text `"foo bar"` gives no long form with `long_version_max` 0 |
| Examples.BracketAtTextEnd | lib/abbrev_matcher.py:110 | `finditer` finds nothing in "see figure (a)", so the text yields no entry |
| Examples.IL6Matches | lib/abbrev_matcher.py:110 | in "Interleukin 6 (IL6) is elevated." the only match is " (IL6) ", at offsets 13 to 20 |
| Examples.IL6Candidate | lib/abbrev_matcher.py:111-113 | the candidate of " (IL6) " is "IL6", and it passes the candidate prefilter with the defaults |
| Examples.IL6LongVersion | lib/abbrev_matcher.py:118-166 | the text "Interleukin 6" gives the long form "Interleukin 6" for the anchor `I`: the walk stops at "Interleukin" |
| Examples.IL6Passes | lib/abbrev_matcher.py:60-74 | "Interleukin 6" passes the long-form prefilter for "IL6" |
| Examples.IL6Accept | lib/abbrev_matcher.py:111-175 | the match at offset 13 is accepted as the entry ("IL6", "Interleukin 6") |
| Examples.IL6Discover | lib/abbrev_matcher.py:98-178 | the sentence yields exactly that entry, so the dictionary becomes `{"IL6": ["Interleukin 6"]}` |

## Left out

- `extract_from_file` and the rest of `lib/abbrev_matcher.py` after line 201 are not modelled.
  They read files and drive the matcher, which is I/O. `lib/pubmed_pmc_record_handler.py` is
  not part of this model either.
- The diagnostic output of lines 197-199 is left out because it is output only. `debug` is
  kept in the configuration and never changes a result.
- The compiled pattern of line 26 is not a field. It is the scanner of `Scanner.FindIter`,
  which implements that one pattern, not a general regular-expression engine.
- Character classes, `lower` and `isspace` are modelled on ASCII. Other characters count as
  neither letters, digits nor whitespace, and `lower` leaves them unchanged. Python's Unicode
  tables would treat some of them differently.
- `Matcher.AbbrevMatcher.MatchAbbrevs` takes a string. Calling `match_abbrevs(None)` in the
  source raises an exception, and that is not modelled. `None` is handled in
  `replace_abbrevs`, as lines 184-185 do.
- `Matcher.AbbrevMatcher.MatchAbbrevs` returns the map value. The source returns the dictionary
  object itself, so a caller that mutates the returned dictionary changes `data`. That aliasing
  is not modelled.
- The shared default list of `abbrev_exclude` (a mutable default argument) is not modelled.
  The matcher never mutates it.
- The loop body of `match_abbrevs` is written as the methods `MatchOutcome` and `Record`,
  which are called from the loop. The `try`/`except IndexError` blocks of lines 132-147 are
  modelled as tests for an empty token.
