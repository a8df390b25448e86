/** The matcher's configuration and the two shape prefilters
    (`prefilter_candidate` and `prefilter_long_version`). */
module Prefilters {
  import opened PyStrings

  /** The constructor arguments of the matcher, fixed for its lifetime. `debug` only
      switches diagnostic output and never changes a result. */
  datatype Config = Config(
    minLen: int,
    maxLen: int,
    longVersionMax: int,
    abbrevExclude: seq<string>,
    debug: bool)

  /** The defaults of the constructor. */
  const DefaultConfig := Config(2, 4, 7, [], false)

  /** The rules an abbreviation candidate must pass, tested in the source's order. An
      accepted candidate always holds an upper-case letter: it has a letter, and having
      no upper-case letter would make it all lower-case. */
  function PrefilterCandidate(cfg: Config, c: string): (r: bool)
    ensures r <==>
      && cfg.minLen <= |c| <= cfg.maxLen
      && '=' !in c
      && (exists i :: 0 <= i < |c| && IsAlpha(c[i]))
      && !((exists i :: 0 <= i < |c| && IsLowerLetter(c[i])) && forall i :: 0 <= i < |c| ==> !IsUpper(c[i]))
      && c !in cfg.abbrevExclude
    ensures r <==>
      && cfg.minLen <= |c| <= cfg.maxLen
      && '=' !in c
      && (exists i :: 0 <= i < |c| && IsUpper(c[i]))
      && c !in cfg.abbrevExclude
  {
    if !(cfg.minLen <= |c| <= cfg.maxLen) then false
    else if '=' in c then false
    else if !HasAlpha(c) then false
    else if IsLowerStr(c) then false
    else if c in cfg.abbrevExclude then false
    else true
  }

  /** The rules a reconstructed long form must pass for abbreviation `a`: at most 50
      characters, no " .", at most two punctuation characters, `a` not inside it and
      every character of `a` somewhere in it, all compared ignoring case. */
  function PrefilterLongVersion(lv: string, a: string): (r: bool)
    ensures r <==>
      && |lv| <= 50
      && !(exists i :: 0 <= i <= |lv| && " ." <= lv[i..])
      && Count(lv, Punctuation) <= 2
      && !(exists i :: 0 <= i <= |lv| && Lower(a) <= Lower(lv)[i..])
      && forall i :: 0 <= i < |a| ==> exists j :: 0 <= j < |lv| && LowerChar(lv[j]) == LowerChar(a[i])
  {
    assert forall j :: 0 <= j < |lv| ==> Lower(lv)[j] == LowerChar(lv[j]);
    if |lv| > 50 then false
    else if IsSubstring(" .", lv) then false
    else if Count(lv, Punctuation) > 2 then false
    else if IsSubstring(Lower(a), Lower(lv)) then false
    else if !(forall i :: 0 <= i < |a| ==> LowerChar(a[i]) in Lower(lv)) then false
    else true
  }
}
