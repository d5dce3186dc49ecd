/** Timestamp normalisation: everything from the first '.' of a timestamp
    text is dropped before the fixed-format date parser sees it. */
module Timestamps {
  import opened Outcomes

  /** Parsed timestamps, seconds on a common time line. */
  type Timestamp = int

  /** The fixed-format date parser, `None` when the text does not match. */
  type Parser = string -> Option<Timestamp>

  /** The text before the first '.', or the whole text when it has none. */
  function TruncateFraction(s: string): (r: string)
    ensures r <= s
    ensures '.' !in r
    ensures |r| < |s| ==> s[|r|] == '.'
  {
    if s == [] || s[0] == '.' then []
    else [s[0]] + TruncateFraction(s[1..])
  }

  /** The three facts in TruncateFraction's contract pin its result down. */
  lemma {:induction false} TruncationUnique(s: string, r: string)
    requires r <= s && '.' !in r
    requires |r| < |s| ==> s[|r|] == '.'
    ensures r == TruncateFraction(s)
  {
  }

  /** Text without a '.' is left as it is. */
  lemma TruncateFractionKeepsPlain(s: string)
    requires '.' !in s
    ensures TruncateFraction(s) == s
  {
    TruncationUnique(s, s);
  }

  /** Truncating twice is truncating once. */
  lemma TruncateFractionIdempotent(s: string)
    ensures TruncateFraction(TruncateFraction(s)) == TruncateFraction(s)
  {
    TruncateFractionKeepsPlain(TruncateFraction(s));
  }

  /** A fractional-seconds suffix is dropped whatever it holds. */
  lemma TruncateFractionDropsSuffix(s: string, frac: string)
    requires '.' !in s
    ensures TruncateFraction(s + "." + frac) == s
  {
    var full := s + "." + frac;
    assert full[|s|] == '.';
    TruncationUnique(full, s);
  }

  /** A timestamp text as the scoring run reads it: truncated, then parsed. */
  function Dt(parse: Parser, s: string): (r: Option<Timestamp>)
    ensures '.' !in s ==> r == parse(s)
    ensures exists k :: 0 <= k <= |s| && '.' !in s[..k] && (k < |s| ==> s[k] == '.') && r == parse(s[..k])
  {
    var t := TruncateFraction(s);
    assert '.' !in s ==> t == s by {
      if '.' !in s {
        TruncateFractionKeepsPlain(s);
      }
    }
    assert s[..|t|] == t;
    parse(t)
  }

  /** `s` and `s + "." + frac` denote the same timestamp. */
  lemma DtIgnoresFraction(parse: Parser, s: string, frac: string)
    requires '.' !in s
    ensures Dt(parse, s + "." + frac) == Dt(parse, s)
  {
    TruncateFractionDropsSuffix(s, frac);
    TruncateFractionKeepsPlain(s);
  }
}
