/** The two regular expressions shared by the server and the client:
    /\d{4}-\d{2}-\d{2}/ (also written /\d\d\d\d-\d\d-\d\d/) for dates and
    /\d{2}:\d{2}/ for times. Neither is anchored, so each matches anywhere in
    the string; \d is an ASCII decimal digit. */
module Patterns {
  import opened Wrappers
  import opened JsNumber

  datatype Pattern = DatePattern | TimePattern

  /** The length of every match of the pattern. */
  function Width(p: Pattern): nat {
    match p
    case DatePattern => 10
    case TimePattern => 5
  }

  /** The pattern matches s at position i. */
  predicate MatchAt(p: Pattern, s: string, i: int) {
    && 0 <= i && i + Width(p) <= |s|
    && match p
       case DatePattern =>
         && IsDigit(s[i]) && IsDigit(s[i + 1]) && IsDigit(s[i + 2]) && IsDigit(s[i + 3])
         && s[i + 4] == '-' && IsDigit(s[i + 5]) && IsDigit(s[i + 6])
         && s[i + 7] == '-' && IsDigit(s[i + 8]) && IsDigit(s[i + 9])
       case TimePattern =>
         && IsDigit(s[i]) && IsDigit(s[i + 1]) && s[i + 2] == ':'
         && IsDigit(s[i + 3]) && IsDigit(s[i + 4])
  }

  /** RegExp.prototype.test, or a truthy result of String.prototype.match. */
  predicate Matches(p: Pattern, s: string) {
    exists i | 0 <= i <= |s| :: MatchAt(p, s, i)
  }

  /** The leftmost position at or after `from` where the pattern matches. */
  function FirstMatch(p: Pattern, s: string, from: nat): (r: Option<nat>)
    ensures r.Some? ==> from <= r.value && MatchAt(p, s, r.value)
    ensures r.Some? ==> forall j | from <= j < r.value :: !MatchAt(p, s, j)
    ensures r.None? ==> forall j | from <= j :: !MatchAt(p, s, j)
    decreases |s| - from
  {
    if from + Width(p) > |s| then None
    else if MatchAt(p, s, from) then Some(from)
    else FirstMatch(p, s, from + 1)
  }

  /** `s.match(p)[0]`: the leftmost match, or None where match returns null. */
  function MatchText(p: Pattern, s: string): (r: Option<string>)
    ensures r.Some? <==> Matches(p, s)
    ensures r.Some? ==> |r.value| == Width(p)
    ensures r.Some? ==> exists i :: MatchAt(p, s, i) && r.value == s[i..i + Width(p)]
                                    && forall j | 0 <= j < i :: !MatchAt(p, s, j)
  {
    match FirstMatch(p, s, 0)
    case Some(i) => Some(s[i..i + Width(p)])
    case None => None
  }

  /** Matching is unanchored: a match anywhere inside a longer string counts. */
  lemma {:induction false} MatchesInside(p: Pattern, before: string, m: string, after: string)
    requires MatchAt(p, m, 0)
    ensures Matches(p, before + m + after)
  {
    var s := before + m + after;
    var i := |before|;
    assert s[i..i + Width(p)] == m[..Width(p)];
    assert MatchAt(p, s, i);
  }
}
