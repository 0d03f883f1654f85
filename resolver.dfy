/** `handleDateStr`: turns one end of an event's time cell into a date. The phrase is tested
    against four patterns in a fixed order, and the first that matches decides:
      1. "x.y版本更新后" — the start of version x.y (an unknown version is an error);
      2. "x.y版本结束前" — the end of version x.y or, when the version is not in the table yet,
         the month-end fallback as the code computes it (`JsDate.MonthEndAsWritten`);
      3. "x.y版本结束"   — the end of version x.y (an unknown version is an error);
      4. "正式开服后"    — the official launch;
    and anything else is read as an absolute date in UTC+8. */
module Resolver {
  import opened Wrappers
  import opened Text
  import opened Pattern
  import opened JsDate
  import opened Timeline

  const AfterUpdate: string := "版本更新后"
  const BeforeEnd: string := "版本结束前"
  const AtEnd: string := "版本结束"
  const AfterLaunch: string := "正式开服后"

  /** The error `handleDateStr` throws. */
  datatype ResolveError = UnknownVersion(key: string)
  {
    /** The error's message text. */
    function Message(): (msg: string) {
      "Cannot find version: " + key
    }
  }

  lemma SuffixesOk()
    ensures SuffixOk(AfterUpdate) && SuffixOk(BeforeEnd) && SuffixOk(AtEnd)
  {
  }

  /** The date a phrase denotes, given the version timeline, the clock `now` (read by the
      month-end fallback) and `parse` (JavaScript's `new Date(string)`). The only failure is a
      version number, captured by the first or the third pattern, that the timeline lacks. */
  function Resolve(version: map<string, Interval>, now: int, parse: string -> Date, s: string)
    : (r: Result<Date, ResolveError>)
    ensures r.Failure? ==>
              var key := r.error.key;
              key !in version && IsVersionNumber(key) &&
              (FirstMatch(s, AfterUpdate, key) ||
               (NoMatch(s, AfterUpdate) && NoMatch(s, BeforeEnd) && FirstMatch(s, AtEnd, key)))
  {
    SuffixesOk();
    match Exec(s, AfterUpdate)
    case Some(key) =>
      if key !in version then Failure(UnknownVersion(key)) else Success(version[key].start)
    case None =>
      match Exec(s, BeforeEnd)
      case Some(key) =>
        if key in version then Success(version[key].end) else Success(Instant(MonthEndAsWritten(now)))
      case None =>
        match Exec(s, AtEnd)
        case Some(key) =>
          if key !in version then Failure(UnknownVersion(key)) else Success(version[key].end)
        case None =>
          if IndexOf(s, AfterLaunch, 0).Some? then Success(Instant(LaunchMs))
          else Success(parse(s + " UTC+0800"))
  }

  /** Rule 1: the leftmost "x.y版本更新后" gives the start of version x.y, or the error. */
  lemma ResolveAfterUpdate(version: map<string, Interval>, now: int, parse: string -> Date, s: string, key: string)
    requires FirstMatch(s, AfterUpdate, key)
    ensures Resolve(version, now, parse, s) ==
            if key in version then Success(version[key].start) else Failure(UnknownVersion(key))
  {
    SuffixesOk();
  }

  /** Rule 2, reached only when rule 1 does not apply: the leftmost "x.y版本结束前" gives the end of
      version x.y, or the fallback `MonthEndAsWritten(now)`: midnight UTC at the end of the
      current UTC month, or of the next one when today's day of the month does not exist in the
      next month. It never fails. */
  lemma ResolveBeforeEnd(version: map<string, Interval>, now: int, parse: string -> Date, s: string, key: string)
    requires NoMatch(s, AfterUpdate) && FirstMatch(s, BeforeEnd, key)
    ensures Resolve(version, now, parse, s) ==
            if key in version then Success(version[key].end) else Success(Instant(MonthEndAsWritten(now)))
  {
    SuffixesOk();
  }

  /** Rule 3, reached only when rules 1 and 2 do not apply: the leftmost "x.y版本结束" gives the end
      of version x.y, or the error. */
  lemma ResolveAtEnd(version: map<string, Interval>, now: int, parse: string -> Date, s: string, key: string)
    requires NoMatch(s, AfterUpdate) && NoMatch(s, BeforeEnd) && FirstMatch(s, AtEnd, key)
    ensures Resolve(version, now, parse, s) ==
            if key in version then Success(version[key].end) else Failure(UnknownVersion(key))
  {
    SuffixesOk();
  }

  /** Rule 4: with no version phrase, any occurrence of "正式开服后" gives the launch instant. */
  lemma ResolveLaunch(version: map<string, Interval>, now: int, parse: string -> Date, s: string)
    requires NoMatch(s, AfterUpdate) && NoMatch(s, BeforeEnd) && NoMatch(s, AtEnd)
    requires Contains(s, AfterLaunch)
    ensures Resolve(version, now, parse, s) == Success(Instant(LaunchMs))
  {
    SuffixesOk();
    IndexOfFindsContains(s, AfterLaunch);
  }

  /** Otherwise the phrase is parsed as a date in UTC+8. */
  lemma ResolveAbsolute(version: map<string, Interval>, now: int, parse: string -> Date, s: string)
    requires NoMatch(s, AfterUpdate) && NoMatch(s, BeforeEnd) && NoMatch(s, AtEnd)
    requires !Contains(s, AfterLaunch)
    ensures Resolve(version, now, parse, s) == Success(parse(s + " UTC+0800"))
  {
    SuffixesOk();
    IndexOfFindsContains(s, AfterLaunch);
  }

  /** Every "x.y版本结束前" is also an "x.y版本结束", so the third pattern could capture it: the
      order of the rules matters. When the second rule applies, the phrase also matches the third
      pattern, and yet the result is never an error. */
  lemma BeforeEndShadowsAtEnd(version: map<string, Interval>, now: int, parse: string -> Date, s: string, key: string)
    requires NoMatch(s, AfterUpdate) && FirstMatch(s, BeforeEnd, key)
    ensures !NoMatch(s, AtEnd)
    ensures Resolve(version, now, parse, s).Success?
  {
    var i: nat :| MatchesAt(s, i, key, BeforeEnd) && forall j: nat, k :: j < i ==> !MatchesAt(s, j, k, BeforeEnd);
    assert BeforeEnd[..|AtEnd|] == AtEnd;
    LongerSuffixMatchesShorter(s, i, key, AtEnd, BeforeEnd);
    ResolveBeforeEnd(version, now, parse, s, key);
  }

  /** A phrase that names no version does not depend on the timeline or the clock. */
  lemma ResolveWithoutVersion(v1: map<string, Interval>, v2: map<string, Interval>, now1: int, now2: int,
                              parse: string -> Date, s: string)
    requires NoMatch(s, AfterUpdate) && NoMatch(s, BeforeEnd) && NoMatch(s, AtEnd)
    ensures Resolve(v1, now1, parse, s) == Resolve(v2, now2, parse, s)
    ensures Resolve(v1, now1, parse, s).Success?
  {
    SuffixesOk();
  }

  /** A phrase without a digit matches none of the version patterns. */
  lemma NoDigitNoVersion(s: string, suffix: string)
    requires forall i :: 0 <= i < |s| ==> !IsDigit(s[i])
    ensures NoMatch(s, suffix)
  {
    forall i: nat, key ensures !MatchesAt(s, i, key, suffix) {
      if MatchesAt(s, i, key, suffix) {
        MatchStartsWithDigit(s, i, key, suffix);
      }
    }
  }

  /** A match starts with the first digit of its version number. */
  lemma MatchStartsWithDigit(s: string, i: nat, key: string, suffix: string)
    requires MatchesAt(s, i, key, suffix)
    ensures i < |s| && IsDigit(s[i])
  {
    var p :| 0 < p < |key| - 1 && key[p] == '.' && AllDigits(key[..p]) && AllDigits(key[p + 1..]);
    assert key[..p][0] == key[0];
    assert s[i..i + |key + suffix|][0] == s[i];
  }
}
