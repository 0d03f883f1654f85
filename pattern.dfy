/** The regular expressions `/(\d+\.\d+)SUFFIX/` of `handleDateStr`, run with `exec`: the pattern
    is unanchored, so `exec` reports the LEFTMOST position where it matches, and the capture group
    is the version number in front of the suffix. Every suffix used ("版本更新后", "版本结束前",
    "版本结束") starts with a character that is not a digit. */
module Pattern {
  import opened Wrappers
  import opened Text

  /** A suffix the matcher handles exactly: non-empty and not starting with a digit. */
  predicate SuffixOk(suffix: string) {
    |suffix| > 0 && !IsDigit(suffix[0])
  }

  /** `key` has the shape `\d+\.\d+`. */
  predicate IsVersionNumber(key: string) {
    exists p :: 0 < p < |key| - 1 && key[p] == '.' && AllDigits(key[..p]) && AllDigits(key[p + 1..])
  }

  /** The regex matches at position `i` of `s`, capturing `key`. */
  predicate MatchesAt(s: string, i: nat, key: string, suffix: string) {
    IsVersionNumber(key) && HasAt(s, i, key + suffix)
  }

  /** The regex matches somewhere in `s`, and its leftmost match captures `key`. */
  ghost predicate FirstMatch(s: string, suffix: string, key: string) {
    exists i: nat :: MatchesAt(s, i, key, suffix) && forall j: nat, k :: j < i ==> !MatchesAt(s, j, k, suffix)
  }

  /** The regex matches nowhere in `s`. */
  ghost predicate NoMatch(s: string, suffix: string) {
    forall i: nat, k :: !MatchesAt(s, i, k, suffix)
  }

  /** A leading run of digits that is followed by a non-digit is the whole digit run. */
  lemma DigitRunIsMaximal(s: string, i: nat, n: nat)
    requires i + n < |s| && AllDigits(s[i..i + n]) && !IsDigit(s[i + n])
    ensures DigitRun(s, i) == n
    decreases n
  {
    if n > 0 {
      assert IsDigit(s[i..i + n][0]);
      assert s[i + 1..i + n] == s[i..i + n][1..];
      DigitRunIsMaximal(s, i + 1, n - 1);
    }
  }

  /** What the regex needs at position `i`, with each digit run taken whole: digits, a '.',
      digits, then the suffix. */
  predicate RunsMatch(s: string, i: nat, suffix: string)
    requires i <= |s|
  {
    var j := i + DigitRun(s, i);
    i < j < |s| && s[j] == '.' &&
    DigitRun(s, j + 1) > 0 && HasAt(s, j + 1 + DigitRun(s, j + 1), suffix)
  }

  /** Where the version number starting at `i` ends, when a '.' follows its first digit run. */
  function KeyEnd(s: string, i: nat): (e: nat)
    requires i <= |s|
  {
    var j := i + DigitRun(s, i);
    if j < |s| then j + 1 + DigitRun(s, j + 1) else j
  }

  /** The match attempt at one start position: `\d+` is greedy, and because neither '.' nor the
      first character of the suffix is a digit, backtracking never helps, so each digit run is
      taken whole. */
  function MatchAt(s: string, i: nat, suffix: string): (m: Option<string>)
    requires i <= |s| && SuffixOk(suffix)
  {
    if RunsMatch(s, i, suffix) then Some(s[i..KeyEnd(s, i)]) else None
  }

  /** The attempt at `i` succeeds exactly when the regex matches at `i`, and then it captures the
      only version number the regex can capture there. */
  lemma MatchAtIsMatch(s: string, i: nat, suffix: string)
    requires i <= |s| && SuffixOk(suffix)
    ensures MatchAt(s, i, suffix).Some? ==> MatchesAt(s, i, MatchAt(s, i, suffix).value, suffix)
    ensures forall key :: MatchesAt(s, i, key, suffix) ==> MatchAt(s, i, suffix) == Some(key)
  {
    MatchesAreRuns(s, i, suffix);
    if RunsMatch(s, i, suffix) {
      RunsAreMatch(s, i, suffix);
    }
  }

  /** `s[i..k][..n]` read directly from `s`. */
  lemma TakeOfSlice(s: string, i: nat, k: nat, n: nat)
    requires i <= k <= |s| && n <= k - i
    ensures s[i..k][..n] == s[i..i + n]
  {
  }

  /** `s[i..k][n..]` read directly from `s`. */
  lemma DropOfSlice(s: string, i: nat, k: nat, n: nat)
    requires i <= k <= |s| && n <= k - i
    ensures s[i..k][n..] == s[i + n..k]
  {
  }

  /** Two maximal digit runs around a '.', followed by the suffix, are a match. */
  lemma RunsAreMatch(s: string, i: nat, suffix: string)
    requires i <= |s| && RunsMatch(s, i, suffix)
    ensures MatchesAt(s, i, s[i..KeyEnd(s, i)], suffix)
  {
    var a := DigitRun(s, i);
    var j := i + a;
    var k := KeyEnd(s, i);
    var key := s[i..k];
    TakeOfSlice(s, i, k, a);
    DropOfSlice(s, i, k, a + 1);
    assert key[a] == '.';
    assert IsVersionNumber(key) by {
      assert 0 < a < |key| - 1 && key[a] == '.' && AllDigits(key[..a]) && AllDigits(key[a + 1..]);
    }
    assert s[i..k + |suffix|] == s[i..k] + s[k..k + |suffix|];
  }

  /** The characters of a match, read back from `s`. */
  lemma MatchedText(s: string, i: nat, key: string, suffix: string, p: nat)
    requires HasAt(s, i, key + suffix) && 0 < p < |key| - 1
    ensures s[i..i + p] == key[..p] && s[i + p] == key[p]
    ensures s[i + p + 1..i + |key|] == key[p + 1..]
    ensures s[i..i + |key|] == key
    ensures HasAt(s, i + |key|, suffix)
  {
    var n := |key|;
    var w := s[i..i + n + |suffix|];
    assert w == key + suffix;
    TakeOfSlice(s, i, i + n + |suffix|, p);
    TakeOfSlice(s, i, i + n + |suffix|, n);
    var tail, wtail := s[i + p + 1..i + n], w[p + 1..n];
    assert tail == wtail by {
      forall k | 0 <= k < |tail| ensures tail[k] == wtail[k] {
        assert tail[k] == s[i + p + 1 + k] == w[p + 1 + k];
      }
    }
    assert w[p + 1..n] == key[p + 1..];
    DropOfSlice(s, i, i + n + |suffix|, n);
    assert s[i + n..i + n + |suffix|] == w[n..];
  }

  /** A match at `i` consists of the maximal digit run at `i`, a '.', the maximal digit run after
      it, and then the suffix. */
  lemma MatchedKeyIsRuns(s: string, i: nat, key: string, suffix: string)
    requires SuffixOk(suffix) && MatchesAt(s, i, key, suffix)
    ensures i <= |s| && RunsMatch(s, i, suffix) && key == s[i..KeyEnd(s, i)]
  {
    var p :| 0 < p < |key| - 1 && key[p] == '.' && AllDigits(key[..p]) && AllDigits(key[p + 1..]);
    var n := |key|;
    MatchedText(s, i, key, suffix, p);
    assert !IsDigit(s[i + p]);
    DigitRunIsMaximal(s, i, p);
    assert s[i + n] == suffix[0] by {
      assert s[i + n..i + n + |suffix|][0] == s[i + n];
    }
    DigitRunIsMaximal(s, i + p + 1, n - p - 1);
    assert KeyEnd(s, i) == i + n;
  }

  /** Every match at `i` is the one made of the two digit runs. */
  lemma MatchesAreRuns(s: string, i: nat, suffix: string)
    requires i <= |s| && SuffixOk(suffix)
    ensures forall key :: MatchesAt(s, i, key, suffix) ==> RunsMatch(s, i, suffix) && key == s[i..KeyEnd(s, i)]
  {
    forall key | MatchesAt(s, i, key, suffix) ensures RunsMatch(s, i, suffix) && key == s[i..KeyEnd(s, i)] {
      MatchedKeyIsRuns(s, i, key, suffix);
    }
  }

  /** The leftmost match at or after position `from`: the match attempt is made at `from`,
      `from + 1`, … up to the end of `s`, and the first success is the result. */
  function FindFrom(s: string, suffix: string, from: nat): (r: Option<string>)
    requires from <= |s| && SuffixOk(suffix)
    decreases |s| - from
  {
    var m := MatchAt(s, from, suffix);
    if m.Some? || from == |s| then m
    else FindFrom(s, suffix, from + 1)
  }

  /** The search returns the attempt at the first position where it succeeds, and nothing when
      it fails everywhere. */
  lemma {:induction false} FindFromIsFirstAttempt(s: string, suffix: string, from: nat)
    requires from <= |s| && SuffixOk(suffix)
    ensures FindFrom(s, suffix, from).Some? ==>
              exists i :: from <= i <= |s| && MatchAt(s, i, suffix) == FindFrom(s, suffix, from) &&
                          forall j :: from <= j < i ==> MatchAt(s, j, suffix).None?
    ensures FindFrom(s, suffix, from).None? ==> forall j :: from <= j <= |s| ==> MatchAt(s, j, suffix).None?
    decreases |s| - from
  {
    if MatchAt(s, from, suffix).None? && from < |s| {
      FindFromIsFirstAttempt(s, suffix, from + 1);
      if FindFrom(s, suffix, from + 1).Some? {
        var i :| from + 1 <= i <= |s| && MatchAt(s, i, suffix) == FindFrom(s, suffix, from + 1) &&
                 forall j :: from + 1 <= j < i ==> MatchAt(s, j, suffix).None?;
        assert forall j :: from <= j < i ==> MatchAt(s, j, suffix).None?;
      }
    }
  }

  /** `/(\d+\.\d+)SUFFIX/.exec(s)`, reduced to its capture group. */
  function Exec(s: string, suffix: string): (r: Option<string>)
    requires SuffixOk(suffix)
    ensures forall key :: r == Some(key) <==> FirstMatch(s, suffix, key)
    ensures r == None <==> NoMatch(s, suffix)
  {
    var r := FindFrom(s, suffix, 0);
    if r.Some? then
      FoundIsLeftmost(s, suffix);
      r
    else
      NotFoundIsNoMatch(s, suffix);
      r
  }

  /** The first position where the attempt succeeds holds the leftmost match, and no other
      version number is the leftmost match. */
  lemma FoundIsLeftmost(s: string, suffix: string)
    requires SuffixOk(suffix) && FindFrom(s, suffix, 0).Some?
    ensures FirstMatch(s, suffix, FindFrom(s, suffix, 0).value)
    ensures forall key :: FirstMatch(s, suffix, key) ==> key == FindFrom(s, suffix, 0).value
  {
    var r := FindFrom(s, suffix, 0);
    FindFromIsFirstAttempt(s, suffix, 0);
    var i :| 0 <= i <= |s| && MatchAt(s, i, suffix) == r &&
             forall j :: 0 <= j < i ==> MatchAt(s, j, suffix).None?;
    var key := r.value;
    forall j: nat, k | j < i ensures !MatchesAt(s, j, k, suffix) {
      assert MatchAt(s, j, suffix).None?;
      MatchAtIsMatch(s, j, suffix);
    }
    MatchAtIsMatch(s, i, suffix);
    assert MatchesAt(s, i, key, suffix);
    forall other | FirstMatch(s, suffix, other) ensures other == key {
      var i': nat :| MatchesAt(s, i', other, suffix) && forall j: nat, k :: j < i' ==> !MatchesAt(s, j, k, suffix);
      assert i' == i;
      assert MatchAt(s, i, suffix) == Some(other);
    }
  }

  /** When the attempt fails everywhere, the regex matches nowhere. */
  lemma NotFoundIsNoMatch(s: string, suffix: string)
    requires SuffixOk(suffix) && FindFrom(s, suffix, 0).None?
    ensures NoMatch(s, suffix)
  {
    FindFromIsFirstAttempt(s, suffix, 0);
    forall i: nat, k ensures !MatchesAt(s, i, k, suffix) {
      if i <= |s| {
        assert MatchAt(s, i, suffix).None?;
        MatchAtIsMatch(s, i, suffix);
      }
    }
  }

  /** Every match of "…版本结束前" is also a match of "…版本结束" at the same place with the same
      version number: the third regex accepts everything the second does. */
  lemma LongerSuffixMatchesShorter(s: string, i: nat, key: string, suffix: string, longer: string)
    requires MatchesAt(s, i, key, longer) && |suffix| <= |longer| && longer[..|suffix|] == suffix
    ensures MatchesAt(s, i, key, suffix)
  {
    assert (key + suffix) == (key + longer)[..|key| + |suffix|];
    assert s[i..i + |key + suffix|] == s[i..i + |key + longer|][..|key| + |suffix|];
  }
}
