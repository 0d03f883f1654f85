/** The JavaScript string operations the extractor relies on: `String.prototype.replace` with a
    one-character string pattern, `String.prototype.split` with a non-empty string separator,
    substring search, and the ASCII digit class `\d` of regular expressions. */
module Text {
  import opened Wrappers

  /** The regex class `\d`: ASCII digits only. */
  predicate IsDigit(c: char) {
    '0' <= c <= '9'
  }

  predicate AllDigits(s: string) {
    forall i :: 0 <= i < |s| ==> IsDigit(s[i])
  }

  /** `t` occurs in `s` starting at position `i`. */
  predicate HasAt(s: string, i: nat, t: string) {
    i + |t| <= |s| && s[i..i + |t|] == t
  }

  predicate Contains(s: string, t: string) {
    exists i: nat :: i <= |s| && HasAt(s, i, t)
  }

  /** Length of the longest run of digits that starts at position `i`. */
  function DigitRun(s: string, i: nat): (n: nat)
    requires i <= |s|
    ensures i + n <= |s|
    ensures AllDigits(s[i..i + n])
    ensures i + n == |s| || !IsDigit(s[i + n])
    decreases |s| - i
  {
    if i < |s| && IsDigit(s[i]) then
      var n := 1 + DigitRun(s, i + 1);
      assert s[i..i + n] == [s[i]] + s[i + 1..i + n];
      n
    else
      0
  }

  /** An occurrence of a non-empty `t` starts with the first character of `t`. */
  lemma HasAtFirst(s: string, i: nat, t: string)
    requires HasAt(s, i, t) && |t| > 0
    ensures i < |s| && s[i] == t[0]
  {
    assert s[i..i + |t|][0] == s[i];
  }

  /** A string without the first character of `t` does not contain `t`. */
  lemma MissingFirstChar(s: string, t: string)
    requires |t| > 0 && t[0] !in s
    ensures !Contains(s, t)
  {
    forall i: nat | i <= |s| ensures !HasAt(s, i, t) {
      if HasAt(s, i, t) {
        HasAtFirst(s, i, t);
      }
    }
  }

  /** Position of the leftmost occurrence of `t` in `s` at or after `from`. */
  function IndexOf(s: string, t: string, from: nat): (r: Option<nat>)
    requires from <= |s|
    ensures r.Some? ==> from <= r.value <= |s| && HasAt(s, r.value, t)
    ensures r.Some? ==> forall j :: from <= j < r.value ==> !HasAt(s, j, t)
    ensures r.None? ==> forall j :: from <= j ==> !HasAt(s, j, t)
    decreases |s| - from
  {
    if HasAt(s, from, t) then Some(from)
    else if from == |s| then None
    else IndexOf(s, t, from + 1)
  }

  lemma IndexOfFindsContains(s: string, t: string)
    ensures IndexOf(s, t, 0).Some? <==> Contains(s, t)
  {
    if Contains(s, t) {
      var i: nat :| i <= |s| && HasAt(s, i, t);
      assert !(IndexOf(s, t, 0).None?);
    }
  }

  /** Position of the first `c` in `s`. */
  function FirstIndex(s: string, c: char): (i: nat)
    requires c in s
    ensures i < |s| && s[i] == c && c !in s[..i]
  {
    if s[0] == c then 0
    else
      assert c in s[1..];
      var j := FirstIndex(s[1..], c);
      assert s[..j + 1] == [s[0]] + s[1..][..j];
      j + 1
  }

  /** `s.replace(c, "")` for a one-character string pattern: only the FIRST occurrence goes. */
  function RemoveFirst(s: string, c: char): (r: string)
    ensures c !in s ==> r == s
    ensures c in s ==>
              |r| == |s| - 1 &&
              exists i :: 0 <= i < |s| && s[i] == c && c !in s[..i] && r == s[..i] + s[i + 1..]
  {
    if c in s then
      var i := FirstIndex(s, c);
      s[..i] + s[i + 1..]
    else
      s
  }

  /** Concatenation of `parts` with `sep` between neighbours: `parts.join(sep)`. */
  function Join(parts: seq<string>, sep: string): (joined: string)
  {
    if parts == [] then ""
    else if |parts| == 1 then parts[0]
    else parts[0] + sep + Join(parts[1..], sep)
  }

  /** `s.split(sep)` for a non-empty separator: cut at each leftmost occurrence, left to right. */
  function Split(s: string, sep: string): (parts: seq<string>)
    requires |sep| > 0
    ensures |parts| >= 1
    ensures Join(parts, sep) == s
    ensures forall k :: 0 <= k < |parts| ==> !Contains(parts[k], sep)
    decreases |s|
  {
    match IndexOf(s, sep, 0)
    case None =>
      assert !Contains(s, sep) by { IndexOfFindsContains(s, sep); }
      [s]
    case Some(i) =>
      var head := s[..i];
      var rest := Split(s[i + |sep|..], sep);
      assert s == head + sep + s[i + |sep|..];
      assert !Contains(head, sep) by {
        forall j: nat | j <= |head| && HasAt(head, j, sep) ensures false {
          assert head[j..j + |sep|] == s[j..j + |sep|];
          assert HasAt(s, j, sep) && j < i;
        }
      }
      [head] + rest
  }
  /** `sep` does not overlap a shifted copy of itself, as "~" and ", " do not: an occurrence of it
      can never straddle the boundary between a part and the separator that follows. */
  predicate NoSelfOverlap(sep: string) {
    forall k :: 0 < k < |sep| ==> sep[k..] != sep[..|sep| - k]
  }

  /** In `a + sep + rest`, the first separator is the one written after `a`. */
  lemma FirstSeparator(a: string, sep: string, rest: string)
    requires |sep| > 0 && NoSelfOverlap(sep) && !Contains(a, sep)
    ensures IndexOf(a + sep + rest, sep, 0) == Some(|a|)
  {
    var s := a + sep + rest;
    assert s[|a|..|a| + |sep|] == sep;
    forall j | 0 <= j < |a| ensures !HasAt(s, j, sep) {
      if HasAt(s, j, sep) {
        if |a| < j + |sep| {
          SeparatorOverlap(a, sep, rest, j);
        } else {
          OccurrenceInside(a, sep, rest, j);
        }
      }
    }
    assert HasAt(s, |a|, sep);
  }

  /** An occurrence in `a + sep + rest` that lies within `a` is an occurrence in `a`. */
  lemma OccurrenceInside(a: string, sep: string, rest: string, j: nat)
    requires HasAt(a + sep + rest, j, sep) && j + |sep| <= |a|
    ensures HasAt(a, j, sep)
  {
    assert a[j..j + |sep|] == (a + sep + rest)[j..j + |sep|];
  }

  /** An occurrence of `sep` in `a + sep + rest` that starts inside `a` and ends inside the
      written separator makes `sep` overlap a shifted copy of itself. */
  lemma SeparatorOverlap(a: string, sep: string, rest: string, j: nat)
    requires HasAt(a + sep + rest, j, sep) && j < |a| < j + |sep|
    ensures sep[|a| - j..] == sep[..|sep| - (|a| - j)]
  {
    var s := a + sep + rest;
    var k := |a| - j;
    var w := s[j..j + |sep|];
    forall t | 0 <= t < |sep| - k ensures sep[k + t] == sep[t] {
      assert sep[k + t] == w[k + t] == s[|a| + t];
    }
  }

  /** Splitting undoes joining, when no part contains the separator: `parts.join(sep).split(sep)`
      gives `parts` back. */
  lemma {:induction false} SplitJoin(parts: seq<string>, sep: string)
    requires |sep| > 0 && NoSelfOverlap(sep) && |parts| > 0
    requires forall k :: 0 <= k < |parts| ==> !Contains(parts[k], sep)
    ensures Split(Join(parts, sep), sep) == parts
    decreases |parts|
  {
    if |parts| == 1 {
      IndexOfFindsContains(parts[0], sep);
    } else {
      var a := parts[0];
      var rest := Join(parts[1..], sep);
      var s := a + sep + rest;
      FirstSeparator(a, sep, rest);
      assert s[..|a|] == a;
      assert s[|a| + |sep|..] == rest;
      SplitJoin(parts[1..], sep);
      assert parts == [a] + parts[1..];
    }
  }
}
