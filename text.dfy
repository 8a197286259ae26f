/** The handful of Python `str` operations the manager relies on, written out
    over `string` (= `seq<char>`): prefix and suffix tests, `replace`, `split`,
    decimal digits and `int(...)`. */
module Text {

  predicate StartsWith(s: string, p: string) {
    |p| <= |s| && s[..|p|] == p
  }

  predicate EndsWith(s: string, p: string) {
    |p| <= |s| && s[|s| - |p|..] == p
  }

  /** `p` occurs in `s` starting at index `i`. */
  predicate OccursAt(s: string, p: string, i: nat) {
    i + |p| <= |s| && s[i..i + |p|] == p
  }

  predicate Contains(s: string, p: string) {
    exists i: nat :: i + |p| <= |s| && OccursAt(s, p, i)
  }

  /** `s.replace(a, b)` for one-character strings `a` and `b`. */
  function ReplaceChar(s: string, a: char, b: char): (r: string)
    ensures |r| == |s|
    ensures forall i :: 0 <= i < |s| ==> r[i] == (if s[i] == a then b else s[i])
    ensures a != b ==> a !in r
  {
    seq(|s|, i requires 0 <= i < |s| => if s[i] == a then b else s[i])
  }

  /** `s.replace(pat, '')`: scans left to right and drops every non-overlapping
      occurrence of `pat`; an empty `pat` leaves `s` as it is. */
  function RemoveAll(s: string, pat: string): (r: string)
    ensures |r| <= |s|
    decreases |s|
  {
    if |pat| == 0 || |s| < |pat| then s
    else if s[..|pat|] == pat then RemoveAll(s[|pat|..], pat)
    else [s[0]] + RemoveAll(s[1..], pat)
  }

  /** Removing an occurrence shortens the text by at least the pattern's length. */
  lemma {:induction false} RemoveAllShrinks(s: string, pat: string, i: nat)
    requires |pat| > 0 && OccursAt(s, pat, i)
    ensures |RemoveAll(s, pat)| + |pat| <= |s|
    decreases |s|
  {
    if s[..|pat|] == pat {
    } else {
      assert i > 0;
      assert s[1..][i - 1..i - 1 + |pat|] == s[i..i + |pat|];
      RemoveAllShrinks(s[1..], pat, i - 1);
    }
  }

  lemma SliceOfSlice(t: string, a: nat, b: nat, c: nat, d: nat)
    requires a <= b <= |t| && c <= d <= b - a
    ensures t[a..b][c..d] == t[a + c..a + d]
  {
    assert forall i :: 0 <= i < d - c ==> t[a..b][c..d][i] == t[a + c..a + d][i];
  }

  /** An occurrence in `s[1..]` is an occurrence in `s`, one index later. */
  lemma OccursShift(s: string, pat: string, q: nat)
    requires |s| > 0 && OccursAt(s[1..], pat, q)
    ensures OccursAt(s, pat, q + 1)
  {
    assert s[1..][q..q + |pat|] == s[q + 1..q + 1 + |pat|];
  }

  /** When no occurrence starts inside the prefix `x`, `replace` keeps `x` as it is. */
  lemma {:induction false} RemoveAllKeepsPrefix(x: string, rest: string, pat: string)
    requires |pat| > 0
    requires forall q: nat :: q < |x| ==> !OccursAt(x + rest, pat, q)
    ensures RemoveAll(x + rest, pat) == x + RemoveAll(rest, pat)
    decreases |x|
  {
    if x != [] {
      var s := x + rest;
      assert !OccursAt(s, pat, 0);
      if |s| < |pat| {
        assert RemoveAll(s, pat) == s;
        assert RemoveAll(rest, pat) == rest;
      } else {
        assert s[..|pat|] != pat;
        assert s[1..] == x[1..] + rest;
        forall q: nat | q < |x[1..]|
          ensures !OccursAt(x[1..] + rest, pat, q)
        {
          if OccursAt(s[1..], pat, q) {
            OccursShift(s, pat, q);
          }
        }
        RemoveAllKeepsPrefix(x[1..], rest, pat);
        assert RemoveAll(s, pat) == [s[0]] + RemoveAll(s[1..], pat);
        assert [s[0]] + (x[1..] + RemoveAll(rest, pat)) == x + RemoveAll(rest, pat);
      }
    } else {
      assert x + rest == rest;
    }
  }

  /** `sep.join(parts)`. */
  function JoinWith(parts: seq<string>, sep: string): string
    decreases |parts|
  {
    if |parts| == 0 then ""
    else if |parts| == 1 then parts[0]
    else parts[0] + sep + JoinWith(parts[1..], sep)
  }

  /** `s.split(sep)` for a non-empty separator (Python rejects an empty one):
      cuts at every non-overlapping occurrence found left to right, so there is
      always at least one piece and joining the pieces gives back `s`. */
  function Split(s: string, sep: string): (r: seq<string>)
    requires |sep| > 0
    ensures |r| >= 1
    ensures JoinWith(r, sep) == s
    decreases |s|
  {
    if |s| < |sep| then [s]
    else if s[..|sep|] == sep then
      var tail := Split(s[|sep|..], sep);
      assert s == sep + s[|sep|..];
      [""] + tail
    else
      var tail := Split(s[1..], sep);
      var r := [[s[0]] + tail[0]] + tail[1..];
      assert s == [s[0]] + s[1..];
      assert r[1..] == tail[1..];
      r
  }

  /** No piece of a split still contains the separator. */
  lemma {:induction false} SplitPiecesFree(s: string, sep: string)
    requires |sep| > 0
    ensures forall k :: 0 <= k < |Split(s, sep)| ==> !Contains(Split(s, sep)[k], sep)
    decreases |s|
  {
    var r := Split(s, sep);
    if |s| < |sep| {
      forall i: nat ensures !OccursAt(s, sep, i) { }
    } else if s[..|sep|] == sep {
      SplitPiecesFree(s[|sep|..], sep);
      forall i: nat ensures !OccursAt("", sep, i) { }
      assert r[0] == "";
      forall k | 1 <= k < |r| ensures !Contains(r[k], sep) {
        assert r[k] == Split(s[|sep|..], sep)[k - 1];
      }
    } else {
      var tail := Split(s[1..], sep);
      SplitPiecesFree(s[1..], sep);
      var head := [s[0]] + tail[0];
      assert r[0] == head;
      // tail[0] is a prefix of s[1..], so head is a prefix of s
      assert StartsWith(JoinWith(tail, sep), tail[0]);
      assert StartsWith(s, head);
      forall i: nat ensures !OccursAt(head, sep, i) {
        if i == 0 {
        } else if OccursAt(head, sep, i) {
          assert tail[0][i - 1..i - 1 + |sep|] == head[i..i + |sep|];
          assert OccursAt(tail[0], sep, i - 1);
        }
      }
      forall k | 1 <= k < |r| ensures !Contains(r[k], sep) {
        assert r[k] == tail[k];
      }
    }
  }

  predicate IsDigit(c: char) {
    '0' <= c <= '9'
  }

  predicate AllDigits(s: string) {
    forall i :: 0 <= i < |s| ==> IsDigit(s[i])
  }

  /** Length of the longest run of digits starting at index `i` (what a greedy
      `\d+` consumes). */
  function DigitRun(s: string, i: nat): (n: nat)
    requires i <= |s|
    ensures i + n <= |s|
    ensures forall m :: i <= m < i + n ==> IsDigit(s[m])
    ensures i + n == |s| || !IsDigit(s[i + n])
    decreases |s| - i
  {
    if i < |s| && IsDigit(s[i]) then 1 + DigitRun(s, i + 1) else 0
  }

  /** Length of the longest run of digits ending just before index `e`. */
  function DigitRunBack(s: string, e: nat): (n: nat)
    requires e <= |s|
    ensures n <= e
    ensures forall m :: e - n <= m < e ==> IsDigit(s[m])
    ensures n == e || !IsDigit(s[e - n - 1])
    decreases e
  {
    if e > 0 && IsDigit(s[e - 1]) then 1 + DigitRunBack(s, e - 1) else 0
  }

  /** `int(s)` for a string of ASCII digits. */
  function DigitsValue(s: string): nat
    requires AllDigits(s)
    decreases |s|
  {
    if s == [] then 0
    else 10 * DigitsValue(s[..|s| - 1]) + (s[|s| - 1] as int - '0' as int)
  }

  function DigitChar(d: nat): (c: char)
    requires d < 10
    ensures IsDigit(c) && c as int - '0' as int == d
  {
    ('0' as int + d) as char
  }

  /** `str(n)`: decimal digits without leading zeros, read back by `int(...)`. */
  function NatToString(n: nat): (r: string)
    ensures |r| >= 1 && AllDigits(r)
    ensures |r| == 1 || r[0] != '0'
    ensures DigitsValue(r) == n
    decreases n
  {
    if n < 10 then [DigitChar(n)]
    else
      var prefix := NatToString(n / 10);
      var r := prefix + [DigitChar(n % 10)];
      assert r[..|r| - 1] == prefix;
      r
  }

  /** `a` is `b` with some elements left out, order kept: the last element of
      `b` is either the last one of `a` or one of those left out. */
  predicate IsSubsequence<T(==)>(a: seq<T>, b: seq<T>)
    decreases |b|
  {
    if a == [] then true
    else if b == [] then false
    else (a[|a| - 1] == b[|b| - 1] && IsSubsequence(a[..|a| - 1], b[..|b| - 1]))
         || IsSubsequence(a, b[..|b| - 1])
  }

  /** The elements of `s` that satisfy `keep`, in their order. */
  function Filter<T>(keep: T -> bool, s: seq<T>): (r: seq<T>)
    ensures |r| <= |s|
    decreases |s|
  {
    if s == [] then []
    else Filter(keep, s[..|s| - 1]) + (if keep(s[|s| - 1]) then [s[|s| - 1]] else [])
  }

  /** Filtering only leaves elements out. */
  lemma {:induction false} FilterIsSubsequence<T>(keep: T -> bool, s: seq<T>)
    ensures IsSubsequence(Filter(keep, s), s)
    decreases |s|
  {
    if s != [] {
      var init := s[..|s| - 1];
      var kept := Filter(keep, init);
      FilterIsSubsequence(keep, init);
      if keep(s[|s| - 1]) {
        assert (kept + [s[|s| - 1]])[..|kept|] == kept;
      } else {
        assert kept + [] == kept;
      }
    }
  }

  /** What filtering keeps: exactly the elements that satisfy `keep`. */
  lemma {:induction false} FilterMembers<T>(keep: T -> bool, s: seq<T>, x: T)
    ensures x in Filter(keep, s) <==> x in s && keep(x)
    decreases |s|
  {
    if s != [] {
      FilterMembers(keep, s[..|s| - 1], x);
      assert s == s[..|s| - 1] + [s[|s| - 1]];
    }
  }

  /** One more element of `s` looked at. */
  lemma FilterStep<T>(keep: T -> bool, s: seq<T>, i: nat)
    requires i < |s|
    ensures Filter(keep, s[..i + 1]) == Filter(keep, s[..i]) + (if keep(s[i]) then [s[i]] else [])
  {
    assert s[..i + 1][..i] == s[..i];
  }
}
