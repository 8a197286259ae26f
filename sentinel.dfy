/** Recovering the exit status from the text `run` gets back.

    `run` appends `;  echo "--return-$?--"` to every command and afterwards
    searches the output with the pattern `(?:\\n)?--return-(\d+)--$`. The
    pattern is written out here by hand:
    - `\\n` in the raw pattern is a backslash followed by `n`, not a newline;
    - `\d+` is greedy (ASCII digits only in this model);
    - `$` (no MULTILINE flag) matches at the end of the text or just before a
      final newline;
    - `re.search` reports the leftmost position where the pattern matches,
      preferring the optional `\n` prefix when it is there.
    `SearchFrom` follows that semantics position by position; `TrailingSentinel`
    is a direct description of the text's tail, and `SearchIsTrailing` proves
    that the two agree. */
module Sentinel {
  import opened Wrappers
  import opened Text
  import opened Process

  const Marker: string := "--return-"
  const Close: string := "--"
  /** The two characters `\` and `n` that the optional group matches. */
  const EscapedNewline: string := "\\n"

  lemma MarkerHasNoDigit()
    ensures |Marker| == 9 && |Close| == 2 && |EscapedNewline| == 2
    ensures forall i :: 0 <= i < |Marker| ==> !IsDigit(Marker[i])
    ensures Marker[0] == '-' && Close[0] == '-' && Close[1] == '-' && EscapedNewline[0] == '\\'
  {
  }

  /** Python's `$`: position `p` is the end of `s` or sits just before a final newline. */
  predicate AtEnd(s: string, p: nat) {
    p == |s| || (p + 1 == |s| && s[p] == '\n')
  }

  /** `--return-(\d+)--$` tried at index `j`: the end of the digit group when it
      matches. Only the longest digit run is tried, see `TailAtBacktracking`. */
  function TailAt(s: string, j: nat): (k: Option<nat>)
    ensures k.Some? ==> j + |Marker| < k.value && k.value + |Close| <= |s|
  {
    if OccursAt(s, Marker, j) then
      var k := j + |Marker| + DigitRun(s, j + |Marker|);
      if k > j + |Marker| && OccursAt(s, Close, k) && AtEnd(s, k + |Close|) then Some(k) else None
    else None
  }

  /** Backtracking into `\d+` cannot find another match: whenever the pattern
      fits with some digit group, that group is the longest run `TailAt` tries. */
  lemma TailAtBacktracking(s: string, j: nat, n: nat)
    requires OccursAt(s, Marker, j) && n >= 1 && j + |Marker| + n <= |s|
    requires forall m :: j + |Marker| <= m < j + |Marker| + n ==> IsDigit(s[m])
    requires OccursAt(s, Close, j + |Marker| + n) && AtEnd(s, j + |Marker| + n + |Close|)
    ensures TailAt(s, j) == Some(j + |Marker| + n)
  {
    MarkerHasNoDigit();
    var i := j + |Marker|;
    assert s[i + n] == Close[0];
    assert DigitRun(s, i) == n;
  }

  /** One match of the whole pattern: the matched text is `s[start..end]`, the
      captured group is `digits`. */
  datatype Match = Match(start: nat, end: nat, digits: string)

  /** The pattern tried at index `i`, the optional `\n` first. */
  function MatchAt(s: string, i: nat): (m: Option<Match>)
    ensures m.Some? ==> m.value.start == i && i < m.value.end <= |s|
    ensures m.Some? ==> |m.value.digits| > 0 && AllDigits(m.value.digits)
  {
    if OccursAt(s, EscapedNewline, i) && TailAt(s, i + |EscapedNewline|).Some? then
      var j := i + |EscapedNewline|;
      var k := TailAt(s, j).value;
      assert forall m :: j + |Marker| <= m < k ==> IsDigit(s[m]);
      Some(Match(i, k + |Close|, s[j + |Marker|..k]))
    else if TailAt(s, i).Some? then
      var k := TailAt(s, i).value;
      assert forall m :: i + |Marker| <= m < k ==> IsDigit(s[m]);
      Some(Match(i, k + |Close|, s[i + |Marker|..k]))
    else None
  }

  /** `re.search` from index `i` on: the leftmost index where the pattern matches. */
  function SearchFrom(s: string, i: nat): (m: Option<Match>)
    ensures m.Some? ==> i <= m.value.start && m == MatchAt(s, m.value.start)
    ensures m.Some? ==> forall x: nat :: i <= x < m.value.start ==> MatchAt(s, x).None?
    ensures m.None? ==> forall x: nat :: i <= x ==> MatchAt(s, x).None?
    decreases |s| + 1 - i
  {
    if i > |s| then None
    else if MatchAt(s, i).Some? then MatchAt(s, i)
    else SearchFrom(s, i + 1)
  }

  /** `re.search` over the whole text: the match at the leftmost index where
      the pattern matches, and nothing when it matches nowhere. */
  function Search(s: string): (m: Option<Match>)
    ensures m.Some? ==> m == MatchAt(s, m.value.start)
    ensures m.Some? ==> forall x: nat :: x < m.value.start ==> MatchAt(s, x).None?
    ensures m.None? ==> forall x: nat :: MatchAt(s, x).None?
  {
    SearchFrom(s, 0)
  }

  /** Where `$` can match for a pattern that ends in `-`. */
  function EndOf(s: string): (e: nat)
    ensures e <= |s|
  {
    if |s| > 0 && s[|s| - 1] == '\n' then |s| - 1 else |s|
  }

  /** Reference definition: the index of `--return-` when the text ends, up to
      one final newline, with `--return-`, a non-empty run of digits and `--`. */
  function TrailingMarker(s: string): (j: Option<nat>)
    ensures j.Some? ==> j.value + |Marker| + |Close| < EndOf(s)
  {
    var e := EndOf(s);
    if e >= |Close| && OccursAt(s, Close, e - |Close|) then
      var n := DigitRunBack(s, e - |Close|);
      if n > 0 && e - |Close| - n >= |Marker| && OccursAt(s, Marker, e - |Close| - n - |Marker|)
      then Some(e - |Close| - n - |Marker|)
      else None
    else None
  }

  /** Reference definition of what the search finds: the trailing sentinel,
      together with a `\n` pair right in front of it. */
  function TrailingSentinel(s: string): Option<Match> {
    match TrailingMarker(s)
    case None => None
    case Some(j) =>
      var start := if j >= |EscapedNewline| && OccursAt(s, EscapedNewline, j - |EscapedNewline|)
                   then j - |EscapedNewline| else j;
      Some(Match(start, EndOf(s), s[j + |Marker|..EndOf(s) - |Close|]))
  }

  /** A pattern match always ends where `$` can match. */
  lemma TailAtEnds(s: string, j: nat)
    requires TailAt(s, j).Some?
    ensures TailAt(s, j).value + |Close| == EndOf(s)
  {
    var k := TailAt(s, j).value;
    assert s[k + 1] == Close[1];
  }

  lemma TrailingMarkerMatches(s: string)
    requires TrailingMarker(s).Some?
    ensures TailAt(s, TrailingMarker(s).value) == Some(EndOf(s) - |Close|)
  {
    MarkerHasNoDigit();
    var j := TrailingMarker(s).value;
    var e := EndOf(s);
    var n := DigitRunBack(s, e - |Close|);
    assert j + |Marker| + n == e - |Close|;
    TailAtBacktracking(s, j, n);
  }

  lemma MatchingIsTrailingMarker(s: string, j: nat)
    requires TailAt(s, j).Some?
    ensures TrailingMarker(s) == Some(j)
  {
    MarkerHasNoDigit();
    TailAtEnds(s, j);
    var k := TailAt(s, j).value;
    var e := EndOf(s);
    assert k == e - |Close|;
    var n := DigitRunBack(s, k);
    var want := k - j - |Marker|;
    assert forall m :: j + |Marker| <= m < k ==> IsDigit(s[m]);
    assert s[j + |Marker| - 1] == Marker[8];
    assert n == want;
  }

  /** With the trailing marker at `j`, nothing matches left of the reported
      start, and the match at the start is the trailing sentinel. */
  lemma MatchesAroundTrailing(s: string)
    requires TrailingMarker(s).Some?
    ensures TrailingSentinel(s).Some?
    ensures forall x: nat :: x < TrailingSentinel(s).value.start ==> MatchAt(s, x).None?
    ensures MatchAt(s, TrailingSentinel(s).value.start) == TrailingSentinel(s)
  {
    var st := TrailingSentinel(s).value.start;
    forall x: nat | x < st ensures MatchAt(s, x).None? {
      NoMatchAt(s, x);
    }
    MatchAtTrailing(s);
  }

  /** An index where no pattern match starts: the marker found there, if any,
      is not the trailing one. */
  lemma NoMatchAt(s: string, x: nat)
    requires TrailingMarker(s).Some? && x < TrailingSentinel(s).value.start
    ensures MatchAt(s, x).None?
  {
    if TailAt(s, x).Some? {
      MatchingIsTrailingMarker(s, x);
    }
    if TailAt(s, x + |EscapedNewline|).Some? {
      MatchingIsTrailingMarker(s, x + |EscapedNewline|);
    }
  }

  /** The pattern tried at the reported start finds the trailing sentinel. */
  lemma MatchAtTrailing(s: string)
    requires TrailingMarker(s).Some?
    ensures MatchAt(s, TrailingSentinel(s).value.start) == TrailingSentinel(s)
  {
    MarkerHasNoDigit();
    var j := TrailingMarker(s).value;
    TrailingMarkerMatches(s);
    if TrailingSentinel(s).value.start == j {
      assert s[j] == Marker[0];
      assert !OccursAt(s, EscapedNewline, j);
    }
  }

  /** The leftmost-match search of `re.search` finds exactly the trailing
      sentinel, and finds nothing when the text has none. */
  lemma SearchIsTrailing(s: string)
    ensures Search(s) == TrailingSentinel(s)
  {
    if TrailingMarker(s).Some? {
      MatchesAroundTrailing(s);
    } else {
      forall x: nat ensures MatchAt(s, x).None? {
        if TailAt(s, x).Some? {
          MatchingIsTrailingMarker(s, x);
        }
        if TailAt(s, x + |EscapedNewline|).Some? {
          MatchingIsTrailingMarker(s, x + |EscapedNewline|);
        }
      }
    }
  }

  /** `out[:len(out) - 1]` when `out.endswith('\n')`. */
  function DropFinalNewline(s: string): (r: string)
    ensures EndsWith(s, "\n") ==> s == r + "\n"
    ensures !EndsWith(s, "\n") ==> r == s
  {
    if EndsWith(s, "\n") then s[..|s| - 1] else s
  }

  /** The return-code assignment of `run`: the captured number when the
      pattern matches, otherwise the code `execute` reported. */
  function ReturnCodeOf(o: Outcome): (rc: int)
    ensures Search(o.out).None? ==> rc == o.returnCode
    ensures Search(o.out).Some? ==> rc >= 0
  {
    match Search(o.out)
    case None => o.returnCode
    case Some(m) => DigitsValue(m.digits)
  }

  /** The clean-up of `out` in `run`: when the pattern matches, every
      occurrence of the matched text is removed from `out` and then one final
      newline is dropped, so `out` loses at least the matched text. */
  function OutputOf(o: Outcome): (r: string)
    ensures Search(o.out).None? ==> r == o.out
    ensures Search(o.out).Some? ==> |r| + (Search(o.out).value.end - Search(o.out).value.start) <= |o.out|
  {
    match Search(o.out)
    case None => o.out
    case Some(m) =>
      RemoveAllShrinks(o.out, o.out[m.start..m.end], m.start);
      DropFinalNewline(RemoveAll(o.out, o.out[m.start..m.end]))
  }

  /** The parse step of `run` on the result value. */
  function ParseReturnCode(o: Outcome): (r: Outcome)
    ensures r.succeeded == o.succeeded
    ensures |r.out| <= |o.out|
    ensures Search(o.out).None? ==> r == o
  {
    Outcome(OutputOf(o), ReturnCodeOf(o), o.succeeded)
  }

  /** The result is changed exactly when the output ends in a sentinel; then
      the return code is the sentinel's number and `out` loses at least the
      matched text. */
  lemma ParseReadsTrailingSentinel(o: Outcome)
    ensures TrailingSentinel(o.out).None? ==> ParseReturnCode(o) == o
    ensures TrailingSentinel(o.out).Some? ==>
              var m := TrailingSentinel(o.out).value;
              var r := ParseReturnCode(o);
              r.returnCode == DigitsValue(m.digits) && r.succeeded == o.succeeded &&
              |r.out| + (m.end - m.start) <= |o.out|
  {
    SearchIsTrailing(o.out);
    if TrailingSentinel(o.out).Some? {
      var m := TrailingSentinel(o.out).value;
      var g := o.out[m.start..m.end];
      assert |g| > 0 && OccursAt(o.out, g, m.start);
      RemoveAllShrinks(o.out, g, m.start);
    }
  }

  /** The shape `pre + --return- + digits + -- + tail` has its trailing
      sentinel right after `pre`. */
  lemma ShapeMatches(s: string, pre: string, digits: string, tail: string)
    requires s == pre + Marker + digits + Close + tail
    requires |digits| > 0 && AllDigits(digits)
    requires tail == "" || tail == "\n"
    ensures TrailingMarker(s) == Some(|pre|)
    ensures EndOf(s) == |pre| + |Marker| + |digits| + |Close|
    ensures TrailingSentinel(s).Some?
    ensures TrailingSentinel(s).value.digits == digits
    ensures TrailingSentinel(s).value.end == EndOf(s)
  {
    var j := |pre|;
    var a := j + |Marker|;
    var k := a + |digits|;
    assert s[j..a] == Marker && s[a..k] == digits && s[k..k + |Close|] == Close && s[k + |Close|..] == tail by {
      var b := pre + Marker + digits + Close;
      assert s == b + tail;
      assert s[..|b|] == b;
      assert (pre + Marker + digits)[j..a] == Marker;
      assert (pre + Marker + digits)[a..k] == digits;
    }
    SentinelAt(s, j, digits);
  }

  /** The same, stated by positions: `--return-`, the digits and `--` sit at
      index `j`, and at most a final newline follows. */
  lemma SentinelAt(s: string, j: nat, digits: string)
    requires |digits| > 0 && AllDigits(digits)
    requires j + |Marker| + |digits| + |Close| <= |s|
    requires s[j..j + |Marker|] == Marker
    requires s[j + |Marker|..j + |Marker| + |digits|] == digits
    requires s[j + |Marker| + |digits|..j + |Marker| + |digits| + |Close|] == Close
    requires AtEnd(s, j + |Marker| + |digits| + |Close|)
    ensures TrailingMarker(s) == Some(j)
    ensures EndOf(s) == j + |Marker| + |digits| + |Close|
    ensures TrailingSentinel(s).Some?
    ensures TrailingSentinel(s).value.digits == digits
    ensures TrailingSentinel(s).value.end == EndOf(s)
  {
    var a := j + |Marker|;
    var k := a + |digits|;
    forall m | a <= m < k
      ensures IsDigit(s[m])
    {
      assert s[m] == s[a..k][m - a];
    }
    assert OccursAt(s, Marker, j) && OccursAt(s, Close, k);
    TailAtBacktracking(s, j, |digits|);
    MatchingIsTrailingMarker(s, j);
    TailAtEnds(s, j);
    assert EndOf(s) - |Close| == k;
  }

  /** An output that ends with `--return-N--`, possibly followed by one final
      newline and possibly preceded by `\n`, yields return code N. */
  lemma RecoversStatus(pre: string, digits: string, tail: string, rc: int, ok: bool)
    requires |digits| > 0 && AllDigits(digits)
    requires tail == "" || tail == "\n"
    ensures ParseReturnCode(Outcome(pre + Marker + digits + Close + tail, rc, ok)).returnCode
            == DigitsValue(digits)
  {
    var s := pre + Marker + digits + Close + tail;
    ShapeMatches(s, pre, digits, tail);
    ParseReadsTrailingSentinel(Outcome(s, rc, ok));
  }

  /** `s` with a literal `\n` pair at its end removed. */
  function WithoutEscapedNewline(s: string): (r: string)
    ensures EndsWith(s, EscapedNewline) ==> s == r + EscapedNewline
    ensures !EndsWith(s, EscapedNewline) ==> r == s
  {
    if EndsWith(s, EscapedNewline) then s[..|s| - |EscapedNewline|] else s
  }

  /** What `ParseReturnCode` does once the search has found `m`. */
  lemma ParseWith(o: Outcome, m: Match)
    requires Search(o.out) == Some(m)
    ensures m.start < m.end <= |o.out| && AllDigits(m.digits)
    ensures ParseReturnCode(o)
            == Outcome(DropFinalNewline(RemoveAll(o.out, o.out[m.start..m.end])), DigitsValue(m.digits), o.succeeded)
  {
  }

  /** An occurrence of `--return-` followed by a digit cannot start inside a
      text free of `--return-` that is followed by a further `--return-`. */
  lemma MarkerNotBefore(raw: string, s: string, q: nat)
    requires |s| + |Marker| <= |raw| && raw[..|s|] == s && OccursAt(raw, Marker, |s|)
    requires !Contains(s, Marker) && q < |s|
    requires OccursAt(raw, Marker, q)
    ensures !IsDigit(raw[q + |Marker|])
  {
    MarkerHasNoDigit();
    if q + |Marker| <= |s| {
      assert s[q..q + |Marker|] == raw[q..q + |Marker|];
      assert OccursAt(s, Marker, q);
      assert false;
    } else {
      var d := q + |Marker| - |s|;
      assert raw[q + |Marker|] == raw[|s|..|s| + |Marker|][d] == Marker[d];
    }
  }

  /** Hence the matched text, which starts at `|s|` or two characters earlier
      and has a digit after its `--return-`, occurs nowhere before its start. */
  lemma NoEarlyCopy(raw: string, s: string, start: nat, end: nat)
    requires |s| + |Marker| < end <= |raw| && raw[..|s|] == s && OccursAt(raw, Marker, |s|)
    requires !Contains(s, Marker) && IsDigit(raw[|s| + |Marker|])
    requires start <= |s| <= start + 2
    ensures forall q: nat :: q < start ==> !OccursAt(raw, raw[start..end], q)
  {
    var g := raw[start..end];
    var off := |s| - start;
    forall q: nat | q < start ensures !OccursAt(raw, g, q) {
      if OccursAt(raw, g, q) {
        SliceOfSlice(raw, q, q + |g|, off, off + |Marker|);
        SliceOfSlice(raw, start, end, off, off + |Marker|);
        assert raw[q + off..q + off + |Marker|] == raw[|s|..|s| + |Marker|];
        assert raw[q + off + |Marker|] == raw[q..q + |g|][off + |Marker|] == g[off + |Marker|];
        MarkerNotBefore(raw, s, q + off);
      }
    }
  }

  /** The sentinel appended to `s` starts at `|s|`, or at `|s| - 2` when `s`
      ends with a `\n` pair. */
  lemma InjectedStart(raw: string, s: string, digits: string, tail: string)
    requires raw == s + Marker + digits + Close + tail
    requires |digits| > 0 && AllDigits(digits)
    requires tail == "" || tail == "\n"
    ensures TrailingSentinel(raw).Some?
    ensures TrailingSentinel(raw).value.start == |WithoutEscapedNewline(s)|
    ensures TrailingSentinel(raw).value.end == |s| + |Marker| + |digits| + |Close|
    ensures TrailingSentinel(raw).value.digits == digits
    ensures raw[..|s|] == s && OccursAt(raw, Marker, |s|) && raw[|s| + |Marker|] == digits[0]
    ensures raw[TrailingSentinel(raw).value.end..] == tail
  {
    ShapeMatches(raw, s, digits, tail);
    var j := |s|;
    assert raw[..j] == s;
    if j >= 2 {
      assert raw[j - 2..j] == s[j - 2..];
    }
    assert raw[j..j + |Marker|] == Marker;
    assert raw[j + |Marker|] == digits[0];
    assert raw[j + |Marker| + |digits| + |Close|..] == tail;
  }

  /** Round trip through sentinel injection and parsing: for command output `s`
      free of `--return-`, echoing the sentinel for status `n` after it (with or
      without echo's final newline) is read back as status `n`, and `out` is `s`
      again, except that a trailing `\n` pair is taken along with the sentinel
      and, without the final newline, one trailing newline of `s` is dropped. */
  lemma RoundTrip(s: string, n: nat, newline: bool, rc: int, ok: bool)
    requires !Contains(s, Marker)
    ensures var tail := if newline then "\n" else "";
            var r := ParseReturnCode(Outcome(s + Marker + NatToString(n) + Close + tail, rc, ok));
            r.returnCode == n &&
            r.out == (if newline then WithoutEscapedNewline(s) else DropFinalNewline(WithoutEscapedNewline(s)))
  {
    var tail := if newline then "\n" else "";
    InjectedParse(s + Marker + NatToString(n) + Close + tail, s, NatToString(n), tail, rc, ok);
    DropAppended(WithoutEscapedNewline(s), tail);
  }

  /** `ParseReturnCode` on a `--return-`-free output with the sentinel appended. */
  lemma InjectedParse(raw: string, s: string, digits: string, tail: string, rc: int, ok: bool)
    requires raw == s + Marker + digits + Close + tail
    requires !Contains(s, Marker) && |digits| > 0 && AllDigits(digits)
    requires tail == "" || tail == "\n"
    ensures ParseReturnCode(Outcome(raw, rc, ok))
            == Outcome(DropFinalNewline(WithoutEscapedNewline(s) + tail), DigitsValue(digits), ok)
  {
    InjectedRemoval(raw, s, digits, tail);
    ParseTrailing(raw, WithoutEscapedNewline(s) + tail, rc, ok);
  }

  /** Dropping the final newline after appending `tail`. */
  lemma DropAppended(x: string, tail: string)
    requires tail == "" || tail == "\n"
    ensures DropFinalNewline(x + tail) == (if tail == "\n" then x else DropFinalNewline(x))
  {
    if tail == "\n" {
      assert (x + tail)[..|x + tail| - 1] == x;
    } else {
      assert x + tail == x;
    }
  }

  /** `ParseReturnCode` on an output whose trailing sentinel is known and
      whose text after `replace` is `cleaned`. */
  lemma ParseTrailing(raw: string, cleaned: string, rc: int, ok: bool)
    requires TrailingSentinel(raw).Some?
    requires var m := TrailingSentinel(raw).value;
             m.start <= m.end <= |raw| && RemoveAll(raw, raw[m.start..m.end]) == cleaned
    ensures Search(raw) == TrailingSentinel(raw)
    ensures AllDigits(TrailingSentinel(raw).value.digits)
    ensures ParseReturnCode(Outcome(raw, rc, ok))
            == Outcome(DropFinalNewline(cleaned), DigitsValue(TrailingSentinel(raw).value.digits), ok)
  {
    SearchIsTrailing(raw);
    ParseWith(Outcome(raw, rc, ok), TrailingSentinel(raw).value);
  }

  /** `replace` takes out only the appended sentinel (with a `\n` pair right
      before it) when `s` is free of `--return-`. */
  lemma InjectedRemoval(raw: string, s: string, digits: string, tail: string)
    requires raw == s + Marker + digits + Close + tail
    requires !Contains(s, Marker) && |digits| > 0 && AllDigits(digits)
    requires tail == "" || tail == "\n"
    ensures TrailingSentinel(raw).Some? && TrailingSentinel(raw).value.digits == digits
    ensures var m := TrailingSentinel(raw).value;
            RemoveAll(raw, raw[m.start..m.end]) == WithoutEscapedNewline(s) + tail
  {
    InjectedStart(raw, s, digits, tail);
    var m := TrailingSentinel(raw).value;
    var x := WithoutEscapedNewline(s);
    var g := raw[m.start..m.end];
    NoEarlyCopy(raw, s, m.start, m.end);
    assert raw == x + (g + tail) by {
      assert raw[..m.start] == x;
    }
    RemoveSentinelCopy(raw, x, g, tail);
  }

  /** Removing the single copy of `g` that is followed by a short `tail`. */
  lemma RemoveSentinelCopy(raw: string, x: string, g: string, tail: string)
    requires raw == x + (g + tail) && |tail| < |g|
    requires forall q: nat :: q < |x| ==> !OccursAt(raw, g, q)
    ensures RemoveAll(raw, g) == x + tail
  {
    RemoveAllKeepsPrefix(x, g + tail, g);
    assert (g + tail)[..|g|] == g && (g + tail)[|g|..] == tail;
    assert RemoveAll(g + tail, g) == RemoveAll(tail, g) == tail;
  }

  /** `str.replace` removes every copy of the matched text, and removing copies
      can splice a new one together: the output `-` + S + `-return-5--` + S,
      with S = `--return-5--`, ends in the sentinel S, and what `run` leaves
      behind is exactly S again. */
  lemma RemovalCanRebuildSentinel(s: string, g: string)
    requires g == "--return-5--"
    requires s == "-" + g + "-return-5--" + g
    ensures Search(s) == Some(Match(|s| - |g|, |s|, "5"))
    ensures ParseReturnCode(Outcome(s, 1, true)) == Outcome(g, 5, true)
  {
    CounterexampleMatch(s, g);
    CounterexampleRemoval(s, g);
    assert s[|s| - |g|..] == g;
    ParseCounterexample(s, g);
    assert DigitsValue("5") == 5 by {
      assert "5"[..0] == "";
    }
  }

  /** The parse of the counterexample, from its two positional facts alone. */
  lemma ParseCounterexample(s: string, g: string)
    requires |g| <= |s| && s[|s| - |g|..] == g
    requires TrailingSentinel(s) == Some(Match(|s| - |g|, |s|, "5"))
    requires RemoveAll(s, g) == g
    ensures Search(s) == Some(Match(|s| - |g|, |s|, "5"))
    ensures ParseReturnCode(Outcome(s, 1, true)) == Outcome(DropFinalNewline(g), DigitsValue("5"), true)
  {
    assert s[|s| - |g|..|s|] == g;
    ParseTrailing(s, g, 1, true);
  }

  lemma CounterexampleMatch(s: string, g: string)
    requires g == "--return-5--"
    requires s == "-" + g + "-return-5--" + g
    ensures TrailingSentinel(s) == Some(Match(|s| - |g|, |s|, "5"))
  {
    var j := |s| - |g|;
    assert s[j..] == g;
    assert s[j..j + |Marker|] == Marker;
    assert s[j + |Marker|..j + |Marker| + 1] == "5";
    assert s[j + |Marker| + 1..j + |Marker| + 3] == Close;
    SentinelAt(s, j, "5");
    assert s[j - 2] == '-';
    assert !OccursAt(s, EscapedNewline, j - 2);
  }

  /** One differing character rules out an occurrence. */
  lemma Mismatch(t: string, g: string, q: nat, i: nat)
    requires i < |g| && q + i < |t| && t[q + i] != g[i]
    ensures !OccursAt(t, g, q)
  {
  }

  lemma CounterexampleRemoval(s: string, g: string)
    requires g == "--return-5--"
    requires s == "-" + g + "-return-5--" + g
    ensures RemoveAll(s, g) == g
  {
    var y := "-return-5--";
    assert s == "-" + (g + (y + g));
    Mismatch(s, g, 0, 2);
    CounterexampleTail(y, g, y + g);
    RemovalChain(s, g, y);
  }

  /** The removal steps of the counterexample, on its shape alone. */
  lemma RemovalChain(s: string, g: string, y: string)
    requires |g| > 0 && s == "-" + (g + (y + g)) && "-" + y == g
    requires !OccursAt(s, g, 0)
    requires forall q: nat :: q < |y| ==> !OccursAt(y + g, g, q)
    ensures RemoveAll(s, g) == g
  {
    RemoveAllKeepsPrefix("-", g + (y + g), g);
    RemoveLeadingCopy(g, y + g);
    RemoveAllKeepsPrefix(y, g, g);
    RemoveLeadingCopy(g, []);
    assert g + [] == g && y + [] == y;
  }

  /** A copy of `g` at the very front is dropped. */
  lemma RemoveLeadingCopy(g: string, t: string)
    requires |g| > 0
    ensures RemoveAll(g + t, g) == RemoveAll(t, g)
  {
    assert (g + t)[..|g|] == g && (g + t)[|g|..] == t;
  }

  /** No copy of `--return-5--` starts inside the `-return-5--` part. */
  lemma CounterexampleTail(y: string, g: string, t: string)
    requires g == "--return-5--" && y == "-return-5--"
    requires t == "-return-5----return-5--"
    ensures forall q: nat :: q < |y| ==> !OccursAt(t, g, q)
  {
    forall q: nat | q < |y| ensures !OccursAt(t, g, q) {
      if q == 0 || q == 7 {
        Mismatch(t, g, q, 1);
      } else if q < 9 {
        Mismatch(t, g, q, 0);
      } else {
        Mismatch(t, g, q, 2);
      }
    }
  }
}
