/** The string operations of the Python runtime that the program relies on:
    slicing off the last character, `str.strip()` and `str.lower()`. */
module Text {

  /** `s[:-1]`: everything but the last character; the empty string stays
      empty. */
  function DropLast(s: string): (r: string)
    ensures |s| == 0 ==> r == []
    ensures |s| > 0 ==> |r| == |s| - 1
    ensures r == s[..|r|]
  {
    if |s| == 0 then s else s[..|s| - 1]
  }

  /** The code-point ranges, inclusive at both ends, of the characters for
      which Python's `str.isspace()` holds: the ones `str.strip()` removes
      when called without arguments. */
  const SpaceRanges: seq<(int, int)> :=
    [(0x09, 0x0D), (0x1C, 0x20), (0x85, 0x85), (0xA0, 0xA0), (0x1680, 0x1680),
     (0x2000, 0x200A), (0x2028, 0x2029), (0x202F, 0x202F), (0x205F, 0x205F), (0x3000, 0x3000)]

  /** `n` lies in one of the ranges from position `k` of the table on. */
  predicate InRanges(n: int, k: nat)
    decreases |SpaceRanges| - k
  {
    k < |SpaceRanges| && ((SpaceRanges[k].0 <= n <= SpaceRanges[k].1) || InRanges(n, k + 1))
  }

  predicate IsSpace(c: char)
  {
    InRanges(c as int, 0)
  }

  predicate AllSpace(s: string)
  {
    forall k :: 0 <= k < |s| ==> IsSpace(s[k])
  }

  /** No whitespace at either end: what `strip()` leaves behind. */
  predicate Trimmed(s: string)
  {
    s == [] || (!IsSpace(s[0]) && !IsSpace(s[|s| - 1]))
  }

  /** `s.rstrip()`: drops the trailing whitespace run. */
  function StripEnd(s: string): (r: string)
    ensures |r| <= |s|
    ensures r == [] || !IsSpace(r[|r| - 1])
  {
    if s != [] && IsSpace(s[|s| - 1]) then StripEnd(s[..|s| - 1]) else s
  }

  /** What `rstrip()` removed is whitespace and what it kept is a prefix. */
  lemma {:induction false} StripEndPrefix(s: string)
    ensures var r := StripEnd(s); r == s[..|r|] && AllSpace(s[|r|..])
    decreases |s|
  {
    if s != [] && IsSpace(s[|s| - 1]) {
      var t := s[..|s| - 1];
      StripEndPrefix(t);
      var r := StripEnd(t);
      assert t[..|r|] == s[..|r|];
      var tail := s[|r|..];
      assert tail == t[|r|..] + [s[|s| - 1]];
      forall k | 0 <= k < |tail|
        ensures IsSpace(tail[k])
      {
        if k < |tail| - 1 {
          assert tail[k] == t[|r|..][k];
        }
      }
    }
  }

  /** `s.strip()`: the leading whitespace run is skipped, then `rstrip()`
      drops the trailing one. */
  function Strip(s: string): (r: string)
    ensures |r| <= |s|
    ensures Trimmed(r)
    decreases |s|
  {
    if s != [] && IsSpace(s[0]) then Strip(s[1..])
    else
      StripEndPrefix(s);
      StripEnd(s)
  }

  /** The length of the leading whitespace run. */
  function LeadingSpace(s: string): (n: nat)
    ensures n <= |s|
    decreases |s|
  {
    if s != [] && IsSpace(s[0]) then 1 + LeadingSpace(s[1..]) else 0
  }

  /** `strip()` is `rstrip()` applied after the leading whitespace run. */
  lemma {:induction false} LeadingRun(s: string)
    ensures AllSpace(s[..LeadingSpace(s)])
    ensures Strip(s) == StripEnd(s[LeadingSpace(s)..])
    decreases |s|
  {
    if s != [] && IsSpace(s[0]) {
      var t := s[1..];
      LeadingRun(t);
      var i := LeadingSpace(t);
      assert s[i + 1..] == t[i..];
      var lead := s[..i + 1];
      forall k | 0 <= k < |lead|
        ensures IsSpace(lead[k])
      {
        if k > 0 {
          assert lead[k] == t[..i][k - 1];
        }
      }
    } else {
      assert s[0..] == s;
    }
  }

  /** `s` splits into its leading whitespace run, `Strip(s)` and a trailing
      whitespace run. */
  lemma StripSplits(s: string)
    ensures var i, r := LeadingSpace(s), Strip(s);
            && i + |r| <= |s|
            && s[i..i + |r|] == r
            && AllSpace(s[..i])
            && AllSpace(s[i + |r|..])
  {
    LeadingRun(s);
    var i := LeadingSpace(s);
    var u := s[i..];
    StripEndPrefix(u);
    var r := StripEnd(u);
    assert Strip(s) == r;
    var mid, trail, rest := s[i..i + |r|], s[i + |r|..], u[|r|..];
    assert mid == r by {
      forall k | 0 <= k < |mid|
        ensures mid[k] == r[k]
      {
        assert r[k] == u[k];
      }
    }
    forall k | 0 <= k < |trail|
      ensures IsSpace(trail[k])
    {
      assert trail[k] == rest[k];
    }
    assert AllSpace(trail);
  }

  /** Stripping a string that is already trimmed gives it back unchanged. */
  lemma StripTrimmed(s: string)
    requires Trimmed(s)
    ensures Strip(s) == s
  {
  }

  /** `strip()` is idempotent. */
  lemma StripIdempotent(s: string)
    ensures Strip(Strip(s)) == Strip(s)
  {
    StripTrimmed(Strip(s));
  }

  /** `c.lower()` for the characters whose lower-case form is one character
      of the ASCII range: `A`..`Z` map to `a`..`z`, everything else is kept. */
  function LowerChar(c: char): (d: char)
    ensures 'A' <= c <= 'Z' ==> 'a' <= d <= 'z' && d as int - c as int == 32
    ensures !('A' <= c <= 'Z') ==> d == c
  {
    if 'A' <= c <= 'Z' then (c as int + 32) as char else c
  }

  /** `s.lower()`, character by character. */
  function Lower(s: string): (r: string)
    ensures |r| == |s|
    ensures forall k :: 0 <= k < |s| ==> r[k] == LowerChar(s[k])
  {
    seq(|s|, k requires 0 <= k < |s| => LowerChar(s[k]))
  }
}
