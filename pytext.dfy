/**
  The Python 3 `str` operations the response cleaner uses, on Dafny strings
  (sequences of Unicode scalar values): `str.isspace`, `str.strip()` with no
  argument, `str.startswith` and slicing with step 1.
 */
module PyText {

  /** `str.isspace` for one character: exactly the characters that `str.strip()`
      with no argument removes. */
  predicate IsSpace(c: char)
    // the characters fences and JSON texts begin and end with are not whitespace,
    // so a strip never cuts into them
    ensures IsSpace(c) ==> c != '`' && c != '{' && c != '}' && c != '[' && c != ']' && c != '"'
  {
    || ('\t' <= c <= '\r')                 // \t \n \x0b \x0c \r
    || ('\U{1C}' <= c <= '\U{1F}')         // file, group, record and unit separators
    || c == ' ' || c == '\U{85}' || c == '\U{A0}' || c == '\U{1680}'
    || ('\U{2000}' <= c <= '\U{200A}')
    || c == '\U{2028}' || c == '\U{2029}' || c == '\U{202F}' || c == '\U{205F}'
    || c == '\U{3000}'
  }

  predicate AllSpace(s: string) {
    forall k :: 0 <= k < |s| ==> IsSpace(s[k])
  }

  /** Neither end is whitespace: the shape of everything `str.strip()` returns. */
  predicate IsTrimmed(s: string) {
    s == [] || (!IsSpace(s[0]) && !IsSpace(s[|s| - 1]))
  }

  /** `r` is a contiguous piece of `s`. */
  ghost predicate IsInfix(r: string, s: string) {
    exists i, j :: 0 <= i <= j <= |s| && s[i..j] == r
  }

  lemma SliceOfSlice(t: string, k: nat, l: nat, i: nat, j: nat)
    requires k <= l <= |t| && i <= j <= l - k
    ensures t[k..l][i..j] == t[k + i..k + j]
  {
    forall m | 0 <= m < j - i
      ensures t[k..l][i..j][m] == t[k + i..k + j][m]
    {
    }
  }

  lemma InfixTransitive(r: string, s: string, t: string)
    requires IsInfix(r, s) && IsInfix(s, t)
    ensures IsInfix(r, t)
  {
    var i, j :| 0 <= i <= j <= |s| && s[i..j] == r;
    var k, l :| 0 <= k <= l <= |t| && t[k..l] == s;
    SliceOfSlice(t, k, l, i, j);
    assert t[k + i..k + j] == r;
  }

  /** `str.lstrip()`: the longest suffix that does not start with whitespace. */
  function LStrip(s: string): (r: string)
    ensures |r| <= |s| && r == s[|s| - |r|..]
    ensures r == [] || !IsSpace(r[0])
  {
    if s != [] && IsSpace(s[0]) then LStrip(s[1..]) else s
  }

  /** `str.rstrip()`: the longest prefix that does not end with whitespace. */
  function RStrip(s: string): (r: string)
    ensures |r| <= |s| && r == s[..|r|]
    ensures r == [] || !IsSpace(r[|r| - 1])
  {
    if s != [] && IsSpace(s[|s| - 1]) then RStrip(s[..|s| - 1]) else s
  }

  /** What `str.lstrip()` removes is whitespace and nothing else. */
  lemma {:induction false} LStripRemovesSpace(s: string)
    ensures forall k :: 0 <= k < |s| - |LStrip(s)| ==> IsSpace(s[k])
  {
    if s != [] && IsSpace(s[0]) {
      LStripRemovesSpace(s[1..]);
      forall k | 1 <= k < |s| - |LStrip(s)|
        ensures IsSpace(s[k])
      {
        assert s[k] == s[1..][k - 1];
      }
    }
  }

  /** What `str.rstrip()` removes is whitespace and nothing else. */
  lemma {:induction false} RStripRemovesSpace(s: string)
    ensures forall k :: |RStrip(s)| <= k < |s| ==> IsSpace(s[k])
  {
    if s != [] && IsSpace(s[|s| - 1]) {
      RStripRemovesSpace(s[..|s| - 1]);
      forall k | |RStrip(s)| <= k < |s| - 1
        ensures IsSpace(s[k])
      {
        assert s[k] == s[..|s| - 1][k];
      }
    }
  }

  /** `str.strip()`. */
  function Strip(s: string): (r: string)
    ensures IsTrimmed(r)
    ensures |r| <= |s|
  {
    RStrip(LStrip(s))
  }

  lemma MiddleIsInfix(a: string, b: string, c: string)
    ensures IsInfix(b, a + b + c)
  {
    assert (a + b + c)[|a|..|a| + |b|] == b;
  }

  /** The strip of a string is a contiguous piece of it. */
  lemma StripIsInfix(s: string)
    ensures IsInfix(Strip(s), s)
  {
    StripParts(s);
    MiddleIsInfix(s[..|s| - |LStrip(s)|], Strip(s), LStrip(s)[|Strip(s)|..]);
  }

  lemma {:induction false} LStripSpacePrefix(w: string, t: string)
    requires AllSpace(w)
    requires t == [] || !IsSpace(t[0])
    ensures LStrip(w + t) == t
  {
    if w != [] {
      assert (w + t)[1..] == w[1..] + t;
      LStripSpacePrefix(w[1..], t);
    }
  }

  lemma {:induction false} RStripSpaceSuffix(t: string, w: string)
    requires AllSpace(w)
    requires t == [] || !IsSpace(t[|t| - 1])
    ensures RStrip(t + w) == t
  {
    if w != [] {
      assert (t + w)[..|t + w| - 1] == t + w[..|w| - 1];
      RStripSpaceSuffix(t, w[..|w| - 1]);
    }
  }

  /** Stripping removes exactly the surrounding whitespace: whatever trimmed
      text is wrapped in whitespace on either side, strip gives it back. */
  lemma StripAround(lead: string, body: string, trail: string)
    requires AllSpace(lead) && AllSpace(trail) && IsTrimmed(body)
    ensures Strip(lead + body + trail) == body
  {
    if body == [] {
      assert lead + body + trail == lead + trail;
      LStripSpacePrefix(lead + trail, []);
    } else {
      assert lead + body + trail == lead + (body + trail);
      LStripSpacePrefix(lead, body + trail);
      RStripSpaceSuffix(body, trail);
    }
  }

  /** A string is its own strip exactly when neither end is whitespace. */
  lemma StripFixpoint(s: string)
    ensures Strip(s) == s <==> IsTrimmed(s)
  {
    if IsTrimmed(s) {
      assert [] + s + [] == s;
      StripAround([], s, []);
    }
  }

  /** Stripping twice is stripping once. */
  lemma StripIdempotent(s: string)
    ensures Strip(Strip(s)) == Strip(s)
  {
    StripFixpoint(Strip(s));
  }

  lemma LStripLead(s: string)
    ensures AllSpace(s[..|s| - |LStrip(s)|])
  {
    LStripRemovesSpace(s);
    var lead := s[..|s| - |LStrip(s)|];
    forall k | 0 <= k < |lead|
      ensures IsSpace(lead[k])
    {
      assert lead[k] == s[k];
    }
  }

  lemma RStripTrail(s: string)
    ensures AllSpace(s[|RStrip(s)|..])
  {
    RStripRemovesSpace(s);
    var trail := s[|RStrip(s)|..];
    forall k | 0 <= k < |trail|
      ensures IsSpace(trail[k])
    {
      assert trail[k] == s[|RStrip(s)| + k];
    }
  }

  lemma AllSpaceConcat(u: string, w: string)
    requires AllSpace(u) && AllSpace(w)
    ensures AllSpace(u + w)
  {
    forall k | 0 <= k < |u + w|
      ensures IsSpace((u + w)[k])
    {
      if k < |u| {
        assert (u + w)[k] == u[k];
      } else {
        assert (u + w)[k] == w[k - |u|];
      }
    }
  }

  /** A prefix `r` of a suffix `l` of `s` sits between the rest of `s` on
      the left and the rest of `l` on the right. */
  lemma PrefixOfSuffix(s: string, l: string, r: string)
    requires |l| <= |s| && l == s[|s| - |l|..]
    requires |r| <= |l| && r == l[..|r|]
    ensures s == s[..|s| - |l|] + r + l[|r|..]
  {
    var p := |s| - |l|;
    assert r + l[|r|..] == l;
    assert s[..p] + s[p..] == s;
    assert s[..p] + r + l[|r|..] == s[..p] + (r + l[|r|..]);
  }

  /** What the strip keeps lies between what the two one-sided strips cut. */
  lemma StripParts(s: string)
    ensures s == s[..|s| - |LStrip(s)|] + Strip(s) + LStrip(s)[|Strip(s)|..]
  {
    PrefixOfSuffix(s, LStrip(s), RStrip(LStrip(s)));
  }

  /** Every string is its strip with whitespace on either side. */
  lemma StripSplit(s: string) returns (lead: string, trail: string)
    ensures AllSpace(lead) && AllSpace(trail)
    ensures s == lead + Strip(s) + trail
  {
    lead, trail := s[..|s| - |LStrip(s)|], LStrip(s)[|Strip(s)|..];
    assert AllSpace(lead) by {
      LStripLead(s);
    }
    assert AllSpace(trail) by {
      RStripTrail(LStrip(s));
    }
    StripParts(s);
  }

  lemma Regroup(a: string, b: string, c: string, d: string, e: string)
    ensures a + (b + c + d) + e == (a + b) + c + (d + e)
  {
    assert a + (b + c + d) + e == a + b + c + d + e;
  }

  /** Extra whitespace around a string does not change its strip. */
  lemma StripPadded(lead: string, s: string, trail: string)
    requires AllSpace(lead) && AllSpace(trail)
    ensures Strip(lead + s + trail) == Strip(s)
  {
    var l, t := StripSplit(s);
    var body := Strip(s);
    Regroup(lead, l, body, t, trail);
    AllSpaceConcat(lead, l);
    AllSpaceConcat(t, trail);
    StripAround(lead + l, Strip(s), t + trail);
  }

  /** `str.startswith(prefix)`. */
  predicate StartsWith(s: string, prefix: string)
    ensures StartsWith(s, prefix) <==>
      |prefix| <= |s| && forall i :: 0 <= i < |prefix| ==> s[i] == prefix[i]
  {
    |prefix| <= |s| && s[..|prefix|] == prefix
  }

  /** How Python turns a slice bound into a position in a string of length `n`:
      a negative bound counts from the end, and the result is clamped to `0..n`. */
  function SliceBound(i: int, n: nat): (k: nat)
    ensures k <= n
    ensures 0 <= i <= n ==> k == i
    ensures i < 0 <= n + i ==> k == n + i
    ensures n + i < 0 ==> k == 0
    ensures n < i ==> k == n
  {
    if i < 0 then (if n + i < 0 then 0 else n + i)
    else if i > n then n
    else i
  }

  /** `s[start:stop]`: empty when the normalised start is not before the
      normalised stop. */
  function Slice(s: string, start: int, stop: int): (r: string)
    ensures |r| <= |s|
  {
    var lo := SliceBound(start, |s|);
    var hi := SliceBound(stop, |s|);
    if lo < hi then s[lo..hi] else s[lo..lo]
  }

  /** A slice is a contiguous piece of the string. */
  lemma SliceIsInfix(s: string, start: int, stop: int)
    ensures IsInfix(Slice(s, start, stop), s)
  {
    var lo := SliceBound(start, |s|);
    var hi := SliceBound(stop, |s|);
    if lo < hi {
      assert s[lo..hi] == Slice(s, start, stop);
    } else {
      assert s[lo..lo] == Slice(s, start, stop);
    }
  }

  /** `s[a:-b]` for a non-negative `a` and a positive `b`: the characters from
      index `a` up to but excluding the last `b`, or nothing when those overlap. */
  lemma SliceDropLast(s: string, a: nat, b: nat)
    requires b > 0
    ensures Slice(s, a, -(b as int)) == if a + b <= |s| then s[a..|s| - b] else []
  {
  }
}
