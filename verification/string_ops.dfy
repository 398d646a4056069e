/**
  The two string operations the report scan relies on: Python's `str.strip()`
  with no argument, and `str.startswith`.
 */
module StringOps {

  /** Python's `str.isspace` code points, the set `str.strip()` removes. */
  predicate IsSpace(c: char)
    ensures c == ' ' || c == '\t' || c == '\n' || c == '\r' ==> IsSpace(c)
    ensures '0' <= c <= '9' || 'A' <= c <= 'Z' || 'a' <= c <= 'z' || c == '/' ==> !IsSpace(c)
  {
    var n := c as int;
    || 0x09 <= n <= 0x0D
    || 0x1C <= n <= 0x20
    || n == 0x85 || n == 0xA0 || n == 0x1680
    || 0x2000 <= n <= 0x200A
    || n == 0x2028 || n == 0x2029 || n == 0x202F || n == 0x205F || n == 0x3000
  }

  /** `prefix` is a prefix of `s`, as `s.startswith(prefix)`; the empty prefix starts every string. */
  predicate StartsWith(s: string, prefix: string)
    ensures StartsWith(s, prefix) ==> |prefix| <= |s|
    ensures StartsWith(s, prefix) && |prefix| > 0 ==> s[0] == prefix[0]
    ensures |prefix| == 0 ==> StartsWith(s, prefix)
  {
    prefix <= s
  }

  /** `s.startswith(prefix)` compares `prefix` with the first `|prefix|` characters of `s`. */
  lemma StartsWithSlice(s: string, prefix: string)
    ensures StartsWith(s, prefix) <==> |prefix| <= |s| && s[..|prefix|] == prefix
  {
  }

  /** Number of whitespace characters at the start of `s`. */
  function LeadingSpaces(s: string): (n: nat)
    ensures n <= |s|
    ensures forall k :: 0 <= k < n ==> IsSpace(s[k])
    ensures n < |s| ==> !IsSpace(s[n])
  {
    if |s| > 0 && IsSpace(s[0]) then 1 + LeadingSpaces(s[1..]) else 0
  }

  /** `s.strip()`: leading whitespace removed one character at a time, then trailing whitespace. */
  function Strip(s: string): (r: string)
    ensures |r| <= |s|
    ensures |r| > 0 ==> !IsSpace(r[0]) && !IsSpace(r[|r| - 1])
    decreases |s|
  {
    if |s| > 0 && IsSpace(s[0]) then Strip(s[1..])
    else if |s| > 0 && IsSpace(s[|s| - 1]) then Strip(s[..|s| - 1])
    else s
  }

  /** Stripping keeps a contiguous part of `s` and removes only whitespace, from both ends. */
  lemma StripRemovesSpaces(s: string)
    ensures LeadingSpaces(s) + |Strip(s)| <= |s|
    ensures Strip(s) == s[LeadingSpaces(s)..LeadingSpaces(s) + |Strip(s)|]
    ensures forall k :: 0 <= k < LeadingSpaces(s) ==> IsSpace(s[k])
    ensures forall k :: LeadingSpaces(s) + |Strip(s)| <= k < |s| ==> IsSpace(s[k])
  {
    StripInfix(s);
  }

  /** `Strip(s)` is the part of `s` after its leading whitespace, followed only by whitespace. */
  ghost predicate StripsToInfix(s: string) {
    && LeadingSpaces(s) + |Strip(s)| <= |s|
    && Strip(s) == s[LeadingSpaces(s)..LeadingSpaces(s) + |Strip(s)|]
    && forall k :: LeadingSpaces(s) + |Strip(s)| <= k < |s| ==> IsSpace(s[k])
  }

  /** By induction along the recursion of Strip. */
  lemma {:induction false} StripInfix(s: string)
    ensures StripsToInfix(s)
    decreases |s|
  {
    if |s| > 0 && IsSpace(s[0]) {
      StripInfix(s[1..]);
      StripLeadingStep(s);
    } else if |s| > 0 && IsSpace(s[|s| - 1]) {
      StripInfix(s[..|s| - 1]);
      StripTrailingStep(s);
    }
  }

  /** Dropping a leading space keeps the infix shape, one position further on. */
  lemma StripLeadingStep(s: string)
    requires |s| > 0 && IsSpace(s[0])
    requires StripsToInfix(s[1..])
    ensures StripsToInfix(s)
  {
    var t := s[1..];
    var n, r := LeadingSpaces(t), Strip(t);
    assert Strip(s) == r && LeadingSpaces(s) == n + 1;
    assert s[n + 1..n + 1 + |r|] == t[n..n + |r|];
    forall k | n + 1 + |r| <= k < |s|
      ensures IsSpace(s[k])
    {
      assert s[k] == t[k - 1];
    }
  }

  /** Dropping a trailing space, with no leading space, keeps the infix shape. */
  lemma StripTrailingStep(s: string)
    requires |s| > 0 && !IsSpace(s[0]) && IsSpace(s[|s| - 1])
    requires StripsToInfix(s[..|s| - 1])
    ensures StripsToInfix(s)
  {
    var t := s[..|s| - 1];
    var r := Strip(t);
    assert Strip(s) == r && LeadingSpaces(s) == 0 && LeadingSpaces(t) == 0;
    assert s[..|r|] == t[..|r|];
  }

  /** A string that is all whitespace strips to the empty string. */
  lemma {:induction false} StripBlank(s: string)
    requires forall k :: 0 <= k < |s| ==> IsSpace(s[k])
    ensures Strip(s) == ""
    decreases |s|
  {
    if |s| > 0 {
      StripBlank(s[1..]);
    }
  }

  /** Stripping twice is stripping once. */
  lemma StripIdempotent(s: string)
    ensures Strip(Strip(s)) == Strip(s)
  {
  }

  /** Whitespace added on either side is removed again: only the inner text is kept. */
  lemma {:induction false} StripPadded(pre: string, s: string, post: string)
    requires forall k :: 0 <= k < |pre| ==> IsSpace(pre[k])
    requires forall k :: 0 <= k < |post| ==> IsSpace(post[k])
    requires |s| > 0 && !IsSpace(s[0]) && !IsSpace(s[|s| - 1])
    ensures Strip(pre + s + post) == s
    decreases |pre| + |post|
  {
    var w := pre + s + post;
    if |pre| > 0 {
      assert w[0] == pre[0];
      assert w[1..] == pre[1..] + s + post;
      StripPadded(pre[1..], s, post);
    } else if |post| > 0 {
      assert w == s + post;
      assert w[0] == s[0];
      assert w[|w| - 1] == post[|post| - 1];
      assert w[..|w| - 1] == "" + s + post[..|post| - 1];
      StripPadded("", s, post[..|post| - 1]);
    } else {
      assert w == s;
    }
  }
}
