/** Character classes and whitespace trimming as Python's `str` and `re` see them. */
module Text {

  /** Python's whitespace: the characters for which `str.isspace()` holds, which is
      also the set the `\s` class of a `str` regular expression matches. */
  predicate IsSpace(c: char) {
    || ('\t' <= c <= '\r')
    || ('\U{1C}' <= c <= '\U{1F}')
    || c == ' '
    || c == '\U{85}'
    || c == '\U{A0}'
    || c == '\U{1680}'
    || ('\U{2000}' <= c <= '\U{200A}')
    || c == '\U{2028}'
    || c == '\U{2029}'
    || c == '\U{202F}'
    || c == '\U{205F}'
    || c == '\U{3000}'
  }

  /** The regex character class `[A-Z0-9]` (no IGNORECASE flag, so ASCII only). */
  predicate GeneChar(c: char) {
    ('A' <= c <= 'Z') || ('0' <= c <= '9')
  }

  lemma GeneCharIsNotSpace(c: char)
    ensures GeneChar(c) ==> !IsSpace(c)
  {}

  lemma NewlineIsSpace()
    ensures IsSpace('\n') && IsSpace(' ') && IsSpace('\t') && IsSpace('\r')
  {}

  /** Number of whitespace characters at the front of `s`. */
  function LeadingSpaces(s: string): (n: nat)
    ensures n <= |s|
    ensures forall p :: 0 <= p < n ==> IsSpace(s[p])
    ensures n == |s| || !IsSpace(s[n])
  {
    if |s| > 0 && IsSpace(s[0]) then 1 + LeadingSpaces(s[1..]) else 0
  }

  /** Number of whitespace characters at the back of `s`. */
  function TrailingSpaces(s: string): (n: nat)
    ensures n <= |s|
    ensures forall p :: |s| - n <= p < |s| ==> IsSpace(s[p])
    ensures n == |s| || !IsSpace(s[|s| - 1 - n])
  {
    if |s| > 0 && IsSpace(s[|s| - 1]) then 1 + TrailingSpaces(s[..|s| - 1]) else 0
  }

  /** The input without its leading whitespace. */
  function TrimStart(s: string): (r: string)
    ensures |r| <= |s| && r == s[|s| - |r|..]
    ensures forall p :: 0 <= p < |s| - |r| ==> IsSpace(s[p])
    ensures r == [] || !IsSpace(r[0])
  {
    s[LeadingSpaces(s)..]
  }

  /** `str.strip()` with no argument: the input without its leading and trailing
      whitespace. Everything cut off is whitespace, and what is kept neither starts
      nor ends with whitespace. */
  function Strip(s: string): (r: string)
    ensures LeadingSpaces(s) + |r| <= |s|
    ensures r == s[LeadingSpaces(s)..LeadingSpaces(s) + |r|]
    ensures forall p :: 0 <= p < LeadingSpaces(s) ==> IsSpace(s[p])
    ensures forall p :: LeadingSpaces(s) + |r| <= p < |s| ==> IsSpace(s[p])
    ensures r == [] || (!IsSpace(r[0]) && !IsSpace(r[|r| - 1]))
  {
    var t := TrimStart(s);
    t[..|t| - TrailingSpaces(t)]
  }

  /** A string that is already stripped: it neither starts nor ends with whitespace. */
  predicate IsStripped(s: string) {
    s == [] || (!IsSpace(s[0]) && !IsSpace(s[|s| - 1]))
  }

  lemma StrippedIsFixedPoint(s: string)
    requires IsStripped(s)
    ensures Strip(s) == s
  {
    if s != [] {
      assert LeadingSpaces(s) == 0;
      assert TrailingSpaces(s) == 0;
    }
  }

  /** A text made only of whitespace strips to nothing. */
  lemma StripOfAllSpace(s: string)
    requires forall p :: 0 <= p < |s| ==> IsSpace(s[p])
    ensures Strip(s) == []
  {
    assert LeadingSpaces(s) == |s|;
  }

  /** Strip removes exactly the whitespace around a text that does not itself
      start or end with whitespace. */
  lemma StripAroundStripped(lead: string, core: string, trail: string)
    requires forall p :: 0 <= p < |lead| ==> IsSpace(lead[p])
    requires forall p :: 0 <= p < |trail| ==> IsSpace(trail[p])
    requires IsStripped(core)
    ensures Strip(lead + core + trail) == core
  {
    var s := lead + core + trail;
    if core == [] {
      SpacesConcat(lead, trail);
      assert s == lead + trail;
      StripOfAllSpace(s);
    } else {
      forall p | 0 <= p < |lead| ensures IsSpace(s[p]) { assert s[p] == lead[p]; }
      assert s[|lead|] == core[0];
      assert LeadingSpaces(s) == |lead|;
      var t := s[|lead|..];
      assert t == core + trail;
      forall p | |core| <= p < |t| ensures IsSpace(t[p]) { assert t[p] == trail[p - |core|]; }
      assert t[|core| - 1] == core[|core| - 1];
      assert TrailingSpaces(t) == |trail|;
      assert t[..|core|] == core;
    }
  }

  /** Whitespace added around any text is stripped off with the text's own. */
  lemma StripOfPadded(lead: string, core: string, trail: string)
    requires forall p :: 0 <= p < |lead| ==> IsSpace(lead[p])
    requires forall p :: 0 <= p < |trail| ==> IsSpace(trail[p])
    ensures Strip(lead + core + trail) == Strip(core)
  {
    var l, t := StripCut(core);
    SpacesConcat(lead, l);
    SpacesConcat(t, trail);
    Regroup(lead, l, Strip(core), t, trail);
    StripAroundStripped(lead + l, Strip(core), t + trail);
  }

  /** A text is its leading whitespace, its stripped form and its trailing whitespace. */
  lemma StripCut(s: string) returns (l: string, t: string)
    ensures s == l + Strip(s) + t
    ensures forall p :: 0 <= p < |l| ==> IsSpace(l[p])
    ensures forall p :: 0 <= p < |t| ==> IsSpace(t[p])
  {
    var a := LeadingSpaces(s);
    var b := a + |Strip(s)|;
    l, t := s[..a], s[b..];
    SliceCut(s, a, b);
    SpacesFrom(s, b);
  }

  lemma SliceCut(s: string, a: nat, b: nat)
    requires a <= b <= |s|
    ensures s == s[..a] + s[a..b] + s[b..]
  {
    assert s[..b] == s[..a] + s[a..b];
  }

  lemma SpacesFrom(s: string, b: nat)
    requires b <= |s| && forall p :: b <= p < |s| ==> IsSpace(s[p])
    ensures forall p :: 0 <= p < |s[b..]| ==> IsSpace(s[b..][p])
  {}

  lemma Regroup(a: string, b: string, c: string, d: string, e: string)
    ensures a + (b + c + d) + e == (a + b) + c + (d + e)
  {}

  lemma SpacesConcat(x: string, y: string)
    requires forall p :: 0 <= p < |x| ==> IsSpace(x[p])
    requires forall p :: 0 <= p < |y| ==> IsSpace(y[p])
    ensures forall p :: 0 <= p < |x + y| ==> IsSpace((x + y)[p])
  {
    forall p | 0 <= p < |x + y| ensures IsSpace((x + y)[p]) {
      if p < |x| { assert (x + y)[p] == x[p]; } else { assert (x + y)[p] == y[p - |x|]; }
    }
  }

  /** Strip keeps a text's front up to any character that is not whitespace, when
      the text does not start with whitespace. */
  lemma StripFromNonSpace(s: string, i: nat)
    requires i < |s| && !IsSpace(s[0]) && !IsSpace(s[i])
    ensures i < |Strip(s)| && forall p :: 0 <= p <= i ==> Strip(s)[p] == s[p]
  {
    assert LeadingSpaces(s) == 0;
  }

  /** Stripping twice is stripping once. */
  lemma StripIdempotent(s: string)
    ensures Strip(Strip(s)) == Strip(s)
  {
    StrippedIsFixedPoint(Strip(s));
  }
}
