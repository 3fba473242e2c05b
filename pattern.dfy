/** The regular expression `([A-Z0-9]+)\s+(.+)` under Python's `re.match`, written as
    a hand-made scan (MatchSpan) and proved to agree with a declarative reading of
    the pattern (IsMatch plus Python's backtracking preference order). */
module VariantPattern {
  import opened Text

  datatype Option<T> = None | Some(value: T)

  /** Where a match puts its groups: group 1 is `s[..geneEnd]`, the `\s+` run is
      `s[geneEnd..varStart]` and group 2 is `s[varStart..varEnd]`. */
  datatype Span = Span(geneEnd: nat, varStart: nat, varEnd: nat)

  /** The pattern, anchored at the start of `s` and not at its end, matches with
      group 1 ending at `i`, the whitespace run ending at `j` and group 2 ending at
      `k`: one or more of `[A-Z0-9]`, one or more whitespace characters, one or more
      characters other than a newline (`.` without DOTALL). */
  ghost predicate IsMatch(s: string, i: int, j: int, k: int) {
    && 0 < i < j < k <= |s|
    && (forall p :: 0 <= p < i ==> GeneChar(s[p]))
    && (forall p :: i <= p < j ==> IsSpace(s[p]))
    && (forall p :: j <= p < k ==> s[p] != '\n')
  }

  /** Lexicographic order on the three group boundaries. Backtracking tries the
      greedy quantifiers from their longest extent down, group by group, so the match
      `re.match` reports is the one that is largest in this order. */
  predicate LexLe(i': int, j': int, k': int, i: int, j: int, k: int) {
    i' < i || (i' == i && (j' < j || (j' == j && k' <= k)))
  }

  ghost predicate SpanMatches(s: string, m: Span) {
    IsMatch(s, m.geneEnd, m.varStart, m.varEnd)
  }

  /** End of the longest run of `[A-Z0-9]` starting at `i`. */
  function GeneRunEnd(s: string, i: nat): (r: nat)
    requires i <= |s|
    ensures i <= r <= |s|
    ensures forall p :: i <= p < r ==> GeneChar(s[p])
    ensures r == |s| || !GeneChar(s[r])
    decreases |s| - i
  {
    if i < |s| && GeneChar(s[i]) then GeneRunEnd(s, i + 1) else i
  }

  /** End of the longest whitespace run starting at `i`. */
  function SpaceRunEnd(s: string, i: nat): (r: nat)
    requires i <= |s|
    ensures i <= r <= |s|
    ensures forall p :: i <= p < r ==> IsSpace(s[p])
    ensures r == |s| || !IsSpace(s[r])
    decreases |s| - i
  {
    if i < |s| && IsSpace(s[i]) then SpaceRunEnd(s, i + 1) else i
  }

  /** End of the longest run of non-newline characters starting at `i`: how far a
      greedy `.+` reaches. */
  function LineEnd(s: string, i: nat): (r: nat)
    requires i <= |s|
    ensures i <= r <= |s|
    ensures forall p :: i <= p < r ==> s[p] != '\n'
    ensures r == |s| || s[r] == '\n'
    decreases |s| - i
  {
    if i < |s| && s[i] != '\n' then LineEnd(s, i + 1) else i
  }

  /** Backtracking into `\s+`: the largest position `p` with `lo < p <= t` at which
      `.+` could start, that is, whose character is not a newline. */
  function LastLineStart(s: string, lo: nat, t: int): (r: Option<nat>)
    requires t < |s|
    ensures r.Some? ==> lo < r.value <= t && s[r.value] != '\n'
    ensures r.Some? ==> forall p :: r.value < p <= t ==> s[p] == '\n'
    ensures r.None? ==> forall p :: lo < p <= t ==> s[p] == '\n'
    decreases t
  {
    if t <= lo then None
    else if s[t] != '\n' then Some(t)
    else LastLineStart(s, lo, t - 1)
  }

  /** The scan that `re.match(r"([A-Z0-9]+)\s+(.+)", s)` performs, or None when it
      finds no match. */
  function MatchSpan(s: string): (r: Option<Span>)
    ensures r.Some? ==> SpanMatches(s, r.value)
  {
    var i := GeneRunEnd(s, 0);
    if i == 0 then None
    else
      var j := SpaceRunEnd(s, i);
      if j == i then None
      else if j < |s| then
        NewlineIsSpace();
        Some(Span(i, j, LineEnd(s, j)))
      else
        match LastLineStart(s, i, |s| - 1)
        case None => None
        case Some(p) => Some(Span(i, p, LineEnd(s, p)))
  }

  /** Every match of the pattern has its first group ending where the longest
      leading `[A-Z0-9]` run ends: group 1 cannot stop early, because the
      character after it would have to be whitespace. */
  lemma MatchGeneIsMaximal(s: string, i: int, j: int, k: int)
    requires IsMatch(s, i, j, k)
    ensures i == GeneRunEnd(s, 0)
  {
    var g := GeneRunEnd(s, 0);
    if i < g {
      assert GeneChar(s[i]) && IsSpace(s[i]);
      GeneCharIsNotSpace(s[i]);
    }
  }

  /** The scan is the regular expression: it finds a match exactly when one exists,
      and the one it finds is the one Python's backtracking reports, the largest in
      the order of LexLe. */
  lemma MatchSpanIsLeftmostGreedy(s: string)
    ensures MatchSpan(s).None? ==> forall i, j, k :: !IsMatch(s, i, j, k)
    ensures MatchSpan(s).Some? ==>
      var m := MatchSpan(s).value;
      forall i, j, k :: IsMatch(s, i, j, k) ==> LexLe(i, j, k, m.geneEnd, m.varStart, m.varEnd)
  {
    var g := GeneRunEnd(s, 0);
    forall i, j, k | IsMatch(s, i, j, k)
      ensures MatchSpan(s).Some?
      ensures var m := MatchSpan(s).value; LexLe(i, j, k, m.geneEnd, m.varStart, m.varEnd)
    {
      MatchGeneIsMaximal(s, i, j, k);
      assert IsSpace(s[g]);
      var w := SpaceRunEnd(s, g);
      assert j <= w;
      if w < |s| {
        NewlineIsSpace();
        if j == w {
          assert s[j] != '\n';
        }
      } else {
        assert j < |s|;
        assert s[j] != '\n';
        var p := LastLineStart(s, g, |s| - 1);
        assert p.Some?;
      }
    }
  }

  /** On a stripped string the whitespace run never reaches the end, so no
      backtracking into `\s+` happens: group 2 starts at the first character after
      the whole whitespace run, which is not whitespace. */
  lemma StrippedMatchNoBacktrack(s: string)
    requires IsStripped(s)
    requires MatchSpan(s).Some?
    ensures MatchSpan(s).value.varStart == SpaceRunEnd(s, GeneRunEnd(s, 0))
    ensures MatchSpan(s).value.varStart < |s|
    ensures !IsSpace(s[MatchSpan(s).value.varStart])
    ensures MatchSpan(s).value.varEnd == LineEnd(s, MatchSpan(s).value.varStart)
  {
  }

  /** The groups of a match on a stripped string, read as strings: group 1 is a
      non-empty run of `[A-Z0-9]`, group 2 is non-empty, has no newline and does not
      start with whitespace. */
  lemma StrippedMatchGroups(s: string)
    requires IsStripped(s)
    requires MatchSpan(s).Some?
    ensures var m := MatchSpan(s).value;
      var gene, variant := s[..m.geneEnd], s[m.varStart..m.varEnd];
      && |gene| > 0 && (forall p :: 0 <= p < |gene| ==> GeneChar(gene[p]))
      && |variant| > 0 && (forall p :: 0 <= p < |variant| ==> variant[p] != '\n')
      && !IsSpace(variant[0])
  {
    var m := MatchSpan(s).value;
    StrippedMatchNoBacktrack(s);
    var variant := s[m.varStart..m.varEnd];
    forall p | 0 <= p < |variant| ensures variant[p] != '\n' {
      assert variant[p] == s[m.varStart + p];
    }
  }

  /** A stripped string cut at a match's group boundaries: the gene, the whole
      whitespace run, the variant, and what follows the variant, which is empty or
      starts with a newline. */
  lemma StrippedMatchSplits(s: string)
    requires IsStripped(s)
    requires MatchSpan(s).Some?
    ensures var m := MatchSpan(s).value;
      && s == s[..m.geneEnd] + s[m.geneEnd..m.varStart] + s[m.varStart..m.varEnd] + s[m.varEnd..]
      && (forall p :: 0 <= p < |s[m.geneEnd..m.varStart]| ==> IsSpace(s[m.geneEnd..m.varStart][p]))
      && (s[m.varEnd..] == [] || s[m.varEnd..][0] == '\n')
  {
    var m := MatchSpan(s).value;
    StrippedMatchNoBacktrack(s);
    var i, j, k := m.geneEnd, m.varStart, m.varEnd;
    assert s[..j] == s[..i] + s[i..j];
    assert s[..k] == s[..j] + s[j..k];
    assert s == s[..k] + s[k..];
    forall p | 0 <= p < |s[i..j]| ensures IsSpace(s[i..j][p]) {
      assert s[i..j][p] == s[i + p];
    }
  }

  /** A string laid out as gene, whitespace run, variant and line end is
      matched at exactly those boundaries. */
  lemma MatchSpanOfLayout(s: string, i: nat, j: nat, k: nat)
    requires 0 < i < j < k <= |s|
    requires forall p :: 0 <= p < i ==> GeneChar(s[p])
    requires forall p :: i <= p < j ==> IsSpace(s[p])
    requires !IsSpace(s[j])
    requires forall p :: j <= p < k ==> s[p] != '\n'
    requires k == |s| || s[k] == '\n'
    ensures MatchSpan(s) == Some(Span(i, j, k))
  {
    GeneCharIsNotSpace(s[i]);
    assert GeneRunEnd(s, 0) == i;
    assert SpaceRunEnd(s, i) == j;
    assert LineEnd(s, j) == k;
  }

}
