/** `VariantProcessor`: turns a free-text variant such as "EGFR T790M" into a gene and
    a mutation, and turns that record into the search sentence the retriever is
    given. Both operations are pure; the class holds no state that they read. */
module VariantProcessor {
  import opened Text
  import opened VariantPattern

  /** The dictionary `parse_variant_string` returns: either the keys "gene" and
      "variant", or the single key "error". */
  datatype Parsed = Ok(gene: string, variant: string) | Err(msg: string)

  const InvalidFormat: string :=
    "Invalid format. Please use 'Gene Mutation' format (e.g., BRAF V600E)."

  const QueryPrefix: string := "What is the clinical significance of the "
  const QuerySuffix: string := " mutation in precision oncology?"

  /** `parse_variant_string`: strip the text, match `([A-Z0-9]+)\s+(.+)` at its
      start, and return the two groups, or the fixed error record. */
  function ParseVariantString(text: string): (r: Parsed)
    ensures r.Err? ==> r.msg == InvalidFormat
    ensures r.Ok? ==> |r.gene| > 0 && forall p :: 0 <= p < |r.gene| ==> GeneChar(r.gene[p])
    ensures r.Ok? ==> |r.variant| > 0 && forall p :: 0 <= p < |r.variant| ==> r.variant[p] != '\n'
    ensures r.Ok? ==> !IsSpace(r.variant[0])
  {
    var s := Strip(text);
    match MatchSpan(s)
    case Some(m) =>
      StrippedMatchGroups(s);
      Ok(s[..m.geneEnd], s[m.varStart..m.varEnd])
    case None => Err(InvalidFormat)
  }

  /** `format_query_for_rag`: an error record's message is passed on as the query;
      otherwise gene and variant are put into the fixed question sentence. */
  function FormatQueryForRag(parsed: Parsed): (q: string)
    ensures parsed.Err? ==> q == parsed.msg
    ensures parsed.Ok? ==>
      |q| == |QueryPrefix| + |parsed.gene| + 1 + |parsed.variant| + |QuerySuffix|
  {
    match parsed
    case Err(msg) => msg
    case Ok(gene, variant) => QueryPrefix + gene + " " + variant + QuerySuffix
  }

  /** Whitespace around the input never changes the result. */
  lemma ParseIgnoresSurroundingSpace(text: string)
    ensures ParseVariantString(text) == ParseVariantString(Strip(text))
  {
    StripIdempotent(text);
  }

  /** Parsing succeeds exactly when the pattern matches the stripped text somewhere
      at its start. */
  lemma ParseSucceedsIffPatternMatches(text: string)
    ensures ParseVariantString(text).Ok? <==> exists i, j, k :: IsMatch(Strip(text), i, j, k)
  {
    var s := Strip(text);
    MatchSpanIsLeftmostGreedy(s);
    if MatchSpan(s).Some? {
      var m := MatchSpan(s).value;
      assert IsMatch(s, m.geneEnd, m.varStart, m.varEnd);
    }
  }

  /** On success the two fields are the two groups of the match Python's
      backtracking reports: of all ways the pattern matches the stripped text, the
      one with the longest gene, then the longest whitespace run, then the longest
      variant. */
  lemma ParseIsGreedyMatch(text: string)
    requires ParseVariantString(text).Ok?
    ensures var s, r := Strip(text), ParseVariantString(text);
      exists i, j, k ::
        && IsMatch(s, i, j, k)
        && r.gene == s[..i] && r.variant == s[j..k]
        && forall i', j', k' :: IsMatch(s, i', j', k') ==> LexLe(i', j', k', i, j, k)
  {
    var s := Strip(text);
    MatchSpanIsLeftmostGreedy(s);
    var m := MatchSpan(s).value;
    assert IsMatch(s, m.geneEnd, m.varStart, m.varEnd);
  }

  /** The stripped input reads back from the result: it is the gene, then a
      non-empty whitespace run, then the variant, then either nothing or text that
      starts with a newline. */
  lemma ParseReconstructs(text: string) returns (sep: string, rest: string)
    requires ParseVariantString(text).Ok?
    ensures var r := ParseVariantString(text);
      Strip(text) == r.gene + sep + r.variant + rest
    ensures |sep| > 0 && forall p :: 0 <= p < |sep| ==> IsSpace(sep[p])
    ensures rest == [] || rest[0] == '\n'
  {
    var s := Strip(text);
    var m := MatchSpan(s).value;
    StrippedMatchSplits(s);
    sep, rest := s[m.geneEnd..m.varStart], s[m.varEnd..];
  }

  /** The converse: a stripped text made of a gene, a whitespace run, a variant
      that does not start with whitespace, and nothing more on its line parses to
      exactly that gene and variant. */
  lemma ParseOfComposed(gene: string, sep: string, variant: string, rest: string)
    requires |gene| > 0 && forall p :: 0 <= p < |gene| ==> GeneChar(gene[p])
    requires |sep| > 0 && forall p :: 0 <= p < |sep| ==> IsSpace(sep[p])
    requires |variant| > 0 && !IsSpace(variant[0])
    requires forall p :: 0 <= p < |variant| ==> variant[p] != '\n'
    requires rest == [] || rest[0] == '\n'
    requires IsStripped(gene + sep + variant + rest)
    ensures ParseVariantString(gene + sep + variant + rest) == Ok(gene, variant)
  {
    var s := gene + sep + variant + rest;
    var i, j, k := |gene|, |gene| + |sep|, |gene| + |sep| + |variant|;
    ComposedLayout(gene, sep, variant, rest);
    MatchSpanOfLayout(s, i, j, k);
    ParseOfStrippedMatch(s);
  }

  /** On a stripped text, a parse returns the groups the scan found. */
  lemma ParseOfStrippedMatch(s: string)
    requires IsStripped(s) && MatchSpan(s).Some?
    ensures var m := MatchSpan(s).value;
      ParseVariantString(s) == Ok(s[..m.geneEnd], s[m.varStart..m.varEnd])
  {
    StrippedIsFixedPoint(s);
  }

  /** The pieces of `gene + sep + variant + rest`, read back by position. */
  lemma ComposedLayout(gene: string, sep: string, variant: string, rest: string)
    requires |gene| > 0 && forall p :: 0 <= p < |gene| ==> GeneChar(gene[p])
    requires |sep| > 0 && forall p :: 0 <= p < |sep| ==> IsSpace(sep[p])
    requires |variant| > 0 && !IsSpace(variant[0])
    requires forall p :: 0 <= p < |variant| ==> variant[p] != '\n'
    requires rest == [] || rest[0] == '\n'
    ensures var s, i, j := gene + sep + variant + rest, |gene|, |gene| + |sep|;
      var k := j + |variant|;
      && (forall p :: 0 <= p < i ==> GeneChar(s[p]))
      && (forall p :: i <= p < j ==> IsSpace(s[p]))
      && !IsSpace(s[j])
      && (forall p :: j <= p < k ==> s[p] != '\n')
      && (k == |s| || s[k] == '\n')
      && s[..i] == gene && s[j..k] == variant
  {
    var s := gene + sep + variant + rest;
    var i, j, k := |gene|, |gene| + |sep|, |gene| + |sep| + |variant|;
    forall p | 0 <= p < i ensures GeneChar(s[p]) { assert s[p] == gene[p]; }
    forall p | i <= p < j ensures IsSpace(s[p]) { assert s[p] == sep[p - i]; }
    forall p | j <= p < k ensures s[p] != '\n' { assert s[p] == variant[p - j]; }
    assert s[j] == variant[0];
    assert k < |s| ==> s[k] == rest[0];
    assert s[..i] == gene && s[j..k] == variant;
  }

  /** Parsing fails exactly when the stripped text does not start with `[A-Z0-9]`,
      or when the leading `[A-Z0-9]` run is not followed by whitespace. */
  lemma ParseFailsIff(text: string)
    ensures var s := Strip(text); var i := GeneRunEnd(s, 0);
      ParseVariantString(text).Err? <==> (i == 0 || i == |s| || !IsSpace(s[i]))
  {
    var s := Strip(text);
    var i := GeneRunEnd(s, 0);
    if i != 0 && i < |s| && IsSpace(s[i]) {
      assert SpaceRunEnd(s, i) < |s|;
    }
  }

  /** A text with no whitespace in it is rejected. */
  lemma RejectsWithoutWhitespace(text: string)
    requires forall p :: 0 <= p < |text| ==> !IsSpace(text[p])
    ensures ParseVariantString(text) == Err(InvalidFormat)
  {
    NoSpaceIsStripped(text);
    NoMatchWithoutSpace(text);
  }

  lemma NoSpaceIsStripped(text: string)
    requires forall p :: 0 <= p < |text| ==> !IsSpace(text[p])
    ensures Strip(text) == text
  {
    StrippedIsFixedPoint(text);
  }

  /** Without whitespace the leading `[A-Z0-9]` run cannot be followed by `\s+`. */
  lemma NoMatchWithoutSpace(s: string)
    requires forall p :: 0 <= p < |s| ==> !IsSpace(s[p])
    ensures MatchSpan(s).None?
  {
    var i := GeneRunEnd(s, 0);
    assert i == |s| || !IsSpace(s[i]);
  }

  /** A text whose stripped form is empty or starts with anything other than
      `[A-Z0-9]` (a lower-case letter, punctuation) is rejected. */
  lemma RejectsBadStart(text: string)
    requires Strip(text) == [] || !GeneChar(Strip(text)[0])
    ensures ParseVariantString(text) == Err(InvalidFormat)
  {
    ParseFailsIff(text);
  }

  /** A text whose leading `[A-Z0-9]` run is followed by a character that is not
      whitespace (a lower-case letter, punctuation) is rejected. */
  lemma RejectsRunNotFollowedBySpace(text: string, i: nat)
    requires var s := Strip(text);
      && i < |s| && (forall p :: 0 <= p < i ==> GeneChar(s[p]))
      && !GeneChar(s[i]) && !IsSpace(s[i])
    ensures ParseVariantString(text) == Err(InvalidFormat)
  {
    assert GeneRunEnd(Strip(text), 0) == i;
    ParseFailsIff(text);
  }

  /** Whitespace added around any text is ignored. */
  lemma ParseOfPadded(lead: string, core: string, trail: string)
    requires forall p :: 0 <= p < |lead| ==> IsSpace(lead[p])
    requires forall p :: 0 <= p < |trail| ==> IsSpace(trail[p])
    ensures ParseVariantString(lead + core + trail) == ParseVariantString(core)
  {
    StripOfPadded(lead, core, trail);
    ParseIgnoresSurroundingSpace(lead + core + trail);
    ParseIgnoresSurroundingSpace(core);
  }

  /** The example of the doc comment. */
  lemma ExampleEgfr()
    ensures ParseVariantString("EGFR T790M") == Ok("EGFR", "T790M")
  {
    assert "EGFR" + " " + "T790M" + "" == "EGFR T790M";
    ParseOfComposed("EGFR", " ", "T790M", "");
  }

  /** The example of the commented-out usage. */
  lemma ExampleBrca1()
    ensures ParseVariantString("BRCA1 C61G") == Ok("BRCA1", "C61G")
  {
    assert "BRCA1" + " " + "C61G" + "" == "BRCA1 C61G";
    ParseOfComposed("BRCA1", " ", "C61G", "");
  }

  /** The example the error message gives. */
  lemma ExampleBraf()
    ensures ParseVariantString("BRAF V600E") == Ok("BRAF", "V600E")
  {
    assert "BRAF" + " " + "V600E" + "" == "BRAF V600E";
    ParseOfComposed("BRAF", " ", "V600E", "");
  }

  /** The variant may hold spaces. */
  lemma ExampleVariantWithSpaces()
    ensures ParseVariantString("BRAF V600E (somatic)") == Ok("BRAF", "V600E (somatic)")
  {
    assert "BRAF" + " " + "V600E (somatic)" + "" == "BRAF V600E (somatic)";
    ParseOfComposed("BRAF", " ", "V600E (somatic)", "");
  }

  /** The variant stops at the first newline; the lines after it are ignored. */
  lemma ExampleVariantStopsAtNewline()
    ensures ParseVariantString("KRAS G12C\nnotes") == Ok("KRAS", "G12C")
  {
    assert "KRAS" + " " + "G12C" + "\nnotes" == "KRAS G12C\nnotes";
    ParseOfComposed("KRAS", " ", "G12C", "\nnotes");
  }

  /** A newline right after the gene belongs to the separator, so the next line
      becomes the variant. */
  lemma ExampleNewlineSeparator()
    ensures ParseVariantString("EGFR\nT790M") == Ok("EGFR", "T790M")
  {
    assert "EGFR" + "\n" + "T790M" + "" == "EGFR\nT790M";
    ParseOfComposed("EGFR", "\n", "T790M", "");
  }

  /** A separator of several whitespace characters is consumed whole. */
  lemma ExampleSeparatorRun()
    ensures ParseVariantString("TP53 \t R175H") == Ok("TP53", "R175H")
  {
    assert "TP53" + " \t " + "R175H" + "" == "TP53 \t R175H";
    ParseOfComposed("TP53", " \t ", "R175H", "");
  }

  /** Whitespace around the input is dropped. */
  lemma ExamplePadded()
    ensures ParseVariantString("  TP53 \t R175H \n") == Ok("TP53", "R175H")
  {
    assert "  " + "TP53 \t R175H" + " \n" == "  TP53 \t R175H \n";
    ParseOfPadded("  ", "TP53 \t R175H", " \n");
    ExampleSeparatorRun();
  }

  /** Empty input is rejected. */
  lemma ExampleEmpty()
    ensures ParseVariantString("") == Err(InvalidFormat)
  {
    ParseFailsIff("");
  }

  /** A gene with no variant after it is rejected. */
  lemma ExampleGeneOnly()
    ensures ParseVariantString("EGFR") == Err(InvalidFormat)
  {
    RejectsWithoutWhitespace("EGFR");
  }

  /** A lower-case gene is rejected. */
  lemma ExampleLowerCase()
    ensures ParseVariantString("egfr T790M") == Err(InvalidFormat)
  {
    StripFromNonSpace("egfr T790M", 0);
    RejectsBadStart("egfr T790M");
  }

  /** A gene that turns lower-case after its first letter is rejected: the
      `[A-Z0-9]` run is "E", and "g" is not whitespace. */
  lemma ExampleMixedCase()
    ensures ParseVariantString("Egfr T790M") == Err(InvalidFormat)
  {
    StripFromNonSpace("Egfr T790M", 1);
    RejectsRunNotFollowedBySpace("Egfr T790M", 1);
  }

  /** A text with no whitespace at all is rejected. */
  lemma ExampleNoSeparator()
    ensures ParseVariantString("egfrT790M") == Err(InvalidFormat)
  {
    RejectsWithoutWhitespace("egfrT790M");
  }

  /** A parsed variant becomes the fixed question sentence, with gene and variant
      separated by one space. */
  lemma FormatFillsTemplate(gene: string, variant: string)
    ensures var q := FormatQueryForRag(Ok(gene, variant));
      && q[..|QueryPrefix|] == QueryPrefix
      && q[|QueryPrefix|..|QueryPrefix| + |gene|] == gene
      && q[|QueryPrefix| + |gene|] == ' '
      && q[|QueryPrefix| + |gene| + 1..|q| - |QuerySuffix|] == variant
      && q[|q| - |QuerySuffix|..] == QuerySuffix
  {}

  /** The question for BRAF V600E. */
  lemma FormatExample()
    ensures FormatQueryForRag(Ok("BRAF", "V600E"))
      == "What is the clinical significance of the " + "BRAF V600E" + " mutation in precision oncology?"
  {
    assert "BRAF" + " " + "V600E" == "BRAF V600E";
  }

  /** The part of ParseVariantString's contract that QueryDeterminesRecord relies
      on: an Ok record with a non-empty gene made of `[A-Z0-9]` and a non-empty
      variant, or the fixed error record. */
  ghost predicate ParseShaped(p: Parsed) {
    match p
    case Ok(gene, variant) =>
      |gene| > 0 && |variant| > 0 && forall q :: 0 <= q < |gene| ==> GeneChar(gene[q])
    case Err(msg) => msg == InvalidFormat
  }

  /** No information is lost between a parse and its query: two records a parse can
      return get the same query only when they are equal. The gene never holds a
      space, so the first space after the sentence's opening words separates gene
      from variant, and the error message cannot be mistaken for a question. */
  lemma QueryDeterminesRecord(pa: Parsed, pb: Parsed)
    requires ParseShaped(pa) && ParseShaped(pb)
    requires FormatQueryForRag(pa) == FormatQueryForRag(pb)
    ensures pa == pb
  {
    var qa, qb := FormatQueryForRag(pa), FormatQueryForRag(pb);
    if pa.Ok? { QueryLongerThanError(pa); }
    if pb.Ok? { QueryLongerThanError(pb); }
    if pa.Ok? && pb.Ok? {
      assert qa == QueryPrefix + (pa.gene + " " + pa.variant) + QuerySuffix;
      assert qb == QueryPrefix + (pb.gene + " " + pb.variant) + QuerySuffix;
      StripTemplate(pa.gene + " " + pa.variant, pb.gene + " " + pb.variant);
      GeneSplitsAtFirstSpace(pa.gene, pa.variant, pb.gene, pb.variant);
    }
  }

  /** A question built from a non-empty gene and variant is longer than the error
      message, so the two can never coincide. */
  lemma QueryLongerThanError(p: Parsed)
    requires ParseShaped(p) && p.Ok?
    ensures |FormatQueryForRag(p)| > |InvalidFormat|
  {}

  /** Two inputs get the same query only when they parse to the same record. */
  lemma QueryDeterminesParse(a: string, b: string)
    requires FormatQueryForRag(ParseVariantString(a)) == FormatQueryForRag(ParseVariantString(b))
    ensures ParseVariantString(a) == ParseVariantString(b)
  {
    QueryDeterminesRecord(ParseVariantString(a), ParseVariantString(b));
  }

  /** The sentence around the variant can be cut off again. */
  lemma StripTemplate(ma: string, mb: string)
    requires QueryPrefix + ma + QuerySuffix == QueryPrefix + mb + QuerySuffix
    ensures ma == mb
  {
    var n := |QueryPrefix|;
    var qa, qb := QueryPrefix + ma + QuerySuffix, QueryPrefix + mb + QuerySuffix;
    assert ma == qa[n..n + |ma|];
    assert mb == qb[n..n + |mb|];
  }

  lemma FirstSpaceEndsGene(g: string, v: string)
    requires forall p :: 0 <= p < |g| ==> GeneChar(g[p])
    ensures (g + " " + v)[|g|] == ' '
    ensures forall p :: 0 <= p < |g| ==> (g + " " + v)[p] != ' '
  {
    forall p | 0 <= p < |g| ensures (g + " " + v)[p] != ' ' {
      assert (g + " " + v)[p] == g[p];
    }
  }

  /** A gene holds no space, so `gene + " " + variant` splits uniquely. */
  lemma GeneSplitsAtFirstSpace(g1: string, v1: string, g2: string, v2: string)
    requires forall p :: 0 <= p < |g1| ==> GeneChar(g1[p])
    requires forall p :: 0 <= p < |g2| ==> GeneChar(g2[p])
    requires g1 + " " + v1 == g2 + " " + v2
    ensures g1 == g2 && v1 == v2
  {
    var m := g1 + " " + v1;
    FirstSpaceEndsGene(g1, v1);
    FirstSpaceEndsGene(g2, v2);
    assert |g1| == |g2|;
    assert g1 == m[..|g1|] && g2 == m[..|g2|];
    assert v1 == m[|g1| + 1..] && v2 == m[|g2| + 1..];
  }
}
