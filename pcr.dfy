/**
 The command-line implementation (pcr.py): its codon table of one-letter codes,
 `analyze_dna` with its own normalisation and validation order, and the
 imperative translator `translate_rna_to_protein`.
 */
module Pcr {
  import opened Text
  import opened Genetics

  /** `codon_table`: one-letter residue codes, "*" for the three stop codons; None for any other key. */
  function CodonTable(codon: string): Option<string>
  {
    if |codon| != 3 then None else
    match (codon[0], codon[1], codon[2])
    case ('U', 'U', 'U') => Some("F") case ('U', 'U', 'C') => Some("F") case ('U', 'U', 'A') => Some("L") case ('U', 'U', 'G') => Some("L")
    case ('U', 'C', 'U') => Some("S") case ('U', 'C', 'C') => Some("S") case ('U', 'C', 'A') => Some("S") case ('U', 'C', 'G') => Some("S")
    case ('U', 'A', 'U') => Some("Y") case ('U', 'A', 'C') => Some("Y") case ('U', 'A', 'A') => Some("*") case ('U', 'A', 'G') => Some("*")
    case ('U', 'G', 'U') => Some("C") case ('U', 'G', 'C') => Some("C") case ('U', 'G', 'A') => Some("*") case ('U', 'G', 'G') => Some("W")
    case ('C', 'U', 'U') => Some("L") case ('C', 'U', 'C') => Some("L") case ('C', 'U', 'A') => Some("L") case ('C', 'U', 'G') => Some("L")
    case ('C', 'C', 'U') => Some("P") case ('C', 'C', 'C') => Some("P") case ('C', 'C', 'A') => Some("P") case ('C', 'C', 'G') => Some("P")
    case ('C', 'A', 'U') => Some("H") case ('C', 'A', 'C') => Some("H") case ('C', 'A', 'A') => Some("Q") case ('C', 'A', 'G') => Some("Q")
    case ('C', 'G', 'U') => Some("R") case ('C', 'G', 'C') => Some("R") case ('C', 'G', 'A') => Some("R") case ('C', 'G', 'G') => Some("R")
    case ('A', 'U', 'U') => Some("I") case ('A', 'U', 'C') => Some("I") case ('A', 'U', 'A') => Some("I") case ('A', 'U', 'G') => Some("M")
    case ('A', 'C', 'U') => Some("T") case ('A', 'C', 'C') => Some("T") case ('A', 'C', 'A') => Some("T") case ('A', 'C', 'G') => Some("T")
    case ('A', 'A', 'U') => Some("N") case ('A', 'A', 'C') => Some("N") case ('A', 'A', 'A') => Some("K") case ('A', 'A', 'G') => Some("K")
    case ('A', 'G', 'U') => Some("S") case ('A', 'G', 'C') => Some("S") case ('A', 'G', 'A') => Some("R") case ('A', 'G', 'G') => Some("R")
    case ('G', 'U', 'U') => Some("V") case ('G', 'U', 'C') => Some("V") case ('G', 'U', 'A') => Some("V") case ('G', 'U', 'G') => Some("V")
    case ('G', 'C', 'U') => Some("A") case ('G', 'C', 'C') => Some("A") case ('G', 'C', 'A') => Some("A") case ('G', 'C', 'G') => Some("A")
    case ('G', 'A', 'U') => Some("D") case ('G', 'A', 'C') => Some("D") case ('G', 'A', 'A') => Some("E") case ('G', 'A', 'G') => Some("E")
    case ('G', 'G', 'U') => Some("G") case ('G', 'G', 'C') => Some("G") case ('G', 'G', 'A') => Some("G") case ('G', 'G', 'G') => Some("G")
    case _ => None
  }

  /** The residue appended for an in-frame codon that is not a stop codon: the table's entry, or "X". */
  function Residue(codon: string): string
  {
    match CodonTable(codon)
    case Some(aa) => aa
    case None => "X"
  }

  /**
   The characters for which `str.isspace()` holds, those `strip()` removes: tab to carriage
   return, the four information separators and the space, NEL, no-break space, ogham space mark,
   the spaces U+2000 to U+200A, line and paragraph separator, narrow no-break space, medium
   mathematical space and ideographic space.
   */
  predicate IsPyWhitespace(c: char)
  {
    || '\t' <= c <= '\r'
    || '\U{001C}' <= c <= ' '
    || c == '\U{0085}' || c == '\U{00A0}' || c == '\U{1680}'
    || '\U{2000}' <= c <= '\U{200A}'
    || c == '\U{2028}' || c == '\U{2029}' || c == '\U{202F}' || c == '\U{205F}' || c == '\U{3000}'
  }

  const PyWhitespace: set<char> := set c: char | IsPyWhitespace(c)

  /** `dna_sequence.strip().upper().replace(' ', '')`: only spaces are removed inside the sequence. */
  function Normalize(raw: string): string
  {
    RemoveChars(Upper(Strip(raw, PyWhitespace)), {' '})
  }

  /** The dictionary `analyze_dna` returns. */
  datatype Analysis = Analysis(
    dnaLength: nat,
    baseCounts: BaseCounts,
    basePercentages: BaseShares,
    rnaSequence: string,
    proteinSequence: string)

  const NoStartMessage: string := "개시코돈(AUG)을 찾을 수 없습니다."
  const NoProteinMessage: string := "번역 가능한 서열이 없습니다."

  /** The `protein` list the translator fills: M for the start codon, then one code per codon read. */
  function Protein(rna: string): seq<string>
  {
    ProteinList(rna, "M", Residue)
  }

  /** What `translate_rna_to_protein` returns, stated through the scan. */
  function ProteinOf(rna: string): string
  {
    if ScanRna(rna).start == -1 then NoStartMessage else Join(Protein(rna), "")
  }

  /** `translate_rna_to_protein`: slide one character at a time to the first AUG, then read in frame. */
  method TranslateRnaToProtein(rnaSequence: string) returns (r: string)
    ensures r == ProteinOf(rnaSequence)
  {
    var protein: seq<string> := [];
    var startFound := false;
    ghost var start := -1;
    ghost var stop := -1;
    ghost var codons: seq<string> := [];

    var i := 0;
    while i < |rnaSequence| - 2
      invariant 0 <= i
      invariant stop == -1
      invariant !startFound ==> protein == [] && codons == [] && FindStart(rnaSequence, i) == FindStart(rnaSequence, 0)
      invariant startFound ==>
        && start == FindStart(rnaSequence, 0) && start != -1
        && i == start + 3 + 3 * |codons|
        && ReadOnFrom(rnaSequence, start + 3, codons, i)
        && protein == ["M"] + Translate(codons, Residue)
      decreases |rnaSequence| - i
    {
      var codon := rnaSequence[i..i + 3];

      if codon == StartCodon && !startFound {
        startFound := true;
        start := i;
        ReadOnStart(rnaSequence, i + 3);
        protein := protein + ["M"];
        i := i + 3;
        continue;
      }

      if startFound {
        if codon in StopCodons {
          assert ReadFrame(rnaSequence, i) == Frame([], i);
          stop := i;
          break;
        }
        match CodonTable(codon) {
          case Some(aminoAcid) =>
            protein := protein + [aminoAcid];
          case None =>
            protein := protein + ["X"];
        }
        assert protein == ["M"] + Translate(codons, Residue) + [Residue(codon)];
        ReadOnStep(rnaSequence, start + 3, codons, i);
        TranslateAppend(codons, codon, Residue);
        codons := codons + [codon];
        i := i + 3;
      } else {
        i := i + 1;
      }
    }

    assert stop == -1 ==> ReadFrame(rnaSequence, i) == Frame([], -1);
    assert startFound ==> ReadFrame(rnaSequence, start + 3) == Frame(codons, stop);

    if !startFound {
      assert ScanRna(rnaSequence).start == -1;
      return NoStartMessage;
    }

    assert ScanRna(rnaSequence) == Scan(start, codons, stop);
    assert protein == Protein(rnaSequence);
    if |protein| == 0 {
      return NoProteinMessage;
    }

    r := Join(protein, "");
  }

  /** `analyze_dna`: normalise, check the bases, then the length, count, transcribe and translate. */
  function AnalyzeDna(dnaSequence: string): (r: Result<Analysis>)
    ensures r.Failure? ==> (r.error == EmptySequence <==> Normalize(dnaSequence) == [])
    ensures r.Success? ==>
      var a := r.value;
      && a.dnaLength == |Normalize(dnaSequence)| >= 1
      && a.baseCounts.a + a.baseCounts.t + a.baseCounts.g + a.baseCounts.c == a.dnaLength
      && a.baseCounts == BaseCounts(multiset(Normalize(dnaSequence))['A'], multiset(Normalize(dnaSequence))['T'],
                                    multiset(Normalize(dnaSequence))['G'], multiset(Normalize(dnaSequence))['C'])
      && |a.rnaSequence| == a.dnaLength && IsRna(a.rnaSequence)
      && (forall k :: 0 <= k < a.dnaLength ==>
            a.rnaSequence[k] == if Normalize(dnaSequence)[k] == 'T' then 'U' else Normalize(dnaSequence)[k])
      && a.proteinSequence == ProteinOf(a.rnaSequence)
  {
    var dna := Normalize(dnaSequence);
    if !IsDna(dna) then Failure(InvalidBases)
    else if |dna| == 0 then Failure(EmptySequence)
    else
      var counts := CountBases(dna);
      var rna := Transcribe(dna);
      Success(Analysis(|dna|, counts, Percentages(counts, |dna|), rna, ProteinOf(rna)))
  }

  // ---------------------------------------------------------------------------
  // The codon table

  /** The table has an entry exactly for the 64 codons over A, C, G, U. */
  lemma CodonTableDomain(codon: string)
    ensures CodonTable(codon).Some? <==> |codon| == 3 && IsRna(codon)
  {
    if |codon| == 3 && IsRna(codon) {
      assert codon[0] in RnaBases && codon[1] in RnaBases && codon[2] in RnaBases;
    }
  }

  /** "*" is the entry of exactly the three stop codons; no entry is "X". */
  lemma CodonTableStops(codon: string)
    ensures CodonTable(codon) == Some("*") <==> codon in StopCodons
    ensures CodonTable(codon) != Some("X")
  {
    if codon in StopCodons {
      assert codon == "UAA" || codon == "UAG" || codon == "UGA";
    }
    if CodonTable(codon) == Some("*") {
      assert codon == [codon[0], codon[1], codon[2]];
    }
  }

  /** Every entry of the table is a single letter. */
  lemma ResidueIsLetter(codon: string)
    ensures |Residue(codon)| == 1
  {
  }

  // ---------------------------------------------------------------------------
  // Normalisation and validation

  /** Upper-casing maps whitespace to whitespace and everything else to non-whitespace. */
  lemma PyWhitespaceCaseless()
    ensures forall c :: c in PyWhitespace <==> UpperChar(c) in PyWhitespace
  {
  }

  /** No whitespace character is a base. */
  lemma WhitespaceNotBase(c: char)
    requires c in PyWhitespace
    ensures c !in DnaBases
  {
  }

  /** A character that is not whitespace stays so, and is not a space, after upper-casing. */
  lemma UpperOutsideWhitespace(c: char)
    requires c !in PyWhitespace
    ensures UpperChar(c) !in PyWhitespace && UpperChar(c) != ' '
  {
  }

  /** A non-whitespace character at position k lies inside the trimmed part. */
  lemma StripKeeps(raw: string, k: nat)
    requires k < |raw| && raw[k] !in PyWhitespace
    ensures var a, s := LeadingCount(raw, PyWhitespace), Strip(raw, PyWhitespace);
      a <= k < a + |s| && s[k - a] == raw[k]
  {
  }

  /** The result of normalisation begins and ends with a character that is not whitespace. */
  lemma NormalizeEnds(raw: string)
    ensures var dna := Normalize(raw);
      dna == [] || (dna[0] !in PyWhitespace && dna[|dna| - 1] !in PyWhitespace)
  {
    var s := Strip(raw, PyWhitespace);
    var u := Upper(s);
    if u != [] {
      UpperOutsideWhitespace(s[0]);
      UpperOutsideWhitespace(s[|s| - 1]);
      assert u[0] == UpperChar(s[0]) && u[|u| - 1] == UpperChar(s[|s| - 1]);
      assert RemoveChars(u, {' '}) == [u[0]] + RemoveChars(u[1..], {' '});
      RemoveCharsLast(u, {' '});
    }
  }

  lemma NormalizeIdempotent(raw: string)
    ensures Normalize(Normalize(raw)) == Normalize(raw)
  {
    var s := Strip(raw, PyWhitespace);
    var dna := Normalize(raw);
    NormalizeEnds(raw);
    StripNone(dna, PyWhitespace);
    UpperRemoveCommute(s, {' '});
    UpperIdempotent(RemoveChars(s, {' '}));
    RemoveCharsIdempotent(Upper(s), {' '});
  }

  /** Analysing an already normalised input gives the same result. */
  lemma AnalyzeNormalized(raw: string)
    ensures AnalyzeDna(Normalize(raw)) == AnalyzeDna(raw)
  {
    NormalizeIdempotent(raw);
  }

  /** A character that is not whitespace keeps normalisation from producing the empty string. */
  lemma NormalizeNonEmpty(raw: string, k: nat)
    requires k < |raw| && raw[k] !in PyWhitespace
    ensures Normalize(raw) != []
  {
    var s := Strip(raw, PyWhitespace);
    StripKeeps(raw, k);
    var u := Upper(s);
    UpperOutsideWhitespace(s[0]);
    assert u[0] == UpperChar(s[0]);
    assert RemoveChars(u, {' '}) == [u[0]] + RemoveChars(u[1..], {' '});
  }

  /**
   The "empty" error is raised exactly for inputs made only of whitespace (the empty
   string among them): the base check passes vacuously on the empty string.
   */
  lemma EmptyIff(raw: string)
    ensures AnalyzeDna(raw) == Failure(EmptySequence) <==> forall k :: 0 <= k < |raw| ==> raw[k] in PyWhitespace
  {
    if forall k :: 0 <= k < |raw| ==> raw[k] in PyWhitespace {
      assert LeadingCount(raw, PyWhitespace) == |raw|;
    } else {
      var k :| 0 <= k < |raw| && raw[k] !in PyWhitespace;
      NormalizeNonEmpty(raw, k);
    }
  }

  /** A trimmed part of spaces and bases normalises to DNA. */
  lemma NormalizedBases(raw: string)
    requires forall c :: c in Strip(raw, PyWhitespace) && c != ' ' ==> c in "ATGCatgc"
    ensures IsDna(Normalize(raw))
  {
    var s := Strip(raw, PyWhitespace);
    var kept := RemoveChars(s, {' '});
    UpperRemoveCommute(s, {' '});
    var dna := Upper(kept);
    forall k | 0 <= k < |dna| ensures dna[k] in DnaBases {
      assert kept[k] in kept;
      UpperIsBase(kept[k]);
    }
  }

  /** A character of the trimmed part that is neither a space nor a base keeps the input from being DNA. */
  lemma NormalizedNonBase(raw: string, c: char)
    requires c in Strip(raw, PyWhitespace) && c != ' ' && c !in "ATGCatgc"
    ensures !IsDna(Normalize(raw))
  {
    var s := Strip(raw, PyWhitespace);
    var kept := RemoveChars(s, {' '});
    var dna := Normalize(raw);
    assert dna == Upper(kept) by { UpperRemoveCommute(s, {' '}); }
    assert c in kept by { RemoveCharsKeeps(s, {' '}, c); }
    var k :| 0 <= k < |kept| && kept[k] == c;
    assert dna[k] == UpperChar(c);
    assert UpperChar(c) !in DnaBases by { UpperIsBase(c); }
  }

  /** The normalised input is DNA exactly when the trimmed part has nothing but spaces and bases. */
  lemma NormalizeIsDnaIff(raw: string)
    ensures var s := Strip(raw, PyWhitespace);
      IsDna(Normalize(raw)) <==> forall c :: c in s && c != ' ' ==> c in "ATGCatgc"
  {
    var s := Strip(raw, PyWhitespace);
    if c :| c in s && c != ' ' && c !in "ATGCatgc" {
      NormalizedNonBase(raw, c);
    } else {
      NormalizedBases(raw);
    }
  }

  /**
   An input is accepted exactly when its trimmed part is not empty and holds nothing but
   spaces and A, T, G, C in either case.
   */
  lemma AcceptedIff(raw: string)
    ensures var s := Strip(raw, PyWhitespace);
      AnalyzeDna(raw).Success? <==>
        && s != []
        && forall c :: c in s && c != ' ' ==> c in "ATGCatgc"
  {
    var s := Strip(raw, PyWhitespace);
    NormalizeIsDnaIff(raw);
    if s != [] {
      var a := LeadingCount(raw, PyWhitespace);
      assert raw[a] == s[0];
      NormalizeNonEmpty(raw, a);
    }
  }

  /** A whitespace character other than a space between two non-whitespace characters is kept. */
  lemma InnerWhitespaceKept(raw: string, i: nat, j: nat, k: nat)
    requires i < j < k < |raw|
    requires raw[i] !in PyWhitespace && raw[k] !in PyWhitespace
    requires raw[j] in PyWhitespace && raw[j] != ' '
    ensures raw[j] in Normalize(raw)
  {
    var s := Strip(raw, PyWhitespace);
    var a := LeadingCount(raw, PyWhitespace);
    StripKeeps(raw, i);
    StripKeeps(raw, k);
    var c := raw[j];
    assert s[j - a] == c;
    var u := Upper(s);
    assert u[j - a] == UpperChar(c);
    assert UpperChar(c) == c;
    assert c in u;
  }

  /**
   A whitespace character other than a space between two non-whitespace characters survives
   normalisation and is rejected: a tab or a line break inside the sequence makes it invalid.
   */
  lemma InnerWhitespaceRejected(raw: string, i: nat, j: nat, k: nat)
    requires i < j < k < |raw|
    requires raw[i] !in PyWhitespace && raw[k] !in PyWhitespace
    requires raw[j] in PyWhitespace && raw[j] != ' '
    ensures AnalyzeDna(raw) == Failure(InvalidBases)
  {
    var dna := Normalize(raw);
    InnerWhitespaceKept(raw, i, j, k);
    var m :| 0 <= m < |dna| && dna[m] == raw[j];
    WhitespaceNotBase(dna[m]);
  }

  // ---------------------------------------------------------------------------
  // Translation

  /**
   Without an AUG at any offset the message is returned; otherwise the protein is M followed
   by one code per in-frame codon read after the first AUG, up to the first in-frame stop codon.
   */
  lemma ProteinShape(rna: string)
    ensures var sc, p := ScanRna(rna), Protein(rna);
      && (sc.start == -1 <==> forall k :: !AugAt(rna, k))
      && (sc.start == -1 ==> ProteinOf(rna) == NoStartMessage)
      && (sc.start != -1 ==>
            && AugAt(rna, sc.start) && (forall k :: 0 <= k < sc.start ==> !AugAt(rna, k))
            && |p| >= 1 && p[0] == "M"
            && (forall k :: 1 <= k < |p| ==>
                  && sc.start + 3 * k + 3 <= |rna|
                  && p[k] == Residue(CodonAt(rna, sc.start + 3 * k))
                  && CodonAt(rna, sc.start + 3 * k) !in StopCodons)
            && (sc.stop != -1 ==> sc.stop == sc.start + 3 * |p| && sc.stop + 3 <= |rna| && CodonAt(rna, sc.stop) in StopCodons)
            && (sc.stop == -1 ==> sc.start + 3 * |p| + 3 > |rna|))
  {
    ScanSpec(rna);
    ProteinListSpec(rna, "M", Residue);
  }

  /** With a start codon the returned string has one letter per entry of the protein, M first. */
  lemma ProteinString(rna: string)
    requires ScanRna(rna).start != -1
    ensures var p := Protein(rna);
      && |ProteinOf(rna)| == |p| >= 1
      && ProteinOf(rna)[0] == 'M'
      && forall k :: 0 <= k < |p| ==> [ProteinOf(rna)[k]] == p[k]
  {
    var p := Protein(rna);
    ProteinListSpec(rna, "M", Residue);
    forall k | 0 <= k < |p| ensures |p[k]| == 1 {
      if k > 0 {
        ResidueIsLetter(CodonAt(rna, ScanRna(rna).start + 3 * k));
      }
    }
    JoinLetters(p);
    forall k | 0 <= k < |p| ensures [ProteinOf(rna)[k]] == p[k] {
      assert p[k] == [p[k][0]];
    }
  }

  /** A stop codon is never translated: "*" is not a code of the protein. */
  lemma NoStopCode(rna: string)
    ensures "*" !in Protein(rna)
  {
    var sc := ScanRna(rna);
    var p := Protein(rna);
    ProteinListSpec(rna, "M", Residue);
    forall k | 0 <= k < |p| ensures p[k] != "*" {
      if k > 0 {
        CodonTableStops(CodonAt(rna, sc.start + 3 * k));
      }
    }
  }

  /** On RNA over A, C, G, U every codon has an entry, so "X" is not a code of the protein. */
  lemma NoUnknownCodeOnRna(rna: string)
    requires IsRna(rna)
    ensures "X" !in Protein(rna)
  {
    var start := ScanRna(rna).start;
    var p := Protein(rna);
    ProteinListSpec(rna, "M", Residue);
    forall k | 0 <= k < |p| ensures p[k] != "X" {
      if k > 0 {
        var codon := CodonAt(rna, start + 3 * k);
        CodonAtIsRna(rna, start + 3 * k);
        CodonTableDomain(codon);
        CodonTableStops(codon);
      }
    }
  }

  /** "*" does not occur in the returned string, the message for a missing start codon included. */
  lemma NoStopLetter(rna: string)
    ensures '*' !in ProteinOf(rna)
  {
    if ScanRna(rna).start == -1 {
      assert '*' !in NoStartMessage;
    } else {
      var s, p := ProteinOf(rna), Protein(rna);
      NoStopCode(rna);
      ProteinString(rna);
      forall k | 0 <= k < |s| ensures s[k] != '*' {
        assert [s[k]] == p[k] && p[k] in p;
      }
    }
  }

  /** On RNA over A, C, G, U, "X" does not occur in the returned string, the message included. */
  lemma NoUnknownLetterOnRna(rna: string)
    requires IsRna(rna)
    ensures 'X' !in ProteinOf(rna)
  {
    if ScanRna(rna).start == -1 {
      assert 'X' !in NoStartMessage;
    } else {
      var s, p := ProteinOf(rna), Protein(rna);
      NoUnknownCodeOnRna(rna);
      ProteinString(rna);
      forall k | 0 <= k < |s| ensures s[k] != 'X' {
        assert [s[k]] == p[k] && p[k] in p;
      }
    }
  }
}
