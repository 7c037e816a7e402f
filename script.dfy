/**
 The analysis engine of the browser front end (script.js): its codon table,
 normalisation and validation, `analyzeDNA` and the imperative translator
 `translateRNAToProtein`.
 */
module Script {
  import opened Text
  import opened Genetics

  /** `codonTable`: three-letter residue names, "Stop" for the three stop codons; None for any other key. */
  function CodonTable(codon: string): Option<string>
  {
    if |codon| != 3 then None else
    match (codon[0], codon[1], codon[2])
    case ('U', 'U', 'U') => Some("Phe") case ('U', 'U', 'C') => Some("Phe") case ('U', 'U', 'A') => Some("Leu") case ('U', 'U', 'G') => Some("Leu")
    case ('U', 'C', 'U') => Some("Ser") case ('U', 'C', 'C') => Some("Ser") case ('U', 'C', 'A') => Some("Ser") case ('U', 'C', 'G') => Some("Ser")
    case ('U', 'A', 'U') => Some("Tyr") case ('U', 'A', 'C') => Some("Tyr") case ('U', 'A', 'A') => Some("Stop") case ('U', 'A', 'G') => Some("Stop")
    case ('U', 'G', 'U') => Some("Cys") case ('U', 'G', 'C') => Some("Cys") case ('U', 'G', 'A') => Some("Stop") case ('U', 'G', 'G') => Some("Trp")
    case ('C', 'U', 'U') => Some("Leu") case ('C', 'U', 'C') => Some("Leu") case ('C', 'U', 'A') => Some("Leu") case ('C', 'U', 'G') => Some("Leu")
    case ('C', 'C', 'U') => Some("Pro") case ('C', 'C', 'C') => Some("Pro") case ('C', 'C', 'A') => Some("Pro") case ('C', 'C', 'G') => Some("Pro")
    case ('C', 'A', 'U') => Some("His") case ('C', 'A', 'C') => Some("His") case ('C', 'A', 'A') => Some("Gln") case ('C', 'A', 'G') => Some("Gln")
    case ('C', 'G', 'U') => Some("Arg") case ('C', 'G', 'C') => Some("Arg") case ('C', 'G', 'A') => Some("Arg") case ('C', 'G', 'G') => Some("Arg")
    case ('A', 'U', 'U') => Some("Ile") case ('A', 'U', 'C') => Some("Ile") case ('A', 'U', 'A') => Some("Ile") case ('A', 'U', 'G') => Some("Met")
    case ('A', 'C', 'U') => Some("Thr") case ('A', 'C', 'C') => Some("Thr") case ('A', 'C', 'A') => Some("Thr") case ('A', 'C', 'G') => Some("Thr")
    case ('A', 'A', 'U') => Some("Asn") case ('A', 'A', 'C') => Some("Asn") case ('A', 'A', 'A') => Some("Lys") case ('A', 'A', 'G') => Some("Lys")
    case ('A', 'G', 'U') => Some("Ser") case ('A', 'G', 'C') => Some("Ser") case ('A', 'G', 'A') => Some("Arg") case ('A', 'G', 'G') => Some("Arg")
    case ('G', 'U', 'U') => Some("Val") case ('G', 'U', 'C') => Some("Val") case ('G', 'U', 'A') => Some("Val") case ('G', 'U', 'G') => Some("Val")
    case ('G', 'C', 'U') => Some("Ala") case ('G', 'C', 'C') => Some("Ala") case ('G', 'C', 'A') => Some("Ala") case ('G', 'C', 'G') => Some("Ala")
    case ('G', 'A', 'U') => Some("Asp") case ('G', 'A', 'C') => Some("Asp") case ('G', 'A', 'A') => Some("Glu") case ('G', 'A', 'G') => Some("Glu")
    case ('G', 'G', 'U') => Some("Gly") case ('G', 'G', 'C') => Some("Gly") case ('G', 'G', 'A') => Some("Gly") case ('G', 'G', 'G') => Some("Gly")
    case _ => None
  }

  /** The residue pushed for an in-frame codon that is not a stop codon: the table's entry, or "Xxx". */
  function Residue(codon: string): string
  {
    match CodonTable(codon)
    case Some(aa) => aa
    case None => "Xxx"
  }

  /**
   The characters `trim()` and `\s` match, ECMAScript's WhiteSpace and LineTerminator: tab to
   carriage return, space, no-break space, ogham space mark, the spaces U+2000 to U+200A, line
   and paragraph separator, narrow no-break space, medium mathematical space, ideographic space
   and the byte order mark.
   */
  predicate IsJsWhitespace(c: char)
  {
    || '\t' <= c <= '\r'
    || c == ' ' || c == '\U{00A0}' || c == '\U{1680}'
    || '\U{2000}' <= c <= '\U{200A}'
    || c == '\U{2028}' || c == '\U{2029}' || c == '\U{202F}' || c == '\U{205F}' || c == '\U{3000}'
    || c == '\U{FEFF}'
  }

  const JsWhitespace: set<char> := set c: char | IsJsWhitespace(c)

  /** `dnaSequence.trim().toUpperCase().replace(/\s/g, '')`. */
  function Normalize(raw: string): string
  {
    RemoveChars(Upper(Strip(raw, JsWhitespace)), JsWhitespace)
  }

  /** `/^[ATGC]+$/.test(dna)`. */
  predicate MatchesBases(dna: string)
  {
    |dna| > 0 && IsDna(dna)
  }

  /** The object `translateRNAToProtein` returns. */
  datatype Translation = Translation(
    proteinSequence: string,
    startCodonIndex: int,
    stopCodonIndex: int,
    hasStartCodon: bool,
    hasStopCodon: bool)

  /** The object `analyzeDNA` returns; the translation's five fields are grouped. */
  datatype Analysis = Analysis(
    dnaLength: nat,
    baseCounts: BaseCounts,
    basePercentages: BaseShares,
    rnaSequence: string,
    translation: Translation)

  const NoStartMessage: string := "개시코돈이 없어 아미노산 합성이 이루어지지 않습니다."
  const NoProteinMessage: string := "번역 가능한 서열이 없습니다."
  const NoStopWarning: string := "\n\n※ 종결코돈이 없어 아미노산 합성이 무한히 이어집니다."

  /** The `protein` array the translator fills: Met for the start codon, then one residue per codon read. */
  function Protein(rna: string): seq<string>
  {
    ProteinList(rna, "Met", Residue)
  }

  /** What `translateRNAToProtein` returns, stated through the scan. */
  function TranslationOf(rna: string): Translation
  {
    var sc := ScanRna(rna);
    if sc.start == -1 then Translation(NoStartMessage, -1, -1, false, false)
    else
      Translation(
        Join(Protein(rna), "-") + (if sc.stop == -1 then NoStopWarning else ""),
        sc.start, sc.stop, true, sc.stop != -1)
  }

  /** `translateRNAToProtein`: slide one character at a time to the first AUG, then read in frame. */
  method TranslateRnaToProtein(rnaSequence: string) returns (t: Translation)
    ensures t == TranslationOf(rnaSequence)
  {
    var protein: seq<string> := [];
    var startFound := false;
    var startCodonIndex := -1;
    var stopCodonIndex := -1;
    ghost var codons: seq<string> := [];

    var i := 0;
    while i < |rnaSequence| - 2
      invariant 0 <= i
      invariant stopCodonIndex == -1
      invariant !startFound ==> protein == [] && codons == [] && FindStart(rnaSequence, i) == FindStart(rnaSequence, 0)
      invariant startFound ==>
        && startCodonIndex == FindStart(rnaSequence, 0) && startCodonIndex != -1
        && i == startCodonIndex + 3 + 3 * |codons|
        && ReadOnFrom(rnaSequence, startCodonIndex + 3, codons, i)
        && protein == ["Met"] + Translate(codons, Residue)
      decreases |rnaSequence| - i
    {
      var codon := rnaSequence[i..i + 3];

      if codon == StartCodon && !startFound {
        startFound := true;
        startCodonIndex := i;
        ReadOnStart(rnaSequence, i + 3);
        protein := protein + ["Met"];
        i := i + 3;
        continue;
      }

      if startFound {
        if codon in StopCodons {
          assert ReadFrame(rnaSequence, i) == Frame([], i);
          stopCodonIndex := i;
          break;
        }
        match CodonTable(codon) {
          case Some(aa) =>
            protein := protein + [aa];
          case None =>
            protein := protein + ["Xxx"];
        }
        ReadOnStep(rnaSequence, startCodonIndex + 3, codons, i);
        TranslateAppend(codons, codon, Residue);
        codons := codons + [codon];
        i := i + 3;
      } else {
        i := i + 1;
      }
    }

    assert stopCodonIndex == -1 ==> ReadFrame(rnaSequence, i) == Frame([], -1);
    assert startFound ==> ReadFrame(rnaSequence, startCodonIndex + 3) == Frame(codons, stopCodonIndex);

    if !startFound {
      return Translation(NoStartMessage, -1, -1, false, false);
    }

    if |protein| == 0 {
      return Translation(NoProteinMessage, startCodonIndex, stopCodonIndex, true, stopCodonIndex != -1);
    }

    var hasStopCodon := stopCodonIndex != -1;
    var proteinSeq := Join(protein, "-");
    if !hasStopCodon {
      proteinSeq := proteinSeq + NoStopWarning;
    }
    t := Translation(proteinSeq, startCodonIndex, stopCodonIndex, true, hasStopCodon);
  }

  /** `analyzeDNA`: normalise, validate, count, transcribe and translate. */
  function AnalyzeDna(dnaSequence: string): (r: Result<Analysis>)
    ensures r.Failure? ==> r.error == InvalidBases
    ensures r.Success? ==>
      var a := r.value;
      && a.dnaLength == |Normalize(dnaSequence)| >= 1
      && a.baseCounts.a + a.baseCounts.t + a.baseCounts.g + a.baseCounts.c == a.dnaLength
      && a.baseCounts == BaseCounts(multiset(Normalize(dnaSequence))['A'], multiset(Normalize(dnaSequence))['T'],
                                    multiset(Normalize(dnaSequence))['G'], multiset(Normalize(dnaSequence))['C'])
      && |a.rnaSequence| == a.dnaLength && IsRna(a.rnaSequence)
      && (forall k :: 0 <= k < a.dnaLength ==>
            a.rnaSequence[k] == if Normalize(dnaSequence)[k] == 'T' then 'U' else Normalize(dnaSequence)[k])
      && a.translation == TranslationOf(a.rnaSequence)
  {
    var dna := Normalize(dnaSequence);
    if !MatchesBases(dna) then Failure(InvalidBases)
    else if |dna| == 0 then Failure(EmptySequence)
    else
      var counts := CountBases(dna);
      var rna := Transcribe(dna);
      Success(Analysis(|dna|, counts, Percentages(counts, |dna|), rna, TranslationOf(rna)))
  }

  // ---------------------------------------------------------------------------
  // The codon table

  /** The table has an entry exactly for the 64 codons over A, C, G, U. */
  lemma CodonTableDomain(codon: string)
    ensures CodonTable(codon).Some? <==> |codon| == 3 && IsRna(codon)
  {
    if |codon| == 3 && IsRna(codon) {
      assert codon[0] in RnaBases && codon[1] in RnaBases && codon[2] in RnaBases;
    }
  }

  /** "Stop" is the entry of exactly the three stop codons; no entry is "Xxx". */
  lemma CodonTableStops(codon: string)
    ensures CodonTable(codon) == Some("Stop") <==> codon in StopCodons
    ensures CodonTable(codon) != Some("Xxx")
  {
    if codon in StopCodons {
      assert codon == "UAA" || codon == "UAG" || codon == "UGA";
    }
    if CodonTable(codon) == Some("Stop") {
      assert codon == [codon[0], codon[1], codon[2]];
    }
  }

  // ---------------------------------------------------------------------------
  // Normalisation and validation

  /** Upper-casing maps whitespace to whitespace and everything else to non-whitespace. */
  lemma JsWhitespaceCaseless()
    ensures forall c :: c in JsWhitespace <==> UpperChar(c) in JsWhitespace
  {
  }

  /** Normalisation removes every whitespace character and upper-cases the rest; trimming adds nothing. */
  lemma NormalizeSpec(raw: string)
    ensures Normalize(raw) == Upper(RemoveChars(raw, JsWhitespace))
  {
    JsWhitespaceCaseless();
    UpperRemoveCommute(Strip(raw, JsWhitespace), JsWhitespace);
    StripThenRemove(raw, JsWhitespace);
  }

  lemma NormalizeIdempotent(raw: string)
    ensures Normalize(Normalize(raw)) == Normalize(raw)
  {
    var once := RemoveChars(raw, JsWhitespace);
    NormalizeSpec(raw);
    NormalizeSpec(Normalize(raw));
    JsWhitespaceCaseless();
    UpperRemoveCommute(once, JsWhitespace);
    RemoveCharsIdempotent(raw, JsWhitespace);
    UpperIdempotent(once);
  }

  /** Analysing an already normalised input gives the same result. */
  lemma AnalyzeNormalized(raw: string)
    ensures AnalyzeDna(Normalize(raw)) == AnalyzeDna(raw)
  {
    NormalizeIdempotent(raw);
  }

  /**
   An input is accepted exactly when it has a character other than whitespace and every
   such character is one of A, T, G, C in either case.
   */
  lemma AcceptedIff(raw: string)
    ensures AnalyzeDna(raw).Success? <==>
      && (exists c :: c in raw && c !in JsWhitespace)
      && (forall c :: c in raw && c !in JsWhitespace ==> c in "ATGCatgc")
  {
    NormalizeSpec(raw);
    var kept := RemoveChars(raw, JsWhitespace);
    var dna := Normalize(raw);
    if forall c :: c in raw && c !in JsWhitespace ==> c in "ATGCatgc" {
      forall k | 0 <= k < |dna| ensures dna[k] in DnaBases {
        assert kept[k] in kept;
        UpperIsBase(kept[k]);
      }
    }
    if IsDna(dna) {
      forall c | c in raw && c !in JsWhitespace ensures c in "ATGCatgc" {
        assert c in kept;
        var k :| 0 <= k < |kept| && kept[k] == c;
        assert dna[k] == UpperChar(c);
        UpperIsBase(c);
      }
    }
    if exists c :: c in raw && c !in JsWhitespace {
      var c :| c in raw && c !in JsWhitespace;
      assert c in kept;
    }
    if |dna| > 0 {
      assert kept[0] in kept;
    }
  }

  /** Empty or all-whitespace input fails the pattern test, so the "empty" error is never raised. */
  lemma BlankInputIsInvalid(raw: string)
    requires forall k :: 0 <= k < |raw| ==> raw[k] in JsWhitespace
    ensures AnalyzeDna(raw) == Failure(InvalidBases)
  {
    RemoveCharsAll(raw, JsWhitespace);
    NormalizeSpec(raw);
  }

  // ---------------------------------------------------------------------------
  // Translation

  /** The fields of a translation are those of the scan. */
  lemma TranslationIndices(rna: string)
    ensures var t, sc := TranslationOf(rna), ScanRna(rna);
      && (t.hasStartCodon <==> sc.start != -1)
      && t.startCodonIndex == sc.start
      && t.stopCodonIndex == sc.stop
      && (t.hasStopCodon <==> sc.stop != -1)
  {
    ScanSpec(rna);
  }

  /**
   The start codon is the least offset holding AUG, not only a multiple of 3; without one
   both indices are -1, both flags are false and the message says so.
   */
  lemma StartIsFirstAug(rna: string)
    ensures var t := TranslationOf(rna);
      && (t.hasStartCodon <==> exists k :: AugAt(rna, k))
      && (t.hasStartCodon ==> AugAt(rna, t.startCodonIndex) && forall k :: 0 <= k < t.startCodonIndex ==> !AugAt(rna, k))
      && (!t.hasStartCodon ==> t == Translation(NoStartMessage, -1, -1, false, false))
  {
    ScanSpec(rna);
  }

  /**
   With a start codon, the protein holds Met followed by one residue per in-frame codon read,
   each translated through the table ("Xxx" when the table has no entry).
   */
  lemma ProteinResidues(rna: string)
    ensures var sc, p := ScanRna(rna), Protein(rna);
      && (sc.start != -1 <==> p != [])
      && (sc.start != -1 ==>
            && p[0] == "Met"
            && forall k :: 1 <= k < |p| ==>
                 sc.start + 3 * k + 3 <= |rna| && p[k] == Residue(CodonAt(rna, sc.start + 3 * k)))
  {
    ProteinListSpec(rna, "Met", Residue);
  }

  /**
   The protein (Met included) has (stop - start) / 3 residues when a stop codon ends the reading,
   and one residue per complete in-frame codon from the start codon to the end otherwise.
   */
  lemma ProteinLength(rna: string)
    ensures var sc, p := ScanRna(rna), Protein(rna);
      && (sc.start != -1 && sc.stop != -1 ==> |p| == (sc.stop - sc.start) / 3)
      && (sc.start != -1 && sc.stop == -1 ==> |p| == (|rna| - sc.start) / 3)
  {
    ScanSpec(rna);
    ProteinListSpec(rna, "Met", Residue);
    var sc := ScanRna(rna);
    if sc.start != -1 && sc.stop == -1 && |sc.codons| > 0 {
      assert sc.start + 3 * (|sc.codons| - 1) + 6 <= |rna|;
    }
  }

  /** A stop codon is never translated: "Stop" is not a residue of the protein. */
  lemma NoStopResidue(rna: string)
    ensures "Stop" !in Protein(rna)
  {
    var sc := ScanRna(rna);
    var p := Protein(rna);
    ProteinListSpec(rna, "Met", Residue);
    forall k | 0 <= k < |p| ensures p[k] != "Stop" {
      if k > 0 {
        CodonTableStops(CodonAt(rna, sc.start + 3 * k));
      }
    }
  }

  /** On RNA over A, C, G, U every codon has an entry, so "Xxx" never appears. */
  lemma NoUnknownResidueOnRna(rna: string)
    requires IsRna(rna)
    ensures "Xxx" !in Protein(rna)
  {
    var start := ScanRna(rna).start;
    var p := Protein(rna);
    ProteinListSpec(rna, "Met", Residue);
    forall k | 0 <= k < |p| ensures p[k] != "Xxx" {
      if k > 0 {
        var codon := CodonAt(rna, start + 3 * k);
        CodonAtIsRna(rna, start + 3 * k);
        CodonTableDomain(codon);
        CodonTableStops(codon);
      }
    }
  }

  /** An in-frame AUG after the start codon is translated as Met. */
  lemma InFrameAugIsMet(rna: string, k: nat)
    requires ScanRna(rna).start != -1 && 1 <= k < |Protein(rna)|
    requires AugAt(rna, ScanRna(rna).start + 3 * k)
    ensures Protein(rna)[k] == "Met"
  {
    ProteinListSpec(rna, "Met", Residue);
  }

  /**
   A found start codon always yields a non-empty protein, which is why the branch for a start
   codon without residues is never taken; the text is the residues joined by "-", followed by
   the warning when no stop codon was met.
   */
  lemma ProteinText(rna: string)
    ensures var t := TranslationOf(rna);
      t.hasStartCodon ==>
        && |Protein(rna)| >= 1
        && t.proteinSequence == Join(Protein(rna), "-") + (if t.hasStopCodon then "" else NoStopWarning)
        && t.proteinSequence[..3] == "Met"
  {
    var t := TranslationOf(rna);
    if t.hasStartCodon {
      ProteinResidues(rna);
      JoinPrefix(Protein(rna), "-");
    }
  }
}
