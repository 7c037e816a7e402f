/**
 The browser front end and the Python module side by side: the same codon table under the
 three-letter to one-letter abbreviation, the same reading of an RNA sequence, the same
 analysis on inputs whose only whitespace is the space, and the inputs on which they part.
 */
module Agreement {
  import opened Text
  import opened Genetics
  import Script
  import Pcr

  /** The one-letter code of a three-letter residue name; "*" for "Stop" and "X" for "Xxx". */
  function Abbrev(name: string): string
  {
    match name
    case "Ala" => "A" case "Arg" => "R" case "Asn" => "N" case "Asp" => "D" case "Cys" => "C"
    case "Gln" => "Q" case "Glu" => "E" case "Gly" => "G" case "His" => "H" case "Ile" => "I"
    case "Leu" => "L" case "Lys" => "K" case "Met" => "M" case "Phe" => "F" case "Pro" => "P"
    case "Ser" => "S" case "Thr" => "T" case "Trp" => "W" case "Tyr" => "Y" case "Val" => "V"
    case "Stop" => "*"
    case _ => "X"
  }

  /** A table entry abbreviated, a missing entry left missing. */
  function AbbrevEntry(entry: Option<string>): Option<string>
  {
    match entry
    case Some(name) => Some(Abbrev(name))
    case None => None
  }

  /** Every residue of a protein abbreviated, in order. */
  function AbbrevAll(p: seq<string>): (r: seq<string>)
    ensures |r| == |p|
    ensures forall k :: 0 <= k < |p| ==> r[k] == Abbrev(p[k])
  {
    seq(|p|, k requires 0 <= k < |p| => Abbrev(p[k]))
  }

  /** The two tables agree entry by entry, and have the same keys. */
  lemma TablesAgree(codon: string)
    ensures Pcr.CodonTable(codon) == AbbrevEntry(Script.CodonTable(codon))
  {
  }

  /** Each residue the Python translator appends is the abbreviation of the one the browser appends. */
  lemma ResiduesAgree(codon: string)
    ensures Pcr.Residue(codon) == Abbrev(Script.Residue(codon))
  {
    TablesAgree(codon);
  }

  /** The Python protein list is the browser's, residue by residue abbreviated. */
  lemma ProteinsAgree(rna: string)
    ensures Pcr.Protein(rna) == AbbrevAll(Script.Protein(rna))
  {
    var sc := ScanRna(rna);
    if sc.start != -1 {
      var js := Translate(sc.codons, Script.Residue);
      var py := Translate(sc.codons, Pcr.Residue);
      forall k | 0 <= k < |py| ensures py[k] == Abbrev(js[k]) {
        ResiduesAgree(sc.codons[k]);
      }
      assert py == AbbrevAll(js);
      assert Script.Protein(rna) == ["Met"] + js;
      assert Pcr.Protein(rna) == ["M"] + py;
      assert AbbrevAll(["Met"] + js) == ["M"] + AbbrevAll(js);
    }
  }

  /**
   Both find a start codon on the same inputs; with one, the Python string is the browser's
   residues abbreviated and joined without a separator, and without one each returns its own message.
   */
  lemma TranslationsAgree(rna: string)
    ensures var t := Script.TranslationOf(rna);
      && (t.hasStartCodon ==> Pcr.ProteinOf(rna) == Join(AbbrevAll(Script.Protein(rna)), ""))
      && (!t.hasStartCodon ==> Pcr.ProteinOf(rna) == Pcr.NoStartMessage && t.proteinSequence == Script.NoStartMessage)
  {
    Script.TranslationIndices(rna);
    ProteinsAgree(rna);
  }

  /** No character of the input other than the space is whitespace to either implementation. */
  predicate SpaceOnlyWhitespace(raw: string)
  {
    forall k :: 0 <= k < |raw| && raw[k] != ' ' ==> raw[k] !in Script.JsWhitespace && raw[k] !in Pcr.PyWhitespace
  }

  /** When the only whitespace in the input is the space, both normalisations give the same string. */
  lemma NormalizeAgree(raw: string)
    requires SpaceOnlyWhitespace(raw)
    ensures Script.Normalize(raw) == Pcr.Normalize(raw)
  {
    forall k | 0 <= k < |raw| ensures raw[k] in Script.JsWhitespace <==> raw[k] in Pcr.PyWhitespace {
      if raw[k] == ' ' {
        assert Script.IsJsWhitespace(' ') && Pcr.IsPyWhitespace(' ');
      }
    }
    StripSame(raw, Script.JsWhitespace, Pcr.PyWhitespace);
    var s := Strip(raw, Pcr.PyWhitespace);
    var a := LeadingCount(raw, Pcr.PyWhitespace);
    var u := Upper(s);
    forall k | 0 <= k < |u| ensures u[k] in Script.JsWhitespace <==> u[k] in {' '} {
      var c := raw[a + k];
      assert s[k] == c;
      Script.JsWhitespaceCaseless();
      if c == ' ' {
        assert Script.IsJsWhitespace(' ');
      }
    }
    RemoveCharsSame(u, Script.JsWhitespace, {' '});
  }

  /**
   When the only whitespace in the input is the space, both accept the same inputs and agree on the
   length, the counts, the shares and the RNA; the Python protein string is the browser's residues
   abbreviated and joined, or the Python message when there is no start codon. On rejection the
   browser always reports invalid bases, Python reports the empty sequence exactly when nothing is left.
   */
  lemma AnalysesAgree(raw: string)
    requires SpaceOnlyWhitespace(raw)
    ensures Script.AnalyzeDna(raw).Success? <==> Pcr.AnalyzeDna(raw).Success?
    ensures Script.AnalyzeDna(raw).Success? ==>
      var js, py := Script.AnalyzeDna(raw).value, Pcr.AnalyzeDna(raw).value;
      && py.dnaLength == js.dnaLength
      && py.baseCounts == js.baseCounts
      && py.basePercentages == js.basePercentages
      && py.rnaSequence == js.rnaSequence
      && py.proteinSequence == (if js.translation.hasStartCodon then Join(AbbrevAll(Script.Protein(js.rnaSequence)), "") else Pcr.NoStartMessage)
    ensures Script.AnalyzeDna(raw).Failure? ==>
      && Script.AnalyzeDna(raw).error == InvalidBases
      && (Pcr.AnalyzeDna(raw).error == EmptySequence <==> Pcr.Normalize(raw) == [])
  {
    NormalizeAgree(raw);
    var dna := Pcr.Normalize(raw);
    if Script.AnalyzeDna(raw).Success? {
      TranslationsAgree(Transcribe(dna));
    }
  }

  /**
   On an input of nothing but characters both treat as whitespace (the empty input among them) the
   browser reports invalid bases and Python reports an empty sequence.
   */
  lemma BlankInputsDiffer(raw: string)
    requires forall k :: 0 <= k < |raw| ==> raw[k] in Script.JsWhitespace && raw[k] in Pcr.PyWhitespace
    ensures Script.AnalyzeDna(raw) == Failure(InvalidBases)
    ensures Pcr.AnalyzeDna(raw) == Failure(EmptySequence)
  {
    Script.BlankInputIsInvalid(raw);
    Pcr.EmptyIff(raw);
  }

  /** A base is a letter and whitespace to neither version. */
  lemma BaseIsPlain(b: char)
    requires b in DnaBases
    ensures b in "ATGCatgc" && b !in Script.JsWhitespace && b !in Pcr.PyWhitespace
  {
  }

  /** Whitespace to either version is not a letter of a base. */
  lemma WhitespaceIsNotLetter(c: char)
    requires c in Script.JsWhitespace || c in Pcr.PyWhitespace
    ensures c !in "ATGCatgc"
  {
  }

  /** Every character of `[c] + dna` after the first is a base. */
  lemma TailIsBases(c: char, dna: string, x: char)
    requires IsDna(dna) && x in [c] + dna && x != c
    ensures x in DnaBases
  {
    var raw := [c] + dna;
    var k :| 0 <= k < |raw| && raw[k] == x;
    assert x == dna[k - 1];
  }

  /** Python keeps a leading character it does not count as whitespace, and rejects it if it is not a base. */
  lemma LeadingNonBaseRejected(c: char, dna: string)
    requires c !in Pcr.PyWhitespace && c !in "ATGCatgc" && dna != [] && IsDna(dna)
    ensures !IsDna(Pcr.Normalize([c] + dna))
  {
    var raw := [c] + dna;
    assert raw[|raw| - 1] == dna[|dna| - 1];
    BaseIsPlain(dna[|dna| - 1]);
    StripNone(raw, Pcr.PyWhitespace);
    assert ' ' in Pcr.PyWhitespace by { assert Pcr.IsPyWhitespace(' '); }
    assert raw[0] == c;
    Pcr.NormalizedNonBase(raw, c);
  }

  /**
   A character the browser treats as whitespace and Python does not (the byte order mark),
   in front of a DNA sequence: the browser trims it and accepts, Python keeps it and rejects.
   */
  lemma BrowserOnlyWhitespaceDiffers(c: char, dna: string)
    requires c in Script.JsWhitespace && c !in Pcr.PyWhitespace
    requires dna != [] && IsDna(dna)
    ensures Script.AnalyzeDna([c] + dna).Success?
    ensures Pcr.AnalyzeDna([c] + dna) == Failure(InvalidBases)
  {
    var raw := [c] + dna;
    WhitespaceIsNotLetter(c);
    assert Script.AnalyzeDna(raw).Success? by {
      assert raw[1] == dna[0];
      BaseIsPlain(dna[0]);
      forall x | x in raw && x !in Script.JsWhitespace ensures x in "ATGCatgc" {
        TailIsBases(c, dna, x);
        BaseIsPlain(x);
      }
      Script.AcceptedIff(raw);
    }
    LeadingNonBaseRejected(c, dna);
  }

  /** Python strips the one trailing whitespace character of `dna + [c]` and keeps `dna` whole. */
  lemma StripTrailing(dna: string, c: char)
    requires c in Pcr.PyWhitespace && dna != [] && IsDna(dna)
    ensures Strip(dna + [c], Pcr.PyWhitespace) == dna
  {
    var raw := dna + [c];
    var s := Strip(raw, Pcr.PyWhitespace);
    var a := LeadingCount(raw, Pcr.PyWhitespace);
    assert raw[0] == dna[0];
    BaseIsPlain(dna[0]);
    assert a == 0;
    assert raw[|dna| - 1] == dna[|dna| - 1];
    BaseIsPlain(dna[|dna| - 1]);
    assert s == raw[..|dna|] == dna;
  }

  /**
   A character Python treats as whitespace and the browser does not (U+001C to U+001F, U+0085),
   after a DNA sequence: Python strips it and accepts, the browser keeps it and rejects.
   */
  lemma PythonOnlyWhitespaceDiffers(dna: string, c: char)
    requires c in Pcr.PyWhitespace && c !in Script.JsWhitespace
    requires dna != [] && IsDna(dna)
    ensures Pcr.AnalyzeDna(dna + [c]).Success?
    ensures Script.AnalyzeDna(dna + [c]) == Failure(InvalidBases)
  {
    var raw := dna + [c];
    assert !Script.AnalyzeDna(raw).Success? by {
      WhitespaceIsNotLetter(c);
      assert raw[|dna|] == c;
      Script.AcceptedIff(raw);
    }
    assert Pcr.AnalyzeDna(raw).Success? by {
      StripTrailing(dna, c);
      forall x | x in dna && x != ' ' ensures x in "ATGCatgc" {
        BaseIsPlain(x);
      }
      Pcr.AcceptedIff(raw);
    }
  }

  /**
   The two trimming classes differ in exactly these characters: the byte order mark is trimmed
   only by the browser, the information separators U+001C to U+001F and the next-line control
   U+0085 only by Python.
   */
  lemma TrimClassesDiffer(c: char)
    ensures c in Script.JsWhitespace && c !in Pcr.PyWhitespace <==> c == '\U{FEFF}'
    ensures c in Pcr.PyWhitespace && c !in Script.JsWhitespace <==>
      '\U{001C}' <= c <= '\U{001F}' || c == '\U{0085}'
  {
  }

  /** "\U{FEFF}ATG" is a valid sequence to the browser and invalid to Python. */
  lemma ByteOrderMarkInput()
    ensures Script.AnalyzeDna("\U{FEFF}ATG").Success?
    ensures Pcr.AnalyzeDna("\U{FEFF}ATG") == Failure(InvalidBases)
  {
    TrimClassesDiffer('\U{FEFF}');
    assert "\U{FEFF}ATG" == ['\U{FEFF}'] + "ATG";
    BrowserOnlyWhitespaceDiffers('\U{FEFF}', "ATG");
  }

  /** "ATG\U{001C}" is a valid sequence to Python and invalid to the browser. */
  lemma SeparatorInput()
    ensures Pcr.AnalyzeDna("ATG\U{001C}").Success?
    ensures Script.AnalyzeDna("ATG\U{001C}") == Failure(InvalidBases)
  {
    TrimClassesDiffer('\U{001C}');
    assert "ATG\U{001C}" == "ATG" + ['\U{001C}'];
    PythonOnlyWhitespaceDiffers("ATG", '\U{001C}');
  }
}
