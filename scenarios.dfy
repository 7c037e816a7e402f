/** Worked examples of both translators on short RNA strings. */
module Scenarios {
  import opened Text
  import opened Genetics
  import Script
  import Pcr

  /** The scan of "AUGUUUUAA": the AUG at 0, one codon read, the stop codon at 6. */
  lemma ScanStartAndStop()
    ensures ScanRna("AUGUUUUAA") == Scan(0, ["UUU"], 6)
  {
    var rna := "AUGUUUUAA";
    assert rna[0..3] == StartCodon;
    assert rna[6..9] == "UAA";
    assert ReadFrame(rna, 6) == Frame([], 6);
    assert rna[3..6] == "UUU" && "UUU" !in StopCodons;
    assert ReadFrame(rna, 3) == Frame(["UUU"], 6);
  }

  /** "AUGUUUUAA" reads as "Met-Phe" in the browser and "MF" in Python. */
  lemma StartAndStop()
    ensures Script.TranslationOf("AUGUUUUAA") == Script.Translation("Met-Phe", 0, 6, true, true)
    ensures Pcr.ProteinOf("AUGUUUUAA") == "MF"
  {
    var rna := "AUGUUUUAA";
    ScanStartAndStop();
    assert Translate(["UUU"], Script.Residue) == ["Phe"];
    assert Translate(["UUU"], Pcr.Residue) == ["F"];
    assert Script.Protein(rna) == ["Met", "Phe"];
    assert Pcr.Protein(rna) == ["M", "F"];
  }

  /** Without an AUG at any offset both report the missing start codon. */
  lemma NoStart()
    ensures Script.TranslationOf("GGGCCC") == Script.Translation(Script.NoStartMessage, -1, -1, false, false)
    ensures Pcr.ProteinOf("GGGCCC") == Pcr.NoStartMessage
  {
    var rna := "GGGCCC";
    assert rna[0..3] == "GGG" && rna[1..4] == "GGC" && rna[2..5] == "GCC" && rna[3..6] == "CCC";
    assert FindStart(rna, 0) == -1;
  }

  /** A reading that runs off the end: "Met-Lys" with the warning in the browser, "MK" in Python. */
  lemma NoStop()
    ensures Script.TranslationOf("AUGAAA") == Script.Translation("Met-Lys" + Script.NoStopWarning, 0, -1, true, false)
    ensures Pcr.ProteinOf("AUGAAA") == "MK"
  {
    var rna := "AUGAAA";
    assert rna[0..3] == StartCodon;
    assert rna[3..6] == "AAA" && "AAA" !in StopCodons;
    assert ReadFrame(rna, 6) == Frame([], -1);
    assert ReadFrame(rna, 3) == Frame(["AAA"], -1);
    assert ScanRna(rna) == Scan(0, ["AAA"], -1);
    assert Translate(["AAA"], Script.Residue) == ["Lys"];
    assert Translate(["AAA"], Pcr.Residue) == ["K"];
    assert Script.Protein(rna) == ["Met", "Lys"];
    assert Pcr.Protein(rna) == ["M", "K"];
  }

  /**
   The start codon is found at offset 1, outside the frame of the origin, and the stop codon
   right after it leaves Met alone.
   */
  lemma UnframedStart()
    ensures Script.TranslationOf("GAUGUAA") == Script.Translation("Met", 1, 4, true, true)
    ensures Pcr.ProteinOf("GAUGUAA") == "M"
  {
    var rna := "GAUGUAA";
    assert rna[0..3] == "GAU" && rna[1..4] == StartCodon;
    assert rna[4..7] == "UAA";
    assert ReadFrame(rna, 4) == Frame([], 4);
    assert ScanRna(rna) == Scan(1, [], 4);
    assert Script.Protein(rna) == ["Met"];
    assert Pcr.Protein(rna) == ["M"];
  }

  /** A codon outside the table reads as "Xxx" in the browser and "X" in Python. */
  lemma UnknownCodon()
    ensures Script.TranslationOf("AUGNNN") == Script.Translation("Met-Xxx" + Script.NoStopWarning, 0, -1, true, false)
    ensures Pcr.ProteinOf("AUGNNN") == "MX"
  {
    var rna := "AUGNNN";
    assert rna[0..3] == StartCodon;
    assert rna[3..6] == "NNN" && "NNN" !in StopCodons;
    assert ReadFrame(rna, 6) == Frame([], -1);
    assert ReadFrame(rna, 3) == Frame(["NNN"], -1);
    assert ScanRna(rna) == Scan(0, ["NNN"], -1);
    assert Translate(["NNN"], Script.Residue) == ["Xxx"];
    assert Translate(["NNN"], Pcr.Residue) == ["X"];
    assert Script.Protein(rna) == ["Met", "Xxx"];
    assert Pcr.Protein(rna) == ["M", "X"];
  }
}
