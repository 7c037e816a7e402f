/**
 What the two implementations share: the alphabet, the validation errors, base
 counting, transcription and the scan for the start codon and the reading frame
 that both translators perform.
 */
module Genetics {
  import opened Text

  datatype Option<+T> = None | Some(value: T)

  /** The two errors normalisation can raise. */
  datatype ValidationError = InvalidBases | EmptySequence

  datatype Result<+T> = Success(value: T) | Failure(error: ValidationError)

  /** The message each error carries (the same text in both implementations). */
  function ErrorMessage(e: ValidationError): string
  {
    match e
    case InvalidBases => "DNA 서열은 A, T, G, C만 포함해야 합니다."
    case EmptySequence => "DNA 서열이 비어있습니다."
  }

  const DnaBases: set<char> := {'A', 'T', 'G', 'C'}
  const RnaBases: set<char> := {'A', 'C', 'G', 'U'}

  predicate IsDna(s: string)
  {
    forall k :: 0 <= k < |s| ==> s[k] in DnaBases
  }

  predicate IsRna(s: string)
  {
    forall k :: 0 <= k < |s| ==> s[k] in RnaBases
  }

  const StartCodon: string := "AUG"
  const StopCodons: set<string> := {"UAA", "UAG", "UGA"}

  /** An input character upper-cases to a base exactly when it is A, T, G or C in either case. */
  lemma UpperIsBase(c: char)
    ensures UpperChar(c) in DnaBases <==> c in "ATGCatgc"
  {
  }

  // ---------------------------------------------------------------------------
  // Base composition

  datatype BaseCounts = BaseCounts(a: nat, t: nat, g: nat, c: nat)

  /** The occurrences of A, T, G and C in `dna`. */
  function CountBases(dna: string): (r: BaseCounts)
    ensures r == BaseCounts(multiset(dna)['A'], multiset(dna)['T'], multiset(dna)['G'], multiset(dna)['C'])
    ensures IsDna(dna) ==> r.a + r.t + r.g + r.c == |dna|
  {
    CountsSum(dna);
    BaseCounts(Count(dna, 'A'), Count(dna, 'T'), Count(dna, 'G'), Count(dna, 'C'))
  }

  lemma {:induction false} CountsSum(s: string)
    ensures IsDna(s) ==> Count(s, 'A') + Count(s, 'T') + Count(s, 'G') + Count(s, 'C') == |s|
    decreases |s|
  {
    if s != [] {
      CountsSum(s[1..]);
    }
  }

  /** The share of each base in percent, as exact rationals. */
  datatype BaseShares = BaseShares(a: real, t: real, g: real, c: real)

  function Percent(count: nat, length: nat): real
    requires length > 0
  {
    (count as real / length as real) * 100.0
  }

  function Percentages(counts: BaseCounts, length: nat): BaseShares
    requires length > 0
  {
    BaseShares(Percent(counts.a, length), Percent(counts.t, length),
               Percent(counts.g, length), Percent(counts.c, length))
  }

  /** When the counts make up the whole length, the four percentages add up to 100. */
  lemma PercentagesSum(counts: BaseCounts, length: nat)
    requires length > 0 && counts.a + counts.t + counts.g + counts.c == length
    ensures var p := Percentages(counts, length); p.a + p.t + p.g + p.c == 100.0
  {
    var n := length as real;
    var a, t, g, c := counts.a as real, counts.t as real, counts.g as real, counts.c as real;
    assert a + t + g + c == n;
    DivideSum(a, t, g, c, n);
    assert n / n == 1.0;
  }

  lemma DivideSum(a: real, t: real, g: real, c: real, n: real)
    requires n > 0.0
    ensures (a / n) * 100.0 + (t / n) * 100.0 + (g / n) * 100.0 + (c / n) * 100.0 == ((a + t + g + c) / n) * 100.0
  {
    assert a / n + t / n == (a + t) / n;
    assert (a + t) / n + g / n == (a + t + g) / n;
    assert (a + t + g) / n + c / n == (a + t + g + c) / n;
  }

  // ---------------------------------------------------------------------------
  // Transcription

  /** Every T replaced by U (`replace(/T/g, 'U')`, `replace('T', 'U')`). */
  function Transcribe(dna: string): (rna: string)
    ensures |rna| == |dna|
    ensures forall k :: 0 <= k < |dna| ==> rna[k] == (if dna[k] == 'T' then 'U' else dna[k])
    decreases |dna|
  {
    if dna == [] then [] else [if dna[0] == 'T' then 'U' else dna[0]] + Transcribe(dna[1..])
  }

  /** Every U replaced by T: the inverse of transcription on strings without U. */
  function ReverseTranscribe(rna: string): (dna: string)
    ensures |dna| == |rna|
    ensures forall k :: 0 <= k < |rna| ==> dna[k] == (if rna[k] == 'U' then 'T' else rna[k])
    decreases |rna|
  {
    if rna == [] then [] else [if rna[0] == 'U' then 'T' else rna[0]] + ReverseTranscribe(rna[1..])
  }

  lemma TranscribeRoundTrip(dna: string)
    requires 'U' !in dna
    ensures ReverseTranscribe(Transcribe(dna)) == dna
  {
    var back := ReverseTranscribe(Transcribe(dna));
    forall k | 0 <= k < |dna| ensures back[k] == dna[k] {
      assert dna[k] in dna;
    }
  }

  /** Transcribing a DNA sequence yields an RNA sequence. */
  lemma TranscribeDna(dna: string)
    requires IsDna(dna)
    ensures IsRna(Transcribe(dna))
  {
  }

  // ---------------------------------------------------------------------------
  // The scan shared by both translators

  /** The codon read at offset `i`. */
  function CodonAt(rna: string, i: int): string
    requires 0 <= i && i + 3 <= |rna|
  {
    rna[i..i + 3]
  }

  /** A start codon begins at offset `i`. */
  predicate AugAt(rna: string, i: int)
  {
    0 <= i && i + 3 <= |rna| && rna[i..i + 3] == StartCodon
  }

  /** The search for the start codon, one character at a time from `from`; -1 if there is none. */
  function FindStart(rna: string, from: nat): (r: int)
    ensures r == -1 || (from <= r && AugAt(rna, r))
    ensures forall k :: from <= k && (r == -1 || k < r) ==> !AugAt(rna, k)
    decreases |rna| - from
  {
    if from + 3 > |rna| then -1
    else if rna[from..from + 3] == StartCodon then from
    else FindStart(rna, from + 1)
  }

  /** The codons read in frame and the offset of the stop codon that ended the reading (-1 if none). */
  datatype Frame = Frame(codons: seq<string>, stop: int)

  /** Reading in frame from `j`: codon by codon until a stop codon or until fewer than 3 characters remain. */
  function ReadFrame(rna: string, j: nat): Frame
    decreases |rna| - j
  {
    if j + 3 > |rna| then Frame([], -1)
    else if rna[j..j + 3] in StopCodons then Frame([], j)
    else
      var rest := ReadFrame(rna, j + 3);
      Frame([rna[j..j + 3]] + rest.codons, rest.stop)
  }

  /** Reading from `j` yields `codons` and then whatever reading from `i` yields. */
  predicate ReadOnFrom(rna: string, j: nat, codons: seq<string>, i: nat)
  {
    ReadFrame(rna, j) == Frame(codons + ReadFrame(rna, i).codons, ReadFrame(rna, i).stop)
  }

  lemma ReadOnStart(rna: string, j: nat)
    ensures ReadOnFrom(rna, j, [], j)
  {
    assert [] + ReadFrame(rna, j).codons == ReadFrame(rna, j).codons;
  }

  /** One in-frame step of the reading: a codon that is not a stop codon is read and the frame moves on by 3. */
  lemma ReadOnStep(rna: string, j: nat, codons: seq<string>, i: nat)
    requires ReadOnFrom(rna, j, codons, i)
    requires i + 3 <= |rna| && rna[i..i + 3] !in StopCodons
    ensures ReadOnFrom(rna, j, codons + [rna[i..i + 3]], i + 3)
  {
    var rest := ReadFrame(rna, i + 3);
    assert ReadFrame(rna, i) == Frame([rna[i..i + 3]] + rest.codons, rest.stop);
    assert codons + ([rna[i..i + 3]] + rest.codons) == (codons + [rna[i..i + 3]]) + rest.codons;
  }

  /** The outcome of a scan: where the start codon is, the codons translated after it, where the stop codon is. */
  datatype Scan = Scan(start: int, codons: seq<string>, stop: int)

  /** The first AUG at any offset, then the reading in frame after it. */
  function ScanRna(rna: string): Scan
  {
    var s := FindStart(rna, 0);
    if s == -1 then Scan(-1, [], -1)
    else
      var f := ReadFrame(rna, s + 3);
      Scan(s, f.codons, f.stop)
  }

  /**
   The reading from `j` meets the first in-frame stop codon, if any: the codons read lie at
   j, j + 3, ..., none of them a stop codon, and the stop (or the end) comes right after them.
   */
  lemma {:induction false} ReadFrameSpec(rna: string, j: nat)
    ensures var f := ReadFrame(rna, j);
      && (f.stop == -1 || (f.stop == j + 3 * |f.codons| && f.stop + 3 <= |rna| && CodonAt(rna, f.stop) in StopCodons))
      && (f.stop == -1 ==> j + 3 * |f.codons| + 3 > |rna|)
      && (forall k :: 0 <= k < |f.codons| ==>
            j + 3 * k + 3 <= |rna| && f.codons[k] == CodonAt(rna, j + 3 * k) && f.codons[k] !in StopCodons)
    decreases |rna| - j
  {
    if j + 3 <= |rna| && rna[j..j + 3] !in StopCodons {
      ReadFrameSpec(rna, j + 3);
      var rest := ReadFrame(rna, j + 3);
      var f := ReadFrame(rna, j);
      assert f == Frame([rna[j..j + 3]] + rest.codons, rest.stop);
      forall k | 0 <= k < |f.codons|
        ensures j + 3 * k + 3 <= |rna| && f.codons[k] == CodonAt(rna, j + 3 * k) && f.codons[k] !in StopCodons
      {
        if k > 0 {
          assert f.codons[k] == rest.codons[k - 1];
          assert j + 3 * k == (j + 3) + 3 * (k - 1);
        }
      }
    } else if j + 3 <= |rna| {
      assert ReadFrame(rna, j) == Frame([], j);
    } else {
      assert ReadFrame(rna, j) == Frame([], -1);
    }
  }

  /** What a scan finds, stated against the RNA itself. */
  lemma ScanSpec(rna: string)
    ensures var sc := ScanRna(rna);
      // the start codon is the first AUG, at any offset
      && (sc.start == -1 <==> forall k :: !AugAt(rna, k))
      && (sc.start != -1 ==> AugAt(rna, sc.start) && forall k :: 0 <= k < sc.start ==> !AugAt(rna, k))
      && (sc.start == -1 ==> sc.codons == [] && sc.stop == -1)
      // after it the frame is locked: codons at start + 3, start + 6, ... up to the first stop codon
      && (sc.start != -1 && sc.stop != -1 ==>
            sc.stop == sc.start + 3 + 3 * |sc.codons| && sc.stop + 3 <= |rna| && CodonAt(rna, sc.stop) in StopCodons)
      && (sc.start != -1 && sc.stop == -1 ==> sc.start + 3 * |sc.codons| + 6 > |rna|)
      && (forall k :: 0 <= k < |sc.codons| ==>
            sc.start + 3 * k + 6 <= |rna| && sc.codons[k] == CodonAt(rna, sc.start + 3 * k + 3) && sc.codons[k] !in StopCodons)
  {
    var s := FindStart(rna, 0);
    if s != -1 {
      ReadFrameSpec(rna, s + 3);
    }
  }

  /**
   Reading ends at the first in-frame stop codon: the stop index lies 3k after the start for
   some k >= 1 and no in-frame codon between the two is a stop codon. Without a stop, no
   in-frame codon after the start codon is a stop codon.
   */
  lemma StopIsFirstInFrame(rna: string)
    ensures var sc := ScanRna(rna);
      && (sc.stop != -1 ==>
            && sc.start != -1
            && sc.stop >= sc.start + 3
            && (sc.stop - sc.start) % 3 == 0
            && sc.stop + 3 <= |rna| && CodonAt(rna, sc.stop) in StopCodons
            && forall k :: 1 <= k && sc.start + 3 * k < sc.stop ==> CodonAt(rna, sc.start + 3 * k) !in StopCodons)
      && (sc.start != -1 && sc.stop == -1 ==>
            forall k :: 1 <= k && sc.start + 3 * k + 3 <= |rna| ==> CodonAt(rna, sc.start + 3 * k) !in StopCodons)
  {
    var sc := ScanRna(rna);
    if sc.start != -1 {
      ReadFrameSpec(rna, sc.start + 3);
      var f := ReadFrame(rna, sc.start + 3);
      assert sc.codons == f.codons && sc.stop == f.stop;
      forall k | 1 <= k && sc.start + 3 * k + 3 <= |rna| && (sc.stop == -1 || sc.start + 3 * k < sc.stop)
        ensures CodonAt(rna, sc.start + 3 * k) !in StopCodons
      {
        assert sc.start + 3 * k == sc.start + 3 + 3 * (k - 1);
        assert k - 1 < |sc.codons|;
      }
    }
  }

  // ---------------------------------------------------------------------------
  // The protein list, for any residue function

  /** The residue of each codon read, in order. */
  function Translate(codons: seq<string>, residue: string -> string): (r: seq<string>)
    ensures |r| == |codons| && forall k :: 0 <= k < |codons| ==> r[k] == residue(codons[k])
  {
    seq(|codons|, k requires 0 <= k < |codons| => residue(codons[k]))
  }

  lemma TranslateAppend(codons: seq<string>, codon: string, residue: string -> string)
    ensures Translate(codons + [codon], residue) == Translate(codons, residue) + [residue(codon)]
  {
  }

  /**
   The list a translator builds: nothing without a start codon, otherwise `first` for the
   start codon followed by the residue of each codon read in frame after it.
   */
  function ProteinList(rna: string, first: string, residue: string -> string): seq<string>
  {
    var sc := ScanRna(rna);
    if sc.start == -1 then [] else [first] + Translate(sc.codons, residue)
  }

  /** Codon k - 1 read after the start codon lies 3k after it and is not a stop codon. */
  lemma CodonReadAt(rna: string, k: nat)
    requires ScanRna(rna).start != -1 && 1 <= k <= |ScanRna(rna).codons|
    ensures var sc := ScanRna(rna);
      && sc.start + 3 * k + 3 <= |rna|
      && sc.codons[k - 1] == CodonAt(rna, sc.start + 3 * k)
      && CodonAt(rna, sc.start + 3 * k) !in StopCodons
  {
    var sc := ScanRna(rna);
    ScanSpec(rna);
    assert sc.start + 3 * k == sc.start + 3 * (k - 1) + 3;
  }

  /** Entry k (k >= 1) of the list is the residue of codon k - 1 read after the start codon. */
  lemma ProteinListEntry(rna: string, first: string, residue: string -> string, k: nat)
    requires ScanRna(rna).start != -1 && 1 <= k <= |ScanRna(rna).codons|
    ensures var p := ProteinList(rna, first, residue);
      k < |p| && p[k] == residue(ScanRna(rna).codons[k - 1])
  {
    var sc := ScanRna(rna);
    var t := Translate(sc.codons, residue);
    assert ProteinList(rna, first, residue) == [first] + t;
  }

  /** Entry k (k >= 1) of the list translates the codon 3k after the start codon, which is not a stop codon. */
  lemma ProteinListAt(rna: string, first: string, residue: string -> string, k: nat)
    requires ScanRna(rna).start != -1 && 1 <= k <= |ScanRna(rna).codons|
    ensures var start, p := ScanRna(rna).start, ProteinList(rna, first, residue);
      && k < |p|
      && start + 3 * k + 3 <= |rna|
      && p[k] == residue(CodonAt(rna, start + 3 * k))
      && CodonAt(rna, start + 3 * k) !in StopCodons
  {
    CodonReadAt(rna, k);
    ProteinListEntry(rna, first, residue, k);
  }

  /**
   The list is empty exactly when there is no start codon; otherwise entry k (k >= 1) is the
   residue of the codon 3k after the start codon, and none of those codons is a stop codon.
   */
  lemma ProteinListSpec(rna: string, first: string, residue: string -> string)
    ensures var sc, p := ScanRna(rna), ProteinList(rna, first, residue);
      && (sc.start != -1 <==> p != [])
      && (sc.start != -1 ==>
            && |p| == 1 + |sc.codons| && p[0] == first
            && forall k :: 1 <= k < |p| ==>
                 && sc.start + 3 * k + 3 <= |rna|
                 && p[k] == residue(CodonAt(rna, sc.start + 3 * k))
                 && CodonAt(rna, sc.start + 3 * k) !in StopCodons)
  {
    var sc := ScanRna(rna);
    if sc.start != -1 {
      var p := ProteinList(rna, first, residue);
      forall k | 1 <= k < |p|
        ensures && sc.start + 3 * k + 3 <= |rna|
                && p[k] == residue(CodonAt(rna, sc.start + 3 * k))
                && CodonAt(rna, sc.start + 3 * k) !in StopCodons
      {
        ProteinListAt(rna, first, residue, k);
      }
    }
  }

  /** A codon read from RNA is a codon over A, C, G, U. */
  lemma CodonAtIsRna(rna: string, i: int)
    requires IsRna(rna) && 0 <= i && i + 3 <= |rna|
    ensures |CodonAt(rna, i)| == 3 && IsRna(CodonAt(rna, i))
  {
    var codon := CodonAt(rna, i);
    forall j | 0 <= j < 3 ensures codon[j] in RnaBases {
      assert codon[j] == rna[i + j];
    }
  }
}
