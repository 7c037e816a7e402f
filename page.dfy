/**
 The helpers of the browser front end (script.js) that carry logic of their own:
 the marked-up RNA display, the list policy of the input history and the bounds
 on the length of a random sequence.
 */
module ScriptPage {
  import opened Genetics
  import Script

  // ---------------------------------------------------------------------------
  // formatRNASequence

  const StartSpan: string := "<span class=\"start-codon\">AUG</span>"

  function StopSpan(codon: string): string
  {
    "<span class=\"stop-codon\">" + codon + "</span>"
  }

  /** `rnaSequence.substring(i, i + 3)` for `i < |rna|`: clipped at the end of the string. */
  function Substring3(rna: string, i: nat): string
    requires i < |rna|
  {
    rna[i..if i + 3 <= |rna| then i + 3 else |rna|]
  }

  /** What the loop of `formatRNASequence` appends from position `i` on. */
  function Marked(rna: string, start: int, stop: int, i: nat): string
    decreases |rna| - i
  {
    if i >= |rna| then ""
    else if i == start && start != -1 then StartSpan + Marked(rna, start, stop, i + 3)
    else if i == stop && stop != -1 then StopSpan(Substring3(rna, i)) + Marked(rna, start, stop, i + 3)
    else [rna[i]] + Marked(rna, start, stop, i + 1)
  }

  /** The display string: "-" for no RNA, otherwise the marked RNA between 5' and 3'. */
  function Formatted(rna: string, start: int, stop: int): string
  {
    if rna == [] then "-" else "5' " + Marked(rna, start, stop, 0) + " 3'"
  }

  /** `formatRNASequence`: copy the RNA, wrapping the codons at the two indices in markers. */
  method FormatRnaSequence(rnaSequence: string, startCodonIndex: int, stopCodonIndex: int) returns (formatted: string)
    ensures formatted == Formatted(rnaSequence, startCodonIndex, stopCodonIndex)
    ensures rnaSequence != [] ==>
      |formatted| >= 6 && formatted[..3] == "5' " && formatted[|formatted| - 3..] == " 3'"
  {
    if |rnaSequence| == 0 {
      return "-";
    }

    formatted := "5' ";
    var i := 0;

    while i < |rnaSequence|
      invariant 0 <= i
      invariant formatted + Marked(rnaSequence, startCodonIndex, stopCodonIndex, i)
             == "5' " + Marked(rnaSequence, startCodonIndex, stopCodonIndex, 0)
      invariant |formatted| >= 3 && formatted[..3] == "5' "
      decreases |rnaSequence| - i
    {
      if i == startCodonIndex && startCodonIndex != -1 {
        formatted := formatted + StartSpan;
        i := i + 3;
        continue;
      }

      if i == stopCodonIndex && stopCodonIndex != -1 {
        var stopCodon := Substring3(rnaSequence, i);
        formatted := formatted + StopSpan(stopCodon);
        i := i + 3;
        continue;
      }

      formatted := formatted + [rnaSequence[i]];
      i := i + 1;
    }

    formatted := formatted + " 3'";
  }

  /** Between `i` and `j` no marker is due, so the characters are copied as they are. */
  lemma {:induction false} MarkedPlain(rna: string, start: int, stop: int, i: nat, j: nat)
    requires i <= j <= |rna|
    requires start == -1 || start < i || j <= start
    requires stop == -1 || stop < i || j <= stop
    ensures Marked(rna, start, stop, i) == rna[i..j] + Marked(rna, start, stop, j)
    decreases j - i
  {
    if i < j {
      MarkedPlain(rna, start, stop, i + 1, j);
      assert rna[i..j] == [rna[i]] + rna[i + 1..j];
    }
  }

  /** Without indices the RNA is shown unchanged between the two end labels. */
  lemma FormattedPlain(rna: string)
    requires rna != []
    ensures Formatted(rna, -1, -1) == "5' " + rna + " 3'"
  {
    MarkedPlain(rna, -1, -1, 0, |rna|);
  }

  /** With a start codon and no stop codon only the start codon is wrapped. */
  lemma FormattedStartOnly(rna: string, start: nat)
    requires start + 3 <= |rna|
    ensures Formatted(rna, start, -1) == "5' " + rna[..start] + StartSpan + rna[start + 3..] + " 3'"
  {
    MarkedPlain(rna, start, -1, 0, start);
    MarkedPlain(rna, start, -1, start + 3, |rna|);
  }

  /** At the start index the start marker is emitted and three characters are skipped. */
  lemma MarkedAtStart(rna: string, start: int, stop: int)
    requires 0 <= start < |rna|
    ensures Marked(rna, start, stop, start) == StartSpan + Marked(rna, start, stop, start + 3)
  {
  }

  /** At the stop index, when it is not also the start index, the stop codon is wrapped. */
  lemma MarkedAtStop(rna: string, start: int, stop: int)
    requires 0 <= stop && stop + 3 <= |rna| && stop != start
    ensures Marked(rna, start, stop, stop) == StopSpan(rna[stop..stop + 3]) + Marked(rna, start, stop, stop + 3)
  {
  }

  /** From the stop codon on: the wrapped stop codon, then the rest copied. */
  lemma MarkedFromStop(rna: string, start: nat, stop: nat)
    requires start + 3 <= stop && stop + 3 <= |rna|
    ensures Marked(rna, start, stop, stop) == StopSpan(rna[stop..stop + 3]) + rna[stop + 3..]
  {
    MarkedPlain(rna, start, stop, stop + 3, |rna|);
    MarkedAtStop(rna, start, stop);
  }

  /** From the start codon on: both markers and the codons between them copied. */
  lemma MarkedFromStart(rna: string, start: nat, stop: nat)
    requires start + 3 <= stop && stop + 3 <= |rna|
    ensures Marked(rna, start, stop, start)
         == StartSpan + rna[start + 3..stop] + StopSpan(rna[stop..stop + 3]) + rna[stop + 3..]
  {
    MarkedFromStop(rna, start, stop);
    MarkedPlain(rna, start, stop, start + 3, stop);
    MarkedAtStart(rna, start, stop);
  }

  /** With a start codon before a stop codon both are wrapped and everything else is copied. */
  lemma FormattedStartStop(rna: string, start: nat, stop: nat)
    requires start + 3 <= stop && stop + 3 <= |rna|
    ensures Formatted(rna, start, stop)
         == "5' " + rna[..start] + StartSpan + rna[start + 3..stop] + StopSpan(rna[stop..stop + 3]) + rna[stop + 3..] + " 3'"
  {
    MarkedFromStart(rna, start, stop);
    MarkedPlain(rna, start, stop, 0, start);
    var head, p0, p1, p2, p3, tail := "5' ", rna[..start], rna[start + 3..stop], StopSpan(rna[stop..stop + 3]), rna[stop + 3..], " 3'";
    var m := Marked(rna, start, stop, 0);
    assert m == p0 + (StartSpan + p1 + p2 + p3);
    assert head + m + tail == head + p0 + StartSpan + p1 + p2 + p3 + tail;
  }

  /** The display of a translation's own indices: the start codon and the stop codon, if any, are the ones wrapped. */
  lemma DisplayedTranslation(rna: string)
    requires rna != []
    ensures var t := Script.TranslationOf(rna);
      && (!t.hasStartCodon ==> Formatted(rna, t.startCodonIndex, t.stopCodonIndex) == "5' " + rna + " 3'")
      && (t.hasStartCodon ==> 0 <= t.startCodonIndex && t.startCodonIndex + 3 <= |rna|)
      && (t.hasStartCodon && !t.hasStopCodon ==>
            Formatted(rna, t.startCodonIndex, t.stopCodonIndex)
              == "5' " + rna[..t.startCodonIndex] + StartSpan + rna[t.startCodonIndex + 3..] + " 3'")
      && (t.hasStopCodon ==> t.startCodonIndex + 3 <= t.stopCodonIndex && t.stopCodonIndex + 3 <= |rna|)
      && (t.hasStopCodon ==>
            Formatted(rna, t.startCodonIndex, t.stopCodonIndex)
              == "5' " + rna[..t.startCodonIndex] + StartSpan + rna[t.startCodonIndex + 3..t.stopCodonIndex]
                 + StopSpan(rna[t.stopCodonIndex..t.stopCodonIndex + 3]) + rna[t.stopCodonIndex + 3..] + " 3'")
  {
    var t := Script.TranslationOf(rna);
    Script.TranslationIndices(rna);
    ScanSpec(rna);
    StopIsFirstInFrame(rna);
    if !t.hasStartCodon {
      FormattedPlain(rna);
    } else if !t.hasStopCodon {
      FormattedStartOnly(rna, t.startCodonIndex);
    } else {
      FormattedStartStop(rna, t.startCodonIndex, t.stopCodonIndex);
    }
  }

  // ---------------------------------------------------------------------------
  // The list policy of saveHistory

  const HistoryLimit: nat := 10

  /** `history.filter(item => item !== entry)`. */
  function Without(history: seq<string>, entry: string): (r: seq<string>)
    ensures |r| <= |history|
    ensures forall x :: x in r <==> x in history && x != entry
    decreases |history|
  {
    if history == [] then []
    else (if history[0] == entry then [] else [history[0]]) + Without(history[1..], entry)
  }

  /** The history after saving `entry` on top of `history`. */
  function SavedHistory(history: seq<string>, entry: string): seq<string>
  {
    var h := [entry] + Without(history, entry);
    if |h| > HistoryLimit then h[..HistoryLimit] else h
  }

  /** `saveHistory` without the storage: drop the entry, put it in front, keep the first 10. */
  method SaveHistory(stored: seq<string>, dnaSequence: string) returns (history: seq<string>)
    ensures history == SavedHistory(stored, dnaSequence)
    ensures 1 <= |history| <= HistoryLimit
    ensures history[0] == dnaSequence && dnaSequence !in history[1..]
    ensures history[1..] == Without(stored, dnaSequence)[..|history| - 1]
    ensures |history| == if |Without(stored, dnaSequence)| < HistoryLimit then |Without(stored, dnaSequence)| + 1 else HistoryLimit
  {
    history := Without(stored, dnaSequence);
    history := [dnaSequence] + history;
    if |history| > HistoryLimit {
      history := history[..HistoryLimit];
    }
    assert history[1..] == Without(stored, dnaSequence)[..|history| - 1];
    assert forall x :: x in history[1..] ==> x in Without(stored, dnaSequence);
  }

  predicate Distinct(history: seq<string>)
  {
    forall i, j :: 0 <= i < j < |history| ==> history[i] != history[j]
  }

  /** Filtering keeps the order: it distributes over concatenation. */
  lemma {:induction false} WithoutAppend(a: seq<string>, b: seq<string>, entry: string)
    ensures Without(a + b, entry) == Without(a, entry) + Without(b, entry)
    decreases |a|
  {
    if a == [] {
      assert a + b == b;
    } else {
      assert (a + b)[0] == a[0];
      assert (a + b)[1..] == a[1..] + b;
      WithoutAppend(a[1..], b, entry);
    }
  }

  /** A history without the entry is kept as it is. */
  lemma {:induction false} WithoutAbsent(history: seq<string>, entry: string)
    requires entry !in history
    ensures Without(history, entry) == history
    decreases |history|
  {
    if history != [] {
      WithoutAbsent(history[1..], entry);
    }
  }

  lemma {:induction false} WithoutDistinct(history: seq<string>, entry: string)
    requires Distinct(history)
    ensures Distinct(Without(history, entry))
    decreases |history|
  {
    if history != [] {
      WithoutDistinct(history[1..], entry);
      assert history[0] !in history[1..];
    }
  }

  /** A history with no repeated entries stays so after a save. */
  lemma SaveKeepsDistinct(history: seq<string>, entry: string)
    requires Distinct(history)
    ensures Distinct(SavedHistory(history, entry))
  {
    var w := Without(history, entry);
    WithoutDistinct(history, entry);
    var h := [entry] + w;
    assert Distinct(h) by {
      forall i, j | 0 <= i < j < |h| ensures h[i] != h[j] {
        if i > 0 {
          assert h[i] == w[i - 1] && h[j] == w[j - 1];
        } else {
          assert h[j] in w;
        }
      }
    }
  }

  /** Saving the entry that is already on top changes nothing. */
  lemma SaveIdempotent(history: seq<string>, entry: string)
    ensures SavedHistory(SavedHistory(history, entry), entry) == SavedHistory(history, entry)
  {
    var once := SavedHistory(history, entry);
    var w := Without(history, entry);
    var rest := if |w| > HistoryLimit - 1 then w[..HistoryLimit - 1] else w;
    assert once == [entry] + rest;
    assert entry !in rest by {
      forall x | x in rest ensures x != entry {
        var k :| 0 <= k < |rest| && rest[k] == x;
        assert x == w[k];
        assert x in w;
      }
    }
    WithoutAppend([entry], rest, entry);
    WithoutAbsent(rest, entry);
    assert Without([entry], entry) == [];
  }

  // ---------------------------------------------------------------------------
  // Lengths of random sequences

  const MinDnaLength: int := 1
  const MaxDnaLength: int := 10000

  function Max(a: int, b: int): int { if a >= b then a else b }
  function Min(a: int, b: int): int { if a <= b then a else b }

  /** `adjustDNALength`: the new value, clamped to 1..10000. */
  function AdjustDnaLength(currentValue: int, amount: int): (newValue: int)
    ensures MinDnaLength <= newValue <= MaxDnaLength
    ensures MinDnaLength <= currentValue + amount <= MaxDnaLength ==> newValue == currentValue + amount
    ensures currentValue + amount < MinDnaLength ==> newValue == MinDnaLength
    ensures currentValue + amount > MaxDnaLength ==> newValue == MaxDnaLength
  {
    Max(1, Min(10000, currentValue + amount))
  }

  /** The guard of `generateAndSetRandomDNA`: `!length || length < 1 || length > 10000` rejects. */
  function RandomLengthAccepted(length: int): (ok: bool)
    ensures ok <==> MinDnaLength <= length <= MaxDnaLength
  {
    !(length == 0 || length < 1 || length > 10000)
  }

  /** Clamping twice is clamping once, and every clamped value passes the guard. */
  lemma AdjustedLengthAccepted(currentValue: int, amount: int)
    ensures RandomLengthAccepted(AdjustDnaLength(currentValue, amount))
    ensures AdjustDnaLength(AdjustDnaLength(currentValue, amount), 0) == AdjustDnaLength(currentValue, amount)
  {
  }
}
