# PCR-Helper sequence analysis, modelled in Dafny

PCR-Helper analyses a DNA sequence typed in by a user. It has two implementations of the same
engine: the browser front end `script.js` and the Python module `pcr.py`. The engine:

- normalises the input (trims it, upper-cases it, removes whitespace) and accepts only A, T, G and C;
- reports the length and the count and share of each base;
- transcribes the DNA to RNA (T becomes U);
- translates the RNA into a protein.

In both versions the translator is one `while` loop. It slides one character at a time until it
first sees the start codon AUG, at any offset. It then emits methionine and reads codon by codon
in that frame. It stops at the first in-frame stop codon (UAA, UAG, UGA), which is not translated,
or when fewer than three characters remain. A codon missing from the table becomes `Xxx` in the
browser and `X` in Python.

The browser returns three-letter residues joined by `-`, the indices of the start and stop codons,
and two flags. Python returns one-letter codes joined with no separator.

The browser version also has three smaller helpers that this model covers:

- the RNA display, with the start and stop codons wrapped in markers (`formatRNASequence`);
- the list policy of the input history (`saveHistory`);
- the clamp on the length of a random sequence (`adjustDNALength` and the guard of `generateAndSetRandomDNA`).

The project is organised as follows:

- `text.dfy` (module `Text`): the string operations both versions use. These are trimming,
  removing a class of characters, ASCII upper-casing, counting and joining.
- `genetics.dfy` (module `Genetics`): what both versions share. This covers the alphabet, the
  two validation errors, base counts and shares, and transcription. It also holds the scan
  (`FindStart`, `ReadFrame`, `ScanRna`) that states what both translators read, and the protein
  list built from the scan for any residue function.
- `script.js` is modelled in two files:
  - `script.dfy` (module `Script`): the codon table, normalisation and validation, `analyzeDNA`,
    and the imperative `translateRNAToProtein`, which is proved equal to `TranslationOf`.
  - `page.dfy` (module `ScriptPage`): `formatRNASequence` (a loop proved equal to `Formatted`),
    `saveHistory`'s list policy, and the length clamp and guard.
- `pcr.dfy` (module `Pcr`) models `pcr.py`: the one-letter codon table, normalisation,
  `analyze_dna`, and the imperative `translate_rna_to_protein`, which is proved equal to `ProteinOf`.
- `agreement.dfy` (module `Agreement`) relates the two versions. The tables agree under the
  three-letter to one-letter abbreviation. The translations agree. The analyses agree on input
  whose only whitespace is the space. The inputs on which the trimming classes part are stated too.
- `scenarios.dfy` (module `Scenarios`) gives concrete translations of short RNA strings by both versions.

The two versions differ in four places, and each is modelled as written:

- **Whitespace inside the sequence.** The browser removes every `\s` character. Python removes
  only the space, so a tab or newline inside the sequence is rejected.
- **Whitespace trimmed at the ends.** `trim()` and `strip()` trim different characters. `trim()`
  removes the byte order mark U+FEFF and `strip()` does not. `strip()` removes the information
  separators U+001C to U+001F and the next-line control U+0085, and `trim()` does not. So
  "\u{FEFF}ATG" is accepted only by the browser, and "ATG\u{001C}" only by Python.
- **Empty input.** In the browser, `/^[ATGC]+$/` fails on the empty string, so empty or blank input
  gets the invalid-bases error and the empty-sequence branch is never reached. In Python,
  `all(...)` holds on the empty string, so the empty-sequence error is the one raised.
- **Result shape.** The browser returns a translation record with indices and flags. Python
  returns only the protein string.

Both translators keep a branch for "start codon found, protein empty". The model shows it cannot
be reached, because methionine is always pushed first. The branch is still modelled in both methods.

## Model

| member | source | states |
|---|---|---|
| Text.Strip | script.js:43 | `trim()` / `strip()`: the result is a contiguous slice of the input, everything cut from either end is whitespace, and the result neither begins nor ends with whitespace |
| Text.RemoveChars | script.js:43 | `replace(/\s/g, '')`: a character occurs in the result exactly when it occurs in the input and is not removed; the result is no longer than the input |
| Text.Upper | script.js:43 | `toUpperCase()`: same length, each character upper-cased in place |
| Text.Count | pcr.py:24-29 | `str.count`: the number of occurrences of the character, its multiplicity in the string; at most the length, zero exactly when the character is absent |
| Text.StripThenRemove | script.js:43 | trimming before removing all whitespace changes nothing |
| Text.JoinLetters | pcr.py:118 | `''.join` of one-letter parts has one character per part, in order |
| Text.JoinPrefix | script.js:161 | `protein.join('-')` begins with the first residue |
| Genetics.UpperIsBase | script.js:43-47 | a character upper-cases to A, T, G or C exactly when it is one of A, T, G, C in either case |
| Genetics.CountBases | script.js:59-64 | each of the four counts is the number of occurrences of its base, and on DNA they add up to the length (the same counting as `dna.count` in pcr.py) |
| Genetics.CountsSum | script.js:56-64 | on DNA, the occurrences of A, T, G and C add up to the length |
| Genetics.PercentagesSum | script.js:66-71 | when the counts make up the length, the four percentages add up to exactly 100 |
| Genetics.Transcribe | script.js:74 | same length; U where the DNA has T, every other character unchanged (also `replace('T', 'U')` in pcr.py) |
| Genetics.TranscribeRoundTrip | script.js:74 | replacing U by T undoes transcription on strings without U |
| Genetics.TranscribeDna | script.js:74 | transcribed DNA is RNA over A, C, G, U |
| Genetics.FindStart | script.js:101-111 | the result is an offset holding AUG at or after the origin, with no AUG between the origin and it; -1 only when there is no AUG at all |
| Genetics.ReadFrameSpec | script.js:113-133 | reading in frame from j: codon k is the codon at j + 3k and none is a stop codon; the stop index is j + 3·(codons read) and holds a stop codon; without one, fewer than 3 characters remain |
| Genetics.ScanSpec | script.js:101-133 | the start is the first AUG at any offset (-1 without one); then the frame is locked at start + 3, start + 6, ... up to the first stop codon, which is not among the codons read (the same scan as the loop of pcr.py) |
| Genetics.StopIsFirstInFrame | script.js:113-119 | the stop index is start + 3k for some k ≥ 1, holds a stop codon, and no in-frame codon between them is a stop codon; without a stop, no in-frame codon after the start is one |
| Genetics.ProteinListSpec | script.js:105-129 | the list is empty exactly when there is no start codon; otherwise it has one entry more than the codons read, the first entry is the start residue, and entry k is the residue of the codon 3k after the start, which is not a stop codon |
| Genetics.CodonReadAt | script.js:113-129 | codon k − 1 read after the start codon lies 3k after it, within the input, and is not a stop codon |
| Genetics.ProteinListEntry | script.js:113-129 | entry k (k ≥ 1) of the protein list is the residue of codon k − 1 read after the start codon |
| Genetics.ReadOnStep | script.js:114-129 | one frame step: a codon that is not a stop codon is read and reading goes on 3 characters later |
| Script.CodonTableDomain | script.js:19-36 | the table has an entry exactly for the 64 codons over A, C, G, U |
| Script.CodonTableStops | script.js:19-38 | "Stop" is the entry of exactly UAA, UAG and UGA; no entry is "Xxx" |
| Script.NormalizeSpec | script.js:43 | normalisation is upper-casing the input with every whitespace character removed; trimming first adds nothing |
| Script.NormalizeIdempotent | script.js:43 | normalising twice is normalising once |
| Script.AnalyzeNormalized | script.js:41-90 | analysing the normalised input gives the same result as analysing the raw input |
| Script.AcceptedIff | script.js:43-49 | accepted exactly when the input has a character that is not whitespace and every such character is A, T, G or C in either case |
| Script.BlankInputIsInvalid | script.js:46-53 | empty or all-whitespace input fails the pattern test, so the empty-sequence error is never raised |
| Script.AnalyzeDna | script.js:41-90 | every failure is the invalid-bases error; on success the length is that of the normalised input and at least 1, each count is the number of occurrences of its base in the normalised input and they add up to the length, the RNA has the same length with U for T pointwise, and the translation is that of the RNA |
| Script.TranslateRnaToProtein | script.js:93-175 | the loop returns exactly the translation the scan determines: the protein, both indices and both flags |
| Script.TranslationIndices | script.js:136-174 | the flags say whether a start or stop codon was found, and the indices are the scan's |
| Script.StartIsFirstAug | script.js:101-144 | a start codon is found exactly when AUG occurs at some offset; it is the least such offset; without one both indices are -1, both flags false, and the message is returned |
| Script.ProteinResidues | script.js:105-129 | the protein is non-empty exactly when a start codon is found; it begins with Met, and entry k is the table's residue (or "Xxx") for the codon 3k after the start |
| Script.ProteinLength | script.js:105-129 | with a stop codon the protein, Met included, has (stop − start)/3 residues; without one, (length − start)/3 |
| Script.NoStopResidue | script.js:116-119 | "Stop" never appears in the protein: the stop codon is not translated |
| Script.NoUnknownResidueOnRna | script.js:122-127 | on RNA over A, C, G, U, "Xxx" never appears |
| Script.InFrameAugIsMet | script.js:113-129 | an in-frame AUG after the start codon is translated as Met |
| Script.ProteinText | script.js:147-166 | with a start codon the protein is non-empty, so the empty-protein branch is dead; the text is the residues joined by "-", with the warning appended exactly when no stop codon was met, and it begins with "Met" |
| ScriptPage.FormatRnaSequence | script.js:230-260 | the loop builds exactly `Formatted`; for non-empty RNA the output begins with "5' " and ends with " 3'" |
| ScriptPage.MarkedPlain | script.js:252-254 | where no marker is due, the characters are copied unchanged |
| ScriptPage.FormattedPlain | script.js:230-260 | with both indices -1 the output is "5' " + RNA + " 3'" |
| ScriptPage.FormattedStartOnly | script.js:236-256 | with a start index and no stop index only AUG is wrapped; everything else is copied |
| ScriptPage.MarkedFromStart | script.js:236-256 | from the start index on: the start marker, the codons up to the stop copied, the wrapped stop codon, then the rest copied |
| ScriptPage.FormattedStartStop | script.js:236-256 | with a start before a stop, both codons are wrapped and every other character is copied in order |
| ScriptPage.DisplayedTranslation | script.js:198 | displaying an RNA with its own translation's indices wraps the first AUG and the first in-frame stop codon, if any, and copies the rest |
| ScriptPage.Without | script.js:273 | `filter`: an entry survives exactly when it was present and differs from the saved one |
| ScriptPage.WithoutAppend | script.js:273 | filtering keeps the order: it distributes over concatenation |
| ScriptPage.SaveHistory | script.js:269-281 | the new list has 1 to 10 entries, the saved entry first and nowhere else, followed by the old list without it, order kept, truncated |
| ScriptPage.SaveKeepsDistinct | script.js:269-281 | a list without repeated entries keeps none after a save |
| ScriptPage.SaveIdempotent | script.js:269-281 | saving the entry that is already on top changes nothing |
| ScriptPage.AdjustDnaLength | script.js:433 | the new value lies in 1..10000; it is current + amount when that is in range, otherwise the nearer bound |
| ScriptPage.RandomLengthAccepted | script.js:356 | the guard accepts exactly the lengths 1..10000 |
| ScriptPage.AdjustedLengthAccepted | script.js:431-434 | every clamped value passes the guard, and clamping again changes nothing |
| Pcr.CodonTableDomain | pcr.py:59-76 | the table has an entry exactly for the 64 codons over A, C, G, U |
| Pcr.CodonTableStops | pcr.py:59-78 | "*" is the entry of exactly UAA, UAG and UGA; no entry is "X" |
| Pcr.ResidueIsLetter | pcr.py:101-106 | every residue appended is a single letter |
| Pcr.NormalizeEnds | pcr.py:10 | the normalised string begins and ends with a character that is not whitespace |
| Pcr.NormalizeNonEmpty | pcr.py:10 | one character that is not whitespace keeps the normalised string non-empty |
| Pcr.NormalizeIdempotent | pcr.py:10 | normalising twice is normalising once |
| Pcr.AnalyzeNormalized | pcr.py:1-50 | analysing the normalised input gives the same result as analysing the raw input |
| Pcr.NormalizedBases | pcr.py:10-14 | a trimmed part made of spaces and bases (either case) normalises to DNA |
| Pcr.NormalizedNonBase | pcr.py:10-15 | a character of the trimmed part that is neither a space nor a base makes the input invalid |
| Pcr.NormalizeIsDnaIff | pcr.py:10-15 | the base check passes exactly when the trimmed part holds nothing but spaces and A, T, G, C in either case |
| Pcr.EmptyIff | pcr.py:10-18 | the empty-sequence error is raised exactly for input made only of whitespace, the empty string included |
| Pcr.AcceptedIff | pcr.py:10-18 | accepted exactly when the trimmed part is non-empty and holds only spaces and A, T, G, C in either case |
| Pcr.InnerWhitespaceKept | pcr.py:10 | a whitespace character other than the space, between two non-whitespace characters, survives normalisation |
| Pcr.InnerWhitespaceRejected | pcr.py:10-15 | such a character (a tab or newline inside the sequence) makes the input invalid |
| Pcr.AnalyzeDna | pcr.py:1-50 | a failure is the empty-sequence error exactly when the normalised input is empty; on success the length is that of the normalised input and at least 1, each count is the number of occurrences of its base in the normalised input and they add up to the length, the RNA has the same length with U for T pointwise, and the protein string is that of the RNA |
| Pcr.TranslateRnaToProtein | pcr.py:53-118 | the loop returns exactly the string the scan determines: the message without a start codon, otherwise the joined one-letter protein |
| Pcr.ProteinShape | pcr.py:84-108 | without an AUG at any offset the message is returned; otherwise the protein is M and then the code of each in-frame codon after the first AUG, up to the first in-frame stop codon, which is not translated |
| Pcr.ProteinString | pcr.py:112-118 | with a start codon the returned string is non-empty (the empty-protein branch is dead), begins with M, and has one letter per residue |
| Pcr.NoStopCode | pcr.py:97-99 | "*" is never a code of the protein: the stop codon is not translated |
| Pcr.NoUnknownCodeOnRna | pcr.py:101-106 | on RNA over A, C, G, U, "X" is never a code of the protein |
| Pcr.NoStopLetter | pcr.py:84-118 | "*" never appears in the returned string, with or without a start codon (the message included) |
| Pcr.NoUnknownLetterOnRna | pcr.py:84-118 | on RNA over A, C, G, U, "X" never appears in the returned string, with or without a start codon (the message included) |
| Agreement.TablesAgree | pcr.py:59-76 | the Python table has the same keys as the browser table, and each entry is the abbreviation of the browser's |
| Agreement.ResiduesAgree | pcr.py:101-106 | each residue Python appends is the abbreviation of the one the browser appends ("X" for "Xxx") |
| Agreement.ProteinsAgree | pcr.py:84-108 | the Python protein list is the browser's, abbreviated residue by residue |
| Agreement.TranslationsAgree | pcr.py:112-118 | with a start codon the Python string is the browser's residues abbreviated and joined; without one each version returns its own message |
| Agreement.NormalizeAgree | script.js:43 | on input whose only whitespace is the space, both normalisations give the same string |
| Agreement.AnalysesAgree | pcr.py:1-50 | on input whose only whitespace is the space, both versions accept the same inputs and agree on length, counts, shares and RNA; the Python protein is the abbreviated browser protein; on rejection the browser reports invalid bases, and Python reports the empty sequence exactly when nothing is left |
| Agreement.BlankInputsDiffer | pcr.py:17-18 | on blank input the browser reports invalid bases and Python reports the empty sequence |
| Agreement.TrimClassesDiffer | script.js:43 | the browser's trimming class and Python's differ exactly in U+FEFF (browser only) and in U+001C to U+001F and U+0085 (Python only) |
| Agreement.BrowserOnlyWhitespaceDiffers | pcr.py:10-15 | DNA preceded by a character only the browser trims is accepted by the browser and rejected by Python as invalid bases |
| Agreement.PythonOnlyWhitespaceDiffers | script.js:43-49 | DNA followed by a character only Python strips is accepted by Python and rejected by the browser as invalid bases |
| Agreement.ByteOrderMarkInput | script.js:43-49 | "\u{FEFF}ATG" is valid to the browser and invalid to Python |
| Agreement.SeparatorInput | pcr.py:10-15 | "ATG\u{001C}" is valid to Python and invalid to the browser |
| Scenarios.StartAndStop | script.js:93-175 | "AUGUUUUAA" reads as "Met-Phe" (start 0, stop 6) in the browser and as "MF" in Python |
| Scenarios.NoStart | script.js:136-144 | "GGGCCC" has no start codon: the browser returns its message with -1 indices, Python returns its message |
| Scenarios.NoStop | script.js:157-166 | "AUGAAA" reads as "Met-Lys" with the missing-stop warning, and as "MK" in Python |
| Scenarios.UnframedStart | script.js:101-111 | in "GAUGUAA" the start codon is found at offset 1 and the stop codon right after it leaves Met alone |
| Scenarios.UnknownCodon | script.js:122-127 | a codon outside the table reads as "Xxx" in the browser and "X" in Python |

## Left out

- DOM access, rendering, event listeners, `switchMode`, `displayResults`, `displayHistory`,
  `showError`/`hideError`, timers and focus handling in script.js. These are presentation.
  Only the call `formatRNASequence(rna, start, stop)` made by `displayResults` is stated,
  in `ScriptPage.DisplayedTranslation`.
- `analyzeDNASequence`, which reads the text box, trims it, rejects empty text before calling
  `analyzeDNA`, and then saves the history. This is UI glue. The consequence is that in the
  browser a blank input never reaches `analyzeDNA`.
- `localStorage` and the JSON in `getHistory`, `saveHistory` and `clearHistory`. `ScriptPage.SaveHistory`
  takes the stored list as a parameter and returns the list that would be stored.
- `generateRandomDNA`, because it depends on `Math.random`. Only the length guard in front of it is modelled.
- `parseInt` and the `|| 100` fallback in `adjustDNALength`, and `NaN` in the length guard. The
  current value and the length are integers in the model.
- Floating point. The percentages are exact rationals (`real`), so `Genetics.PercentagesSum` holds
  exactly. In IEEE doubles the sum may differ from 100 by rounding. The `toFixed` and `:.2f`
  display is not modelled.
- Unicode case mapping. `Text.Upper` maps only a–z to A–Z. `toUpperCase` and `str.upper` also
  map other letters, and some of them to several characters.
- Regular-expression semantics. `\s` and `trim()` are the explicit set `Script.JsWhitespace`
  (WhiteSpace and LineTerminator of ECMAScript). `strip()` is `Pcr.PyWhitespace` (the characters
  for which `str.isspace()` holds). `match(/A/g)` and `count` are `Text.Count`.
- The codon tables are functions defined by a 64-case match, not dictionaries. A missing key is
  `None`. The browser's truthiness test `codonTable[codon]` is the same as key presence, since
  every entry is a non-empty string.
- The exceptions of `analyzeDNA` and `analyze_dna` become `Failure` values. `Genetics.ErrorMessage`
  gives their text.
- The browser's `analyzeDNA` returns one flat object. In `Script.Analysis` its five translation
  fields are grouped in a `Script.Translation`.
- `Script.AnalyzeDna` and `Pcr.AnalyzeDna` are functions, so they use the specification functions
  `Script.TranslationOf` and `Pcr.ProteinOf` rather than calling the loop methods. Each method is
  proved to return exactly that function's value.
- `print_analysis_results`, `input()` and the `__main__` block of pcr.py, which are console I/O.
- Script.AnalyzeDna: the contract does not state the shares. `Genetics.PercentagesSum` states that they add up to 100.
- Pcr.AnalyzeDna: the contract does not state the shares. `Genetics.PercentagesSum` states that they add up to 100.
