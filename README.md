# Epitope predictor core, modelled in Dafny

This project models two parts of a web application that predicts B-cell and
T-cell epitopes in protein sequences.

**The inference engine, `EpitopePredictor` in `app/model_predictor.py`.**
- The constructor sets up the amino-acid table, windows of 20 residues, a
  stride of 1 and a confidence threshold of 0.5.
- `encode_sequence` turns residues into codes 0..20.
- `sliding_window_prediction` cuts the sequence into windows and scores them
  in one batch with the trained network. A window whose top class is B-cell-
  or T-cell-positive, with enough confidence, goes into that class's list.
- `predict_epitopes` cleans the input and predicts under a threshold that it
  may override. It sorts both lists by confidence with Python's stable sort,
  then restores the stored threshold.
- `get_sequence_markup` projects a list of calls back onto the sequence, one
  character per residue.
- `set_confidence_threshold` stores a new threshold when it lies in [0, 1].

**The input intake, in `app/app.py`.**
- `parse_fasta_text` turns FASTA text into an ordered dict of cleaned
  sequences.
- `validate_sequences` checks a submission against its limits: 50
  sequences, 300000 residues in total, 10 to 6000 residues each, canonical
  residues only.
- `allowed_file` decides which uploaded file names are taken.

**Modules and files.**
- `Wrappers` (wrappers.dfy): `Option` and `Result`.
- `Seqs` (seqs.dfy): two generic facts about splitting a sequence before its
  last element.
- `Text` (text.dfy): the Python `str` operations the code relies on, namely
  `isspace`, `upper`, `lower`, `strip`, `split` and `join`.
- `Decimal` (decimal.dfy): `str(n)` and `int(s)` on natural numbers.
- `Residues` (residues.dfy): the amino-acid table, `encode_sequence`, and the
  cleaning step of `predict_epitopes`.
- `Selection` (selection.dfy): the specification of the engine, meaning the
  windows, the decision rule and the two lists.
- `Ranking` (ranking.dfy): the stable sort by confidence.
- `Markup` (markup.dfy): what the markup computes.
- `Predictor` (predictor.dfy): the `EpitopePredictor` class. Its methods are
  loops proved against the functions above.
- `Fasta` (fasta.dfy), `Validation` (validation.dfy) and `Upload`
  (upload.dfy): the three intake functions.
- `Scenarios` (scenarios.dfy): the two-record FASTA text of
  `app/test_app.py`, worked through the parser and the validator.

**How the environment is modelled.**
- The trained network is a parameter of the class, `model: Model`. It maps a
  batch of encoded windows to one probability vector of four reals per
  window, or to `None` when prediction raises.
- Python exceptions are `Err` values:
  - `ClassifierFailed` when the network raises;
  - `BadRange` for a range string that `map(int, r.split('-'))` cannot unpack
    into two numbers;
  - `IndexOutOfRange` for `markup[-1]` on an empty sequence;
  - `ThresholdOutOfRange` for the `ValueError` of `set_confidence_threshold`.
- A Python dict is an association list in insertion order. Storing under a
  key that is already present replaces the value in place.

**How the intake is modelled.**
- The FASTA parser is a step function over the lines (`Step`), folded by
  `Scan`. `ParseFastaText` is the loop itself, proved equal to that fold.
- A range whose first number is 0, such as `"0-5"`, makes the markup loop
  start at index -1, so it also writes the last residue. The model keeps this
  behaviour (`Markup.Writes`). The engine itself only prints ranges starting
  at 1, so marking up the sequence the engine ran on with the engine's own lists
  never meets it (`Predictor.PredictedMarkup`).

## Model

| member | source | states |
|---|---|---|
| Predictor.EpitopePredictor.constructor | app/model_predictor.py:38-58 | a new predictor has windows of 20 residues, stride 1 and threshold 0.5, around the given network |
| Residues.TableKeys | app/model_predictor.py:38-42 | the table's keys are exactly the 20 canonical residues and `X` |
| Residues.TableMatchesAlphabet | app/model_predictor.py:38-42 | the i-th residue of `ACDEFGHIKLMNPQRSTVWY` has code i + 1 and `X` has code 0 |
| Residues.TableZeroOnlyX | app/model_predictor.py:38-42 | among the table's keys only `X` has the code 0 |
| Residues.CodeRoundTrip | app/model_predictor.py:38-42 | a canonical residue's code lies in 1..20 and indexes the residue back in the alphabet, so the code is one-to-one |
| Residues.CodeOf | app/model_predictor.py:133 | one character's code lies in 0..20, and it is non-zero exactly when the upper-cased character is a canonical residue |
| Residues.Encode | app/model_predictor.py:133 | `encode_sequence` gives one code per character, position for position, each in 0..20 |
| Residues.EncodeIgnoresCase | app/model_predictor.py:133 | encoding the upper-cased sequence gives the same codes, so lower-case letters encode like capitals |
| Text.Upper | app/model_predictor.py:133 | `upper()` yields an ASCII capital exactly for ASCII letters, dotless i and long s; a lower-case ASCII letter moves down by 32 |
| Residues.Clean | app/model_predictor.py:228 | the cleaned sequence is never longer than the input, and every character in it is a key of the table |
| Residues.CleanKeepsClean | app/model_predictor.py:228 | a sequence made only of table keys is left unchanged by cleaning |
| Residues.CleanIdempotent | app/model_predictor.py:228 | cleaning twice is cleaning once |
| Residues.CleanEncodesByTable | app/model_predictor.py:228 | each character of a cleaned sequence encodes to its table code, and only `X` gives 0 |
| Selection.ArgMax | app/model_predictor.py:186 | `np.argmax` is the first index holding the largest probability |
| Selection.WindowsFromCount | app/model_predictor.py:157 | `range(i, n - w + 1, step)` yields no window when the first does not fit, otherwise c windows with (c - 1)·step ≤ n - w - i < c·step |
| Selection.WindowsFromAt | app/model_predictor.py:157-161 | the k-th window starts k strides after the first and spans w residues |
| Selection.UnitStrideWindows | app/model_predictor.py:157-161 | with stride 1 a sequence of length n ≥ w has exactly n - w + 1 windows, the k-th being [k, k + w) |
| Selection.WindowStartsIncrease | app/model_predictor.py:157 | window starts strictly increase |
| Selection.LongSequenceHasWindows | app/model_predictor.py:157-161 | a sequence at least as long as the window has the first window [0, w) |
| Selection.EncodedWindows | app/model_predictor.py:158-160 | one encoded window per position, in the order of the positions |
| Selection.ShortSequenceYieldsNothing | app/model_predictor.py:149-151 | a sequence shorter than the window yields two empty lists, whatever the network would answer, even one that always fails |
| Decimal.NatToString | app/model_predictor.py:193 | `str(n)` is a non-empty string of digits without a leading zero |
| Decimal.ParseNatToString | app/model_predictor.py:263 | `int(str(n)) == n` |
| Decimal.ParseNat | app/model_predictor.py:263 | `int(s)` reads a number exactly when `s` is a non-empty string of digits |
| Decimal.NatToStringInjective | app/model_predictor.py:193 | distinct numbers print differently |
| Selection.RangeTextRoundTrip | app/model_predictor.py:193 | the range `f"{start+1}-{end}"` splits at `-` and reads back as (start + 1, end) |
| Selection.RangesIdentifyWindows | app/model_predictor.py:193 | two windows of one sequence never print the same range |
| Selection.SelectMembership | app/model_predictor.py:185-198 | a call is in a list exactly when some scored window produced it and passed the rule for that list's class |
| Selection.SelectedConfidence | app/model_predictor.py:191 | every listed call has a confidence of at least the threshold |
| Selection.WindowCallListed | app/model_predictor.py:185-198 | a window's call is in a list exactly when that window passes the rule for the list's class |
| Selection.BucketRule | app/model_predictor.py:186-198 | a window is in the B-cell list iff its top class is 1 with confidence ≥ threshold, and in the T-cell list iff it is 3; never in both; classes 0 and 2 give nothing |
| Selection.BucketsDisjoint | app/model_predictor.py:195-198 | no call is in both lists |
| Selection.CallShape | app/model_predictor.py:192-193 | every listed call shows the residues [a, a + w) of the sequence, its range reads back as a + 1 to a + w, and its confidence reaches the threshold |
| Selection.SelectedShape | app/model_predictor.py:192-193 | a call selected among windows of width w shows some window [a, a + w), with confidence at least the threshold |
| Selection.MakeCallCovers | app/model_predictor.py:192-193 | the call made from a window shows exactly that window and names it by its 1-based range |
| Selection.RaisingThresholdFilters | app/model_predictor.py:191 | the list under a higher threshold is the list under a lower one without its entries below the higher threshold |
| Selection.RaisingThresholdNeverAdds | app/model_predictor.py:186-198 | raising the threshold never adds a call: both lists shrink to their entries at or above the new threshold, and success does not depend on the threshold |
| Selection.StartKeyOfCall | app/model_predictor.py:193 | a window's call reads back as starting at the window's 1-based first position |
| Selection.SelectStartsIncrease | app/model_predictor.py:185-198 | each list, as the engine builds it, runs in strictly increasing window start |
| Selection.SelectStartsIncreaseFrom | app/model_predictor.py:185-198 | over any windows with increasing starts, the selected calls run in increasing start, none beyond the last window considered |
| Predictor.WindowBatch | app/model_predictor.py:154-161 | the first loop builds exactly the windows of `range(0, len - w + 1, step)` and the encoded residues of each |
| Predictor.Classify | app/model_predictor.py:185-198 | the second loop builds exactly the lists of the decision rule, pairing scores with windows as `zip` does |
| Predictor.EpitopePredictor.SlidingWindowPrediction | app/model_predictor.py:135-206 | the result is the engine's specification `Prediction` for the predictor's window, stride and threshold; a short sequence gives two empty lists |
| Ranking.SortByConfidence | app/model_predictor.py:237-238 | sorting keeps the same calls, as a multiset |
| Ranking.SortIsSorted | app/model_predictor.py:237-238 | the sorted list has non-increasing confidence |
| Ranking.SortIsStable | app/model_predictor.py:237-238 | for every confidence value, the calls having it keep their relative order |
| Ranking.SortSpec | app/model_predictor.py:237-238 | sorting is a permutation, sorted by non-increasing confidence, and stable |
| Ranking.SortKeepsTiesOrdered | app/model_predictor.py:237-238 | ties ordered by any key before sorting stay ordered by it after sorting |
| Predictor.EpitopePredictor.PredictEpitopes | app/model_predictor.py:208-246 | the result is the ranked prediction on the cleaned sequence under the override threshold, or the stored one; the stored threshold, window and stride are as before, on success and on failure |
| Predictor.IncreasingTiesOrdered | app/model_predictor.py:237-238 | a list in increasing start keeps its ties in start order |
| Predictor.EngineListOrdered | app/model_predictor.py:185-198 | within each list the engine builds, calls of equal confidence are in window order |
| Predictor.RankedPrediction | app/model_predictor.py:234-238 | ranking fails exactly when the engine fails; otherwise each list is the engine's list, sorted by confidence, with ties in window order |
| Predictor.FoundCallIsWindow | app/model_predictor.py:192-193 | every call the engine lists shows a window of the sequence |
| Markup.CoveredIff | app/model_predictor.py:262-270 | a residue is marked exactly when the range of some call of the list writes it |
| Markup.FirstFailureOfPrefix | app/model_predictor.py:262-263 | once a prefix of the calls raises, the whole list raises the same error, since the loop stops at the first failing call |
| Markup.WindowCallMarks | app/model_predictor.py:263-270 | a call that shows window [a, a + w) never raises and marks exactly the residues of that window |
| Markup.WindowCallsNeverFail | app/model_predictor.py:262-270 | markup over calls that show windows of the sequence never raises |
| Markup.WindowCallsMarkup | app/model_predictor.py:262-270 | over such calls, a residue is marked exactly when one call's window contains it |
| Predictor.MarkRange | app/model_predictor.py:268-270 | the inner loop writes the marker on the slots from lo - 1 to min(hi, len) - 1, and also the last slot when lo is 0; it fails only for lo = 0 on an empty sequence; other slots are unchanged |
| Predictor.CoveredStep | app/model_predictor.py:262-270 | one more call marks what was marked before plus what its own range writes |
| Predictor.EpitopePredictor.GetSequenceMarkup | app/model_predictor.py:248-272 | the markup fails exactly when some call raises, with the first call's error; otherwise it has one character per residue, the marker where some call's range covers it and `.` elsewhere |
| Predictor.PredictedMarkup | app/model_predictor.py:248-272 | marking up the sequence the engine ran on (for `predict_epitopes`, the cleaned sequence) with one of its ranked lists never fails, and marks a residue exactly when it lies in a listed call's window |
| Predictor.EpitopePredictor.SetConfidenceThreshold | app/model_predictor.py:274-284 | the threshold is stored exactly when 0 ≤ t ≤ 1; otherwise the call fails and the old value stays |
| Text.StripSpec | app/app.py:302-303 | `strip()` keeps the slice between leading and trailing whitespace; everything outside is whitespace and the slice starts and ends with non-whitespace |
| Text.TrimStartSpec | app/app.py:302-303 | `lstrip` leaves the suffix that starts at the first non-space character |
| Text.TrimEndSpec | app/app.py:302-303 | `rstrip` leaves the prefix that ends at the last non-space character |
| Text.StripEmptyIff | app/app.py:309 | a stripped line is empty exactly when the line is all whitespace |
| Text.StripKeeps | app/app.py:303 | text that neither starts nor ends with whitespace is left as it is |
| Text.Split | app/app.py:302 | joining the pieces of `split` with the separator gives back the text |
| Text.SplitJoin | app/app.py:302 | splitting joined pieces that do not contain the separator gives back the pieces |
| Text.UpperString | app/app.py:340 | `seq.upper()`, modelled character by character: each character is replaced by its upper case (see `Text.UpperString` under Left out) |
| Text.LowerString | app/app.py:57 | `lower()`, modelled character by character: each character is replaced by its lower case (see `Text.LowerString` under Left out) |
| Fasta.Lookup | app/app.py:306 | the dict read the `Store` lemmas are stated with (`k in d`, `d[k]`): it finds nothing exactly when `k` is not a key |
| Fasta.StoreLookup | app/app.py:306 | after `d[k] = v`, `d[k]` reads `v` |
| Fasta.StoreOthers | app/app.py:306 | `d[k] = v` leaves every other key's value as it was |
| Fasta.StoreKeys | app/app.py:306 | `d[k] = v` keeps the key order; a new key goes last, and a key already present keeps its place |
| Fasta.StoreFresh | app/app.py:306 | storing under a new key appends the pair |
| Fasta.StoreDistinct | app/app.py:306 | the dict never holds a name twice |
| Fasta.CleanLine | app/app.py:311 | a cleaned line is never longer than the line and holds only canonical residues |
| Fasta.CleanLineAppend | app/app.py:311 | cleaning a concatenation cleans each part, one character at a time |
| Fasta.CleanLineFixed | app/app.py:311 | a line is left unchanged exactly when it consists of canonical residues only |
| Fasta.CleanLineUppercases | app/app.py:311 | a lower-case residue letter is kept as its capital |
| Fasta.RecordName | app/app.py:307 | a record's name is never empty |
| Fasta.ParseFastaText | app/app.py:295-318 | the loop computes `ParseFasta`: the fold of the per-line step over `text.strip().split('\n')`, then the final flush |
| Fasta.ScanStep | app/app.py:302-312 | one more line is one more step of the loop |
| Fasta.ParsedSequencesClean | app/app.py:311 | every stored sequence is made only of upper-case canonical residues, and no name is stored twice |
| Fasta.LinesBeforeHeaderIgnored | app/app.py:309 | lines before the first header leave the parser as it started |
| Fasta.HeaderOpensRecord | app/app.py:304-308 | a header flushes the open record and opens a new, empty one named by `RecordName` after the records stored so far |
| Fasta.ScanRun | app/app.py:302 | scanning `lines + body` is scanning `lines`, then continuing over `body` |
| Fasta.BodyAppends | app/app.py:309-312 | lines after a header that are not headers add their cleaned text to the open record, and blank lines add nothing |
| Fasta.BodyLineStep | app/app.py:309-312 | inside a record, a line that opens no record appends its cleaned text as one chunk, or nothing when it is blank |
| Fasta.ScanClean | app/app.py:302-312 | after any lines, the stored sequences and the open chunks hold only canonical residues, and the stored names are distinct |
| Fasta.RecordStored | app/app.py:304-315 | a header and its body lines store, once flushed, the concatenation of the cleaned lines under the header's name, or nothing when every body line is blank |
| Fasta.BodyChunksEmpty | app/app.py:305 | a record adds no chunk exactly when all its body lines are blank |
| Validation.ForeignCharsSpec | app/app.py:339-340 | the invalid characters are the upper-cased characters of the sequence outside the 20-letter alphabet |
| Validation.EntryErrorsSpec | app/app.py:333-342 | one sequence yields at most one length error, "too short" taking precedence over "too long", and a character error exactly when it has invalid characters |
| Validation.CheckLimits | app/app.py:325-330 | the count error comes when there are more than 50 sequences, then the total error when the total exceeds 300000 |
| Validation.CheckEntry | app/app.py:333-342 | the per-sequence loop body adds exactly that sequence's errors |
| Validation.ValidateSequences | app/app.py:320-349 | the errors are the count error, the total error, then each sequence's errors in insertion order |
| Validation.EntryErrorsEmpty | app/app.py:333-342 | a sequence draws no error exactly when its length lies in [10, 6000] and all its upper-cased characters are canonical residues |
| Validation.EntriesErrorsEmpty | app/app.py:332-342 | no per-sequence error exactly when every sequence is acceptable on its own |
| Validation.ValidIff | app/app.py:325-344 | the error list is empty iff there are at most 50 sequences, of total length at most 300000, each of 10 to 6000 characters whose upper cases, one for one, are canonical residues (see `Validation.ValidIff` under Left out) |
| Validation.TotalBound | app/app.py:328 | sequences of at most 6000 residues add up to at most 6000 per sequence |
| Validation.EntriesErrorsOnly | app/app.py:332-342 | the per-sequence loop never adds a count or total error |
| Validation.TooLongReported | app/app.py:335-336 | a sequence longer than 6000 residues is reported as too long |
| Validation.TotalErrorNeverAlone | app/app.py:325-336 | the total-length error never comes alone: with it come the count error or some sequence's "too long" error |
| Validation.ParsedHaveNoForeignChars | app/app.py:339-341 | a sequence the parser stored never draws an invalid-character error |
| Scenarios.TwoRecordLines | app/app.py:302 | two records separated by a blank line split into the lines header, body, blank, header, body |
| Scenarios.TwoRecordsParse | app/app.py:295-318 | two records with distinct names and residue bodies, separated by a blank line, parse to those two records in order |
| Scenarios.TestFastaParses | app/test_app.py:94-100 | the test's FASTA text parses to `Test_Sequence_1` and `Test_Sequence_2` with their bodies |
| Scenarios.TestFastaValid | app/test_app.py:100-108 | the parsed test input draws no validation error |
| Upload.Extension | app/app.py:57 | `rsplit('.', 1)[1]` is present exactly when the name has a dot; it contains no dot and is what follows the last dot |
| Upload.ExtensionOfName | app/app.py:57 | the extension of `stem + "." + ext` is `ext` whenever `ext` has no dot |
| Upload.AllowedFileIff | app/app.py:54-57 | `stem.ext` is accepted exactly when `ext`, lower-cased, is `txt`, `fasta`, `fa` or `fas` |
| Upload.NoDotRejected | app/app.py:57 | a name without a dot is rejected |
| Upload.UpperCaseAccepted | app/app.py:57 | `proteins.FASTA` is accepted |

## Left out

- Flask routes, templates, `flash`, file uploads and downloads, JSON results files and `download_csv`: HTTP plumbing and file I/O around the core.
- `_load_model`, TensorFlow/Keras inference and the test prediction at load time: foreign library calls. The network is the `model` parameter, and `predict(..., batch_size=64)` is one batch call, since the batch size has no observable effect.
- The two ways of calling the network, `model.predict` or a SavedModel called directly (app/model_predictor.py:176-180), are one call of the `model` parameter.
- `get_model_info` and the class table `class_mapping` as data. The table survives only as the order of `Selection.Label`.
- Logging everywhere.
- Floating point: probabilities are mathematical reals. NaN, rounding and `float(confidence)` are not modelled.
- The branch `if not subseq_list` (app/model_predictor.py:163-165) cannot run once the sequence is at least as long as the window and the stride is positive, so the model has no path for it.
- Text.Upper: multi-character upper cases of Python's `str.upper()` are not modelled. For example U+FB06 upper-cases to `ST`: the FASTA cleaner (app/app.py:311) keeps it as two residues, while the cleaner of `predict_epitopes` (app/model_predictor.py:228) drops it, as the model does. Only the single-character cases that land in ASCII are modelled (dotless i, long s, and the Kelvin sign for `lower()`).
- Text.UpperString: the result always has the input's length. Python's `upper()` can lengthen a string (`'ß'.upper() == 'SS'`), and non-ASCII single-character upper cases (`é` to `É`) are left as the character itself.
- Text.LowerString: the result always has the input's length. Python's `lower()` can lengthen a string (`'İ'.lower()` is `i` followed by a combining dot), and non-ASCII lower cases other than the Kelvin sign are not modelled.
- Validation.ValidIff: the character test follows the one-for-one `Text.UpperString`. Python's `validate_sequences({"x": "ACDEFGHIKß"})` returns no error, since `set("ACDEFGHIKSS")` lies inside the alphabet, but the model reports `InvalidChars` with `ß`. The validator only ever receives parser output, which never contains such characters (`Validation.ParsedHaveNoForeignChars`).
- Decimal.ParseNat: `int()` is modelled on strings of ASCII digits only. Signs, surrounding whitespace, underscores and non-ASCII digits, which Python also accepts, are treated as unreadable.
- Text.IsSpace: `str.isspace()` is modelled by the explicit list of Unicode whitespace characters Python uses. `split('\n')` splits on `\n` alone, as Python does.
- Validation: error messages are a datatype rather than text. The invalid characters are kept as a set, because Python joins them in set-iteration order, which is unspecified.
- Fasta: `current_name` is truthy only when it is a non-empty string. The model holds it as an `Option` whose value is never empty (`Fasta.RecordName`).
- The loops of `sliding_window_prediction` are the helper methods `Predictor.WindowBatch` and `Predictor.Classify`. The inner loop of `get_sequence_markup` is `Predictor.MarkRange`. The two whole-submission checks of `validate_sequences` are `Validation.CheckLimits`. Each helper is proved against the same specification the inline code would be.
- `predict_epitopes` sorts the two lists in place. The model computes the sorted lists as values (`Ranking.SortByConfidence`, a stable insertion sort) and proves it a stable permutation.
- Predictor.EpitopePredictor.PredictEpitopes: the threshold given to a call is not range-checked, as in the source. Only `SetConfidenceThreshold` checks the range.
- Predictor.EpitopePredictor.GetSequenceMarkup: the unpacked `epitope` and `confidence` of each call are unused, as in the source; `epitope_type` only chooses the marker.
