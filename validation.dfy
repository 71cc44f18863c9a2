/**
 * `validate_sequences` (app/app.py): the limits a submission must meet
 * before any prediction runs, reported as a list of errors.
 */
module Validation {
  import opened Text
  import opened Residues
  import opened Fasta

  const MaxSequences: nat := 50
  const MaxTotalLength: nat := 300000
  const MinLength: nat := 10
  const MaxLength: nat := 6000

  /**
   * One message of the error list. The offending characters are kept as a
   * set: the order Python joins them in is that of set iteration.
   */
  datatype ValidationError =
    | TooMany
    | TotalTooLong
    | TooShort(name: string)
    | TooLong(name: string)
    | InvalidChars(name: string, chars: set<char>)

  /** `sum(len(seq) for seq in sequences.values())`. */
  function TotalLength(d: Dict): nat {
    if d == [] then 0 else TotalLength(d[..|d| - 1]) + |d[|d| - 1].1|
  }

  /** `set(seq.upper()) - valid_aa`. */
  function ForeignChars(s: string): set<char> {
    set i | 0 <= i < |s| && Upper(s[i]) !in Alphabet :: Upper(s[i])
  }

  /** The foreign characters are the upper-cased characters of `s` outside the alphabet. */
  lemma ForeignCharsSpec(s: string, c: char)
    ensures c in ForeignChars(s) <==> c !in Alphabet && exists i :: 0 <= i < |s| && Upper(s[i]) == c
  {
  }

  /** The errors one sequence adds: at most one about its length, "too short" first, then one about its characters. */
  function EntryErrors(name: string, s: string): seq<ValidationError> {
    (if |s| < MinLength then [TooShort(name)] else if |s| > MaxLength then [TooLong(name)] else []) +
    (if ForeignChars(s) != {} then [InvalidChars(name, ForeignChars(s))] else [])
  }

  /**
   * One sequence yields at most one length error, "too short" winning over
   * "too long", and one character error exactly when some character is
   * foreign; never a count or total error.
   */
  lemma EntryErrorsSpec(name: string, s: string)
    ensures var r := EntryErrors(name, s);
      && |r| <= 2
      && (forall e :: e in r ==> IsEntryError(e))
      && (TooShort(name) in r <==> |s| < MinLength)
      && (TooLong(name) in r <==> MinLength <= |s| && MaxLength < |s|)
      && ((exists cs :: InvalidChars(name, cs) in r) <==> ForeignChars(s) != {})
  {
    var r := EntryErrors(name, s);
    if ForeignChars(s) != {} {
      assert InvalidChars(name, ForeignChars(s)) in r;
    }
  }

  predicate IsEntryError(e: ValidationError) {
    !e.TooMany? && !e.TotalTooLong?
  }

  /** The per-sequence errors, sequence by sequence in insertion order. */
  function EntriesErrors(d: Dict): seq<ValidationError> {
    if d == [] then [] else EntriesErrors(d[..|d| - 1]) + EntryErrors(d[|d| - 1].0, d[|d| - 1].1)
  }

  /** The errors about the whole submission: the count error, then the total error. */
  function LimitErrors(d: Dict): seq<ValidationError> {
    (if |d| > MaxSequences then [TooMany] else []) +
    (if TotalLength(d) > MaxTotalLength then [TotalTooLong] else [])
  }

  /** What `validate_sequences(d)` returns: the count error, the total error, then the per-sequence errors. */
  function ValidationErrors(d: Dict): seq<ValidationError> {
    LimitErrors(d) + EntriesErrors(d)
  }

  /** `validate_sequences`. */
  method ValidateSequences(sequences: Dict) returns (errors: seq<ValidationError>)
    ensures errors == ValidationErrors(sequences)
  {
    errors := CheckLimits(sequences);
    assert sequences[..0] == [];
    for i := 0 to |sequences|
      invariant errors == LimitErrors(sequences) + EntriesErrors(sequences[..i])
    {
      var name, s := sequences[i].0, sequences[i].1;
      var found := CheckEntry(name, s);
      EntriesStep(sequences, i);
      errors := errors + found;
    }
    assert sequences[..|sequences|] == sequences;
  }

  /** The two checks on the whole submission, in the order they are made. */
  method CheckLimits(sequences: Dict) returns (errors: seq<ValidationError>)
    ensures errors == LimitErrors(sequences)
  {
    errors := [];
    if |sequences| > MaxSequences {
      errors := errors + [TooMany];
    }
    var totalLength := TotalLength(sequences);
    if totalLength > MaxTotalLength {
      errors := errors + [TotalTooLong];
    }
  }

  /** The body of the per-sequence loop: the errors one sequence adds. */
  method CheckEntry(name: string, s: string) returns (found: seq<ValidationError>)
    ensures found == EntryErrors(name, s)
  {
    found := [];
    if |s| < MinLength {
      found := found + [TooShort(name)];
    } else if |s| > MaxLength {
      found := found + [TooLong(name)];
    }
    var invalidChars := ForeignChars(s);
    if invalidChars != {} {
      found := found + [InvalidChars(name, invalidChars)];
    }
  }

  lemma EntriesStep(d: Dict, i: nat)
    requires i < |d|
    ensures EntriesErrors(d[..i + 1]) == EntriesErrors(d[..i]) + EntryErrors(d[i].0, d[i].1)
  {
    assert d[..i + 1][..i] == d[..i];
  }

  // ----- What the validator promises -----

  /** A sequence the validator accepts on its own: length within bounds, only canonical residues once upper-cased. */
  predicate Acceptable(s: string) {
    MinLength <= |s| <= MaxLength && forall j :: 0 <= j < |s| ==> Upper(s[j]) in Alphabet
  }

  lemma EntryErrorsEmpty(name: string, s: string)
    ensures EntryErrors(name, s) == [] <==> Acceptable(s)
  {
    if forall j :: 0 <= j < |s| ==> Upper(s[j]) in Alphabet {
      assert ForeignChars(s) == {};
    } else {
      var j :| 0 <= j < |s| && Upper(s[j]) !in Alphabet;
      assert Upper(s[j]) in ForeignChars(s);
    }
  }

  lemma {:induction false} EntriesErrorsEmpty(d: Dict)
    ensures EntriesErrors(d) == [] <==> forall i :: 0 <= i < |d| ==> Acceptable(d[i].1)
  {
    if d != [] {
      var init := d[..|d| - 1];
      var last := d[|d| - 1];
      EntriesErrorsEmpty(init);
      EntryErrorsEmpty(last.0, last.1);
      EntryErrorsSpec(last.0, last.1);
      assert forall i :: 0 <= i < |init| ==> init[i] == d[i];
    }
  }

  /**
   * The error list is empty exactly when there are at most 50 sequences, of
   * total length at most 300000, each of length 10 to 6000 and made of
   * canonical residues once upper-cased.
   */
  lemma ValidIff(d: Dict)
    ensures ValidationErrors(d) == [] <==>
      |d| <= MaxSequences && TotalLength(d) <= MaxTotalLength && forall i :: 0 <= i < |d| ==> Acceptable(d[i].1)
  {
    EntriesErrorsEmpty(d);
  }

  /** Sequences of at most 6000 residues each add up to at most 6000 per sequence. */
  lemma {:induction false} TotalBound(d: Dict)
    requires forall i :: 0 <= i < |d| ==> |d[i].1| <= MaxLength
    ensures TotalLength(d) <= MaxLength * |d|
  {
    if d != [] {
      var init := d[..|d| - 1];
      assert forall i :: 0 <= i < |init| ==> init[i] == d[i];
      TotalBound(init);
    }
  }

  lemma {:induction false} EntriesErrorsOnly(d: Dict)
    ensures forall e :: e in EntriesErrors(d) ==> IsEntryError(e)
  {
    if d != [] {
      EntriesErrorsOnly(d[..|d| - 1]);
      EntryErrorsSpec(d[|d| - 1].0, d[|d| - 1].1);
    }
  }

  /** A sequence longer than 6000 residues is reported as too long. */
  lemma {:induction false} TooLongReported(d: Dict, k: nat)
    requires k < |d| && |d[k].1| > MaxLength
    ensures TooLong(d[k].0) in EntriesErrors(d)
  {
    var init := d[..|d| - 1];
    if k < |init| {
      assert init[k] == d[k];
      TooLongReported(init, k);
    } else {
      EntryErrorsSpec(d[k].0, d[k].1);
    }
  }

  /**
   * 50 sequences of 6000 residues are exactly 300000, so the total-length
   * error never comes alone: with it come the count error or some
   * sequence's "too long" error.
   */
  lemma TotalErrorNeverAlone(d: Dict)
    ensures TotalTooLong in ValidationErrors(d) ==>
      TooMany in ValidationErrors(d) || exists i :: 0 <= i < |d| && TooLong(d[i].0) in ValidationErrors(d)
  {
    EntriesErrorsOnly(d);
    if forall i :: 0 <= i < |d| ==> |d[i].1| <= MaxLength {
      TotalBound(d);
    } else {
      var k :| 0 <= k < |d| && |d[k].1| > MaxLength;
      TooLongReported(d, k);
    }
  }

  /** A sequence the parser stored never draws a character error: the two ends of the intake agree on the alphabet. */
  lemma ParsedHaveNoForeignChars(text: string, i: nat)
    requires i < |ParseFasta(text)|
    ensures ForeignChars(ParseFasta(text)[i].1) == {}
  {
    ParsedSequencesClean(text);
    var s := ParseFasta(text)[i].1;
    forall j | 0 <= j < |s| ensures Upper(s[j]) == s[j] {
      ResidueIsCapital(s[j]);
    }
  }
}
