/**
 * The residue encoder of `EpitopePredictor` (app/model_predictor.py): the
 * amino-acid table built by the constructor, `encode_sequence`, and the
 * cleaning step that `predict_epitopes` applies before prediction.
 */
module Residues {
  import opened Text

  /** The twenty canonical amino acids, in the order of their codes 1..20. */
  const Alphabet: string := "ACDEFGHIKLMNPQRSTVWY"

  /** `amino_acid_to_num`: the canonical residues plus `X`, the explicit unknown. */
  const AminoAcidToNum: map<char, int> := map[
    'A' := 1, 'C' := 2, 'D' := 3, 'E' := 4, 'F' := 5, 'G' := 6, 'H' := 7, 'I' := 8,
    'K' := 9, 'L' := 10, 'M' := 11, 'N' := 12, 'P' := 13, 'Q' := 14, 'R' := 15,
    'S' := 16, 'T' := 17, 'V' := 18, 'W' := 19, 'Y' := 20, 'X' := 0]

  /** `amino_acid_to_num.get(c.upper(), 0)`. */
  function CodeOf(c: char): (k: int)
    ensures 0 <= k <= 20
    ensures k != 0 <==> Upper(c) in Alphabet
  {
    if Upper(c) in AminoAcidToNum then AminoAcidToNum[Upper(c)] else 0
  }

  /** `encode_sequence`: one code per character, position for position. */
  function Encode(s: string): (r: seq<int>)
    ensures |r| == |s|
    ensures forall i :: 0 <= i < |s| ==> 0 <= r[i] <= 20 && r[i] == CodeOf(s[i])
  {
    seq(|s|, i requires 0 <= i < |s| => CodeOf(s[i]))
  }

  /** The table's keys are the canonical residues and `X`. */
  lemma TableKeys()
    ensures AminoAcidToNum.Keys == set c | c in Alphabet + "X"
  {
  }

  /** The table gives the i-th canonical residue the code i + 1, and `X` the code 0. */
  lemma TableMatchesAlphabet()
    ensures AminoAcidToNum['X'] == 0
    ensures forall i :: 0 <= i < |Alphabet| ==> AminoAcidToNum[Alphabet[i]] == i + 1
  {
  }

  /** The table's keys are capital letters. */
  lemma TableKeyIsCapital(c: char)
    requires c in AminoAcidToNum
    ensures 'A' <= c <= 'Z'
  {
  }

  /** Only `X` has the code 0. */
  lemma TableZeroOnlyX(c: char)
    requires c in AminoAcidToNum
    ensures AminoAcidToNum[c] == 0 <==> c == 'X'
  {
  }

  /** Codes of canonical residues decode back: the encoding is one-to-one on the alphabet. */
  lemma CodeRoundTrip(c: char)
    requires c in Alphabet
    ensures 1 <= CodeOf(c) <= 20 && Alphabet[CodeOf(c) - 1] == c
  {
    var i :| 0 <= i < |Alphabet| && Alphabet[i] == c;
    ResidueIsCapital(c);
    assert Upper(c) == c;
    TableMatchesAlphabet();
    assert CodeOf(c) == i + 1;
  }

  /** The canonical residues are capital letters. */
  lemma ResidueIsCapital(c: char)
    requires c in Alphabet
    ensures 'A' <= c <= 'Z'
  {
  }

  /** A lower-case letter encodes as its capital: `encode_sequence` ignores case. */
  lemma {:induction false} EncodeIgnoresCase(s: string)
    ensures Encode(UpperString(s)) == Encode(s)
  {
    var u := UpperString(s);
    forall i | 0 <= i < |s| ensures CodeOf(u[i]) == CodeOf(s[i]) {
      UpperIdempotent(s[i]);
    }
  }

  lemma UpperIdempotent(c: char)
    ensures Upper(Upper(c)) == Upper(c)
  {
  }

  /** The set of characters the cleaner of `predict_epitopes` keeps, after upper-casing. */
  predicate IsTableKey(c: char) {
    c in AminoAcidToNum
  }

  /**
   * The cleaning of `predict_epitopes`: upper-case every character and keep
   * those that are keys of the table, `X` included.
   */
  function Clean(s: string): (r: string)
    ensures |r| <= |s|
    ensures forall i :: 0 <= i < |r| ==> IsTableKey(r[i])
  {
    if s == [] then []
    else (if IsTableKey(Upper(s[0])) then [Upper(s[0])] else []) + Clean(s[1..])
  }

  /** Cleaning keeps a string already made of table keys, so it is idempotent. */
  lemma {:induction false} CleanKeepsClean(s: string)
    requires forall i :: 0 <= i < |s| ==> IsTableKey(s[i])
    ensures Clean(s) == s
  {
    if s != [] {
      assert Upper(s[0]) == s[0];
      CleanKeepsClean(s[1..]);
    }
  }

  lemma CleanIdempotent(s: string)
    ensures Clean(Clean(s)) == Clean(s)
  {
    CleanKeepsClean(Clean(s));
  }

  /** Every character of a cleaned sequence encodes to its table code; only `X` gives 0. */
  lemma CleanEncodesByTable(s: string)
    ensures forall i :: 0 <= i < |Clean(s)| ==>
      Encode(Clean(s))[i] == AminoAcidToNum[Clean(s)[i]] &&
      (Encode(Clean(s))[i] == 0 <==> Clean(s)[i] == 'X')
  {
    var r := Clean(s);
    forall i | 0 <= i < |r|
      ensures Encode(r)[i] == AminoAcidToNum[r[i]] && (Encode(r)[i] == 0 <==> r[i] == 'X')
    {
      assert IsTableKey(r[i]);
      TableKeyIsCapital(r[i]);
      assert Upper(r[i]) == r[i];
      TableZeroOnlyX(r[i]);
    }
  }
}
