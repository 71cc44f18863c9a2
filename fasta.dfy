/**
 * `parse_fasta_text` (app/app.py): FASTA text typed into the form becomes
 * an ordered mapping from record names to cleaned residue strings.
 */
module Fasta {
  import opened Wrappers
  import opened Text
  import opened Decimal
  import opened Residues
  import opened Seqs

  // ----- The `sequences` dict -----

  /**
   * A Python dict from names to sequences: keys in insertion order, and
   * storing under a key already present replaces its value in place.
   */
  type Dict = seq<(string, string)>

  function Keys(d: Dict): (r: seq<string>)
    ensures |r| == |d| && forall i :: 0 <= i < |d| ==> r[i] == d[i].0
  {
    if d == [] then [] else [d[0].0] + Keys(d[1..])
  }

  predicate DistinctKeys(d: Dict) {
    forall i, j :: 0 <= i < j < |d| ==> d[i].0 != d[j].0
  }

  /** Reading key `k` of the dict: `d[k]` when `k in d`, nothing otherwise. */
  function Lookup(d: Dict, k: string): (r: Option<string>)
    ensures r.None? <==> k !in Keys(d)
  {
    if d == [] then None
    else if d[0].0 == k then Some(d[0].1)
    else Lookup(d[1..], k)
  }

  /** `d[k] = v`. */
  function Store(d: Dict, k: string, v: string): Dict {
    if d == [] then [(k, v)]
    else if d[0].0 == k then [(k, v)] + d[1..]
    else [d[0]] + Store(d[1..], k, v)
  }

  /** The key is read back as the value stored under it. */
  lemma {:induction false} StoreLookup(d: Dict, k: string, v: string)
    ensures Lookup(Store(d, k, v), k) == Some(v)
  {
    if d != [] && d[0].0 != k {
      StoreLookup(d[1..], k, v);
      assert Store(d, k, v)[1..] == Store(d[1..], k, v);
    }
  }

  /** Every other key reads back what it read before. */
  lemma {:induction false} StoreOthers(d: Dict, k: string, v: string, k': string)
    requires k' != k
    ensures Lookup(Store(d, k, v), k') == Lookup(d, k')
  {
    if d != [] {
      assert Store(d, k, v)[1..] == if d[0].0 == k then d[1..] else Store(d[1..], k, v);
      if d[0].0 != k {
        StoreOthers(d[1..], k, v, k');
      }
    }
  }

  /** A key already present keeps its place; a new key goes last. */
  lemma {:induction false} StoreKeys(d: Dict, k: string, v: string)
    ensures Keys(Store(d, k, v)) == if k in Keys(d) then Keys(d) else Keys(d) + [k]
  {
    if d != [] && d[0].0 != k {
      var rest := Store(d[1..], k, v);
      StoreKeys(d[1..], k, v);
      assert Store(d, k, v) == [d[0]] + rest;
      assert ([d[0]] + rest)[1..] == rest;
      assert Keys(Store(d, k, v)) == [d[0].0] + Keys(rest);
      assert Keys(d) == [d[0].0] + Keys(d[1..]);
      assert (k in Keys(d)) == (k in Keys(d[1..]));
    }
  }

  /** Storing under a new key appends the pair. */
  lemma {:induction false} StoreFresh(d: Dict, k: string, v: string)
    requires k !in Keys(d)
    ensures Store(d, k, v) == d + [(k, v)]
  {
    if d != [] {
      StoreFresh(d[1..], k, v);
      assert d == [d[0]] + d[1..];
    }
  }

  /** Keys stay distinct when a value is stored, so the dict never holds a name twice. */
  lemma StoreDistinct(d: Dict, k: string, v: string)
    requires DistinctKeys(d)
    ensures DistinctKeys(Store(d, k, v))
  {
    var r := Store(d, k, v);
    StoreKeys(d, k, v);
    forall i, j | 0 <= i < j < |r| ensures r[i].0 != r[j].0 {
      assert Keys(r)[i] == r[i].0 && Keys(r)[j] == r[j].0;
      assert Keys(d)[i] == d[i].0;
      if j < |d| {
        assert Keys(d)[j] == d[j].0;
      }
    }
  }

  // ----- Cleaning one line -----

  /**
   * `''.join(c.upper() for c in line if c.upper() in 'ACDEFGHIKLMNPQRSTVWY')`:
   * each character upper-cased, kept only when it is a canonical residue.
   */
  function CleanLine(line: string): (r: string)
    ensures |r| <= |line|
    ensures forall i :: 0 <= i < |r| ==> r[i] in Alphabet
  {
    if line == [] then []
    else
      var init := line[..|line| - 1];
      var u := Upper(line[|line| - 1]);
      CleanLine(init) + (if u in Alphabet then [u] else [])
  }

  /** Cleaning a concatenation cleans each part: the cleaner looks at one character at a time. */
  lemma {:induction false} CleanLineAppend(a: string, b: string)
    ensures CleanLine(a + b) == CleanLine(a) + CleanLine(b)
    decreases |b|
  {
    if b == [] {
      assert a + b == a;
    } else {
      var b' := b[..|b| - 1];
      assert (a + b)[..|a + b| - 1] == a + b';
      assert (a + b)[|a + b| - 1] == b[|b| - 1];
      CleanLineAppend(a, b');
    }
  }

  /** A line is left as it is exactly when it is made of canonical residues only. */
  lemma CleanLineFixed(line: string)
    ensures CleanLine(line) == line <==> forall i :: 0 <= i < |line| ==> line[i] in Alphabet
  {
    if forall i :: 0 <= i < |line| ==> line[i] in Alphabet {
      CleanLineKeeps(line);
    }
  }

  lemma {:induction false} CleanLineKeeps(line: string)
    requires forall i :: 0 <= i < |line| ==> line[i] in Alphabet
    ensures CleanLine(line) == line
  {
    if line != [] {
      var init := line[..|line| - 1];
      var c := line[|line| - 1];
      assert forall i :: 0 <= i < |init| ==> init[i] in Alphabet by {
        forall i | 0 <= i < |init| ensures init[i] in Alphabet {
          assert init[i] == line[i];
        }
      }
      CleanLineKeeps(init);
      assert Upper(c) == c by {
        ResidueIsCapital(c);
      }
      assert CleanLine(line) == CleanLine(init) + [c];
      Snoc(line);
    }
  }

  /** Lower-case residues are kept as capitals. */
  lemma CleanLineUppercases(c: char)
    requires 'a' <= c <= 'z' && Upper(c) in Alphabet
    ensures CleanLine([c]) == [(c as int - 32) as char]
  {
    assert [c][..0] == [];
  }

  // ----- The parser -----

  /** `sequences`, `current_name` and `current_seq` between two lines. */
  datatype ParserState = ParserState(sequences: Dict, name: Option<string>, chunks: seq<string>)

  const Start: ParserState := ParserState([], None, [])

  /** `''.join(current_seq)`. */
  function Concat(chunks: seq<string>): string {
    if chunks == [] then [] else Concat(chunks[..|chunks| - 1]) + chunks[|chunks| - 1]
  }

  /** A stripped line that opens a record. */
  predicate IsHeader(line: string) {
    |line| > 0 && line[0] == '>'
  }

  /** A raw line that is a header once stripped. */
  predicate OpensRecord(raw: string) {
    IsHeader(Strip(raw))
  }

  /** The name a header gives its record: the text after `>`, or a placeholder numbered after the records stored so far. */
  function RecordName(header: string, stored: nat): (r: string)
    requires IsHeader(header)
    ensures r != []
  {
    var given := Strip(header[1..]);
    if given != [] then given else "Sequence_" + NatToString(stored + 1)
  }

  /** `if current_name and current_seq: sequences[current_name] = ''.join(current_seq)`. */
  function Flush(st: ParserState): Dict {
    if st.name.Some? && st.chunks != [] then Store(st.sequences, st.name.value, Concat(st.chunks)) else st.sequences
  }

  /** One pass of the loop body on the raw line `raw`. */
  function Step(st: ParserState, raw: string): ParserState {
    var line := Strip(raw);
    if IsHeader(line) then
      var d := Flush(st);
      ParserState(d, Some(RecordName(line, |d|)), [])
    else if line != [] && st.name.Some? then
      st.(chunks := st.chunks + [CleanLine(line)])
    else
      st
  }

  /** The state after the loop has taken the lines `lines`. */
  function Scan(lines: seq<string>): ParserState {
    if lines == [] then Start else Step(Scan(lines[..|lines| - 1]), lines[|lines| - 1])
  }

  /** The lines the loop runs over: `text.strip().split('\n')`. */
  function Lines(text: string): seq<string> {
    Split(Strip(text), '\n')
  }

  /** What `parse_fasta_text(text)` returns. */
  function ParseFasta(text: string): Dict {
    Flush(Scan(Lines(text)))
  }

  /** `parse_fasta_text`. */
  method ParseFastaText(text: string) returns (sequences: Dict)
    ensures sequences == ParseFasta(text)
  {
    sequences := [];
    var currentName: Option<string> := None;
    var currentSeq: seq<string> := [];
    var lines := Split(Strip(text), '\n');
    var i := 0;
    assert Scan(lines[..0]) == Start by {
      assert lines[..0] == [];
    }
    while i < |lines|
      invariant i <= |lines|
      invariant ParserState(sequences, currentName, currentSeq) == Scan(lines[..i])
    {
      ghost var before := ParserState(sequences, currentName, currentSeq);
      var line := Strip(lines[i]);
      if |line| > 0 && line[0] == '>' {
        if currentName.Some? && currentSeq != [] {
          sequences := Store(sequences, currentName.value, Concat(currentSeq));
        }
        assert sequences == Flush(before);
        currentName := Some(RecordName(line, |sequences|));
        currentSeq := [];
      } else if line != [] && currentName.Some? {
        var cleanSeq := CleanLine(line);
        currentSeq := currentSeq + [cleanSeq];
      }
      assert ParserState(sequences, currentName, currentSeq) == Step(before, lines[i]);
      ScanStep(lines, i);
      i := i + 1;
    }
    assert lines[..i] == lines;
    if currentName.Some? && currentSeq != [] {
      sequences := Store(sequences, currentName.value, Concat(currentSeq));
    }
  }

  lemma ScanStep(lines: seq<string>, i: nat)
    requires i < |lines|
    ensures Scan(lines[..i + 1]) == Step(Scan(lines[..i]), lines[i])
  {
    assert lines[..i + 1][..i] == lines[..i];
  }

  // ----- What the parser promises -----

  /** The state keeps only canonical residues, and each name at most once. */
  predicate StateClean(st: ParserState) {
    && DistinctKeys(st.sequences)
    && (forall i, j :: 0 <= i < |st.sequences| && 0 <= j < |st.sequences[i].1| ==> st.sequences[i].1[j] in Alphabet)
    && (forall k, j :: 0 <= k < |st.chunks| && 0 <= j < |st.chunks[k]| ==> st.chunks[k][j] in Alphabet)
  }

  lemma {:induction false} ConcatClean(chunks: seq<string>)
    requires forall k, j :: 0 <= k < |chunks| && 0 <= j < |chunks[k]| ==> chunks[k][j] in Alphabet
    ensures forall j :: 0 <= j < |Concat(chunks)| ==> Concat(chunks)[j] in Alphabet
  {
    if chunks != [] {
      var init := chunks[..|chunks| - 1];
      assert forall k, j :: 0 <= k < |init| && 0 <= j < |init[k]| ==> init[k][j] in Alphabet by {
        forall k, j | 0 <= k < |init| && 0 <= j < |init[k]| ensures init[k][j] in Alphabet {
          assert init[k] == chunks[k];
        }
      }
      ConcatClean(init);
    }
  }

  /** Storing a clean value under a name keeps the dict clean. */
  lemma StoreClean(d: Dict, k: string, v: string)
    requires forall i, j :: 0 <= i < |d| && 0 <= j < |d[i].1| ==> d[i].1[j] in Alphabet
    requires forall j :: 0 <= j < |v| ==> v[j] in Alphabet
    ensures forall i, j :: 0 <= i < |Store(d, k, v)| && 0 <= j < |Store(d, k, v)[i].1| ==> Store(d, k, v)[i].1[j] in Alphabet
    decreases |d|
  {
    if d != [] && d[0].0 != k {
      StoreClean(d[1..], k, v);
      assert Store(d, k, v) == [d[0]] + Store(d[1..], k, v);
    }
  }

  lemma FlushClean(st: ParserState)
    requires StateClean(st)
    ensures DistinctKeys(Flush(st))
    ensures forall i, j :: 0 <= i < |Flush(st)| && 0 <= j < |Flush(st)[i].1| ==> Flush(st)[i].1[j] in Alphabet
  {
    if st.name.Some? && st.chunks != [] {
      ConcatClean(st.chunks);
      StoreDistinct(st.sequences, st.name.value, Concat(st.chunks));
      StoreClean(st.sequences, st.name.value, Concat(st.chunks));
    }
  }

  lemma {:induction false} ScanClean(lines: seq<string>)
    ensures StateClean(Scan(lines))
  {
    if lines != [] {
      var st := Scan(lines[..|lines| - 1]);
      ScanClean(lines[..|lines| - 1]);
      FlushClean(st);
    }
  }

  /**
   * Every stored sequence is made of upper-case canonical residues only,
   * and no name is stored twice.
   */
  lemma ParsedSequencesClean(text: string)
    ensures DistinctKeys(ParseFasta(text))
    ensures forall i, j :: 0 <= i < |ParseFasta(text)| && 0 <= j < |ParseFasta(text)[i].1| ==>
      ParseFasta(text)[i].1[j] in Alphabet
  {
    ScanClean(Lines(text));
    FlushClean(Scan(Lines(text)));
  }

  /** Lines before the first header leave the parser as it started: they are ignored. */
  lemma {:induction false} LinesBeforeHeaderIgnored(lines: seq<string>)
    requires forall i :: 0 <= i < |lines| ==> !OpensRecord(lines[i])
    ensures Scan(lines) == Start
  {
    if lines != [] {
      LinesBeforeHeaderIgnored(lines[..|lines| - 1]);
    }
  }

  /** A header flushes the record before it and opens a new one, named by `RecordName`, with nothing in it yet. */
  lemma HeaderOpensRecord(lines: seq<string>, header: string)
    requires IsHeader(Strip(header))
    ensures var d := Flush(Scan(lines));
      Scan(lines + [header]) == ParserState(d, Some(RecordName(Strip(header), |d|)), [])
  {
    assert (lines + [header])[..|lines|] == lines;
  }

  /** The cleaned non-blank lines of a record's body, in order. */
  function BodyChunks(body: seq<string>): seq<string> {
    if body == [] then []
    else
      var line := Strip(body[|body| - 1]);
      BodyChunks(body[..|body| - 1]) + (if line != [] then [CleanLine(line)] else [])
  }

  /** No line of `body` opens a record. */
  predicate NoHeaders(body: seq<string>) {
    forall i :: 0 <= i < |body| ==> !OpensRecord(body[i])
  }

  /** The state after the loop has taken the lines `body`, starting from `st`. */
  function Run(st: ParserState, body: seq<string>): ParserState {
    if body == [] then st else Step(Run(st, body[..|body| - 1]), body[|body| - 1])
  }

  /** Scanning `lines + body` is scanning `lines`, then running over `body`. */
  lemma {:induction false} ScanRun(lines: seq<string>, body: seq<string>)
    ensures Scan(lines + body) == Run(Scan(lines), body)
    decreases |body|
  {
    if body == [] {
      assert lines + body == lines;
    } else {
      var init := body[..|body| - 1];
      ScanRun(lines, init);
      AppendSnoc(lines, body);
      ScanSnoc(lines + init, body[|body| - 1]);
    }
  }

  /**
   * Lines after a header that are not headers themselves add their cleaned
   * text to the open record; blank lines add nothing.
   */
  lemma {:induction false} BodyAppends(st: ParserState, body: seq<string>)
    requires st.name.Some? && NoHeaders(body)
    ensures Run(st, body) == st.(chunks := st.chunks + BodyChunks(body))
    decreases |body|
  {
    if body == [] {
      assert st.chunks + [] == st.chunks;
    } else {
      var init := body[..|body| - 1];
      var last := body[|body| - 1];
      assert NoHeaders(init) && !OpensRecord(last) by {
        forall i | 0 <= i < |init| ensures !OpensRecord(init[i]) {
          assert init[i] == body[i];
        }
      }
      BodyAppends(st, init);
      var mid := st.(chunks := st.chunks + BodyChunks(init));
      BodyLineStep(mid, last);
      BodyChunksSnoc(init, last);
      assert init + [last] == body;
      assert st.chunks + BodyChunks(init) + BodyChunks([last]) == st.chunks + BodyChunks(body);
    }
  }

  lemma BodyChunksSnoc(body: seq<string>, raw: string)
    ensures BodyChunks(body + [raw]) == BodyChunks(body) + BodyChunks([raw])
  {
    assert (body + [raw])[..|body|] == body;
    assert [raw][..0] == [];
  }

  /** Scanning one more line is one more step. */
  lemma ScanSnoc(lines: seq<string>, raw: string)
    ensures Scan(lines + [raw]) == Step(Scan(lines), raw)
  {
    assert (lines + [raw])[..|lines|] == lines;
  }

  /** One body line: a non-blank one adds its cleaned text to the open record, a blank one nothing. */
  lemma BodyLineStep(st: ParserState, raw: string)
    requires st.name.Some? && !OpensRecord(raw)
    ensures Step(st, raw) == st.(chunks := st.chunks + BodyChunks([raw]))
  {
    assert [raw][..0] == [];
  }

  /**
   * A whole record: the header followed by body lines. Once the next header
   * or the end of the text flushes it, the record is stored as the
   * concatenation of its cleaned lines, or not at all when none of its lines
   * was non-blank.
   */
  lemma RecordStored(lines: seq<string>, header: string, body: seq<string>)
    requires IsHeader(Strip(header))
    requires forall i :: 0 <= i < |body| ==> !OpensRecord(body[i])
    ensures var d := Flush(Scan(lines));
      var name := RecordName(Strip(header), |d|);
      Flush(Scan(lines + [header] + body)) ==
        if BodyChunks(body) == [] then d else Store(d, name, Concat(BodyChunks(body)))
  {
    var d := Flush(Scan(lines));
    var record := ParserState(d, Some(RecordName(Strip(header), |d|)), []);
    HeaderOpensRecord(lines, header);
    ScanRun(lines + [header], body);
    BodyAppends(Scan(lines + [header]), body);
    assert Scan(lines + [header] + body) == record.(chunks := BodyChunks(body)) by {
      assert [] + BodyChunks(body) == BodyChunks(body);
    }
  }

  /** A line with nothing but whitespace. */
  predicate IsBlank(line: string) {
    Strip(line) == []
  }

  /** `BodyChunks` is empty exactly when every body line is blank. */
  lemma {:induction false} BodyChunksEmpty(body: seq<string>)
    ensures BodyChunks(body) == [] <==> forall i :: 0 <= i < |body| ==> IsBlank(body[i])
  {
    if body != [] {
      var init := body[..|body| - 1];
      BodyChunksEmpty(init);
      assert forall i :: 0 <= i < |init| ==> init[i] == body[i];
      if BodyChunks(body) == [] {
        assert BodyChunks(init) == [];
      }
    }
  }
}
