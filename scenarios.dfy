/**
 * Concrete inputs worked through the model: the two-record FASTA text of
 * app/test_app.py, and the general shape it is an instance of.
 */
module Scenarios {
  import opened Text
  import opened Residues
  import opened Fasta
  import opened Validation

  /** Made of canonical residues only. */
  predicate AllResidues(s: string) {
    forall i :: 0 <= i < |s| ==> s[i] in Alphabet
  }

  lemma ResiduesAppend(a: string, b: string)
    requires AllResidues(a) && AllResidues(b)
    ensures AllResidues(a + b)
  {
    forall i | 0 <= i < |a + b| ensures (a + b)[i] in Alphabet {
      if i < |a| {
        assert (a + b)[i] == a[i];
      } else {
        assert (a + b)[i] == b[i - |a|];
      }
    }
  }

  /** A header line fit for the scenario: no surrounding space, no newline, and a name after `>`. */
  predicate GoodHeader(h: string) {
    IsHeader(h) && !IsSpace(h[|h| - 1]) && '\n' !in h && Strip(h[1..]) != []
  }

  lemma ResiduesKeptByStrip(b: string)
    requires AllResidues(b) && b != []
    ensures Strip(b) == b && '\n' !in b && !OpensRecord(b)
  {
    ResidueIsCapital(b[0]);
    ResidueIsCapital(b[|b| - 1]);
    StripKeeps(b);
    if '\n' in b {
      var i :| 0 <= i < |b| && b[i] == '\n';
      ResidueIsCapital(b[i]);
    }
  }

  /** The lines of two records separated by a blank line. */
  lemma TwoRecordLines(h1: string, b1: string, h2: string, b2: string)
    requires h1 != [] && !IsSpace(h1[0]) && '\n' !in h1 && '\n' !in h2
    requires '\n' !in b1 && b2 != [] && '\n' !in b2 && !IsSpace(b2[|b2| - 1])
    ensures Lines(h1 + "\n" + b1 + "\n\n" + h2 + "\n" + b2) == [h1, b1, "", h2, b2]
  {
    var parts := [h1, b1, "", h2, b2];
    var text := h1 + "\n" + b1 + "\n\n" + h2 + "\n" + b2;
    assert Join(parts, '\n') == text by {
      JoinFive(h1, b1, "", h2, b2, '\n');
      RegroupRecords(h1, b1, h2, b2);
    }
    assert Strip(text) == text by {
      assert text[0] == h1[0] && text[|text| - 1] == b2[|b2| - 1];
      StripKeeps(text);
    }
    assert forall k :: 0 <= k < |parts| ==> '\n' !in parts[k];
    SplitJoin(parts, '\n');
  }

  lemma JoinFive(a: string, b: string, c: string, d: string, e: string, sep: char)
    ensures Join([a, b, c, d, e], sep) == a + [sep] + (b + [sep] + (c + [sep] + (d + [sep] + e)))
  {
    assert [d, e][1..] == [e];
    assert Join([d, e], sep) == d + [sep] + e;
    assert [c, d, e][1..] == [d, e];
    assert Join([c, d, e], sep) == c + [sep] + (d + [sep] + e);
    assert [b, c, d, e][1..] == [c, d, e];
    assert Join([b, c, d, e], sep) == b + [sep] + (c + [sep] + (d + [sep] + e));
    assert [a, b, c, d, e][1..] == [b, c, d, e];
  }

  lemma RegroupRecords(h1: string, b1: string, h2: string, b2: string)
    ensures h1 + "\n" + b1 + "\n\n" + h2 + "\n" + b2 == h1 + "\n" + (b1 + "\n" + ("" + "\n" + (h2 + "\n" + b2)))
  {
    assert "\n\n" == "\n" + "" + "\n";
  }

  lemma ListShapes(h1: string, b1: string, h2: string, b2: string)
    ensures [] + [h1] + [b1, ""] == [h1, b1, ""]
    ensures [h1, b1, ""] + [h2] + [b2] == [h1, b1, "", h2, b2]
    ensures [b1, ""][..1] == [b1] && [b1][..0] == [] && [b2][..0] == []
  {
  }

  /** A body line of residues, alone or followed by a blank line, is one chunk: itself. */
  lemma ResidueBody(b: string)
    requires AllResidues(b) && b != []
    ensures BodyChunks([b]) == [b] && BodyChunks([b, ""]) == [b] && Concat([b]) == b
    ensures !OpensRecord(b) && !OpensRecord("")
  {
    ResiduesKeptByStrip(b);
    CleanLineKeeps(b);
    SingleChunk(b);
    assert Strip("") == "";
  }

  lemma SingleChunk(b: string)
    requires Strip(b) == b && b != [] && CleanLine(b) == b
    ensures BodyChunks([b]) == [b] && BodyChunks([b, ""]) == [b] && Concat([b]) == b
  {
    assert [b, ""][..1] == [b] && [b][..0] == [];
    assert Strip("") == "";
  }

  /** The first record, up to the blank line: the header opens it and the body line fills it. */
  lemma FirstRecord(h1: string, b1: string)
    requires GoodHeader(h1) && AllResidues(b1) && b1 != []
    ensures Flush(Scan([h1, b1, ""])) == [(Strip(h1[1..]), b1)]
  {
    StripKeeps(h1);
    ResidueBody(b1);
    ListShapes(h1, b1, [], []);
    RecordStored([], h1, [b1, ""]);
  }

  /** The second record, flushed at the end of the text, lands after the first. */
  lemma SecondRecord(h1: string, b1: string, h2: string, b2: string)
    requires GoodHeader(h1) && GoodHeader(h2) && Strip(h1[1..]) != Strip(h2[1..])
    requires AllResidues(b1) && b1 != [] && AllResidues(b2) && b2 != []
    ensures Flush(Scan([h1, b1, "", h2, b2])) == [(Strip(h1[1..]), b1), (Strip(h2[1..]), b2)]
  {
    FirstRecord(h1, b1);
    StripKeeps(h2);
    ResidueBody(b2);
    ListShapes(h1, b1, h2, b2);
    RecordStored([h1, b1, ""], h2, [b2]);
    var first := [(Strip(h1[1..]), b1)];
    assert Keys(first) == [Strip(h1[1..])];
    StoreFresh(first, Strip(h2[1..]), b2);
  }

  /**
   * Two records separated by a blank line parse to those two records, in
   * order, each under the name its header gives.
   */
  lemma TwoRecordsParse(h1: string, b1: string, h2: string, b2: string)
    requires GoodHeader(h1) && GoodHeader(h2) && Strip(h1[1..]) != Strip(h2[1..])
    requires AllResidues(b1) && b1 != [] && AllResidues(b2) && b2 != []
    ensures ParseFasta(h1 + "\n" + b1 + "\n\n" + h2 + "\n" + b2) == [(Strip(h1[1..]), b1), (Strip(h2[1..]), b2)]
  {
    ResiduesKeptByStrip(b1);
    ResiduesKeptByStrip(b2);
    ResidueIsCapital(b2[|b2| - 1]);
    TwoRecordLines(h1, b1, h2, b2);
    SecondRecord(h1, b1, h2, b2);
  }

  // ----- The text of the test -----

  const Header1: string := ">Test_Sequence_1"
  const Header2: string := ">Test_Sequence_2"
  const Body1: string := "MKLLILTCLV" + "AVALARPKHP" + "IKHQGLPQEV" + "LNENLLRFFV" + "APFPEVFGKE" + "KVNEL"
  const Body2: string := "CARFASLIYG" + "KFVRQPQVWL" + "RIQNYSVMDI" + "CDEHQGVMVP" + "GVGVPQALQK" + "YNPD"

  /** The form text of the test: two records with a blank line between them. */
  const TestFasta: string := Header1 + "\n" + Body1 + "\n\n" + Header2 + "\n" + Body2

  lemma TestBodiesAreResidues()
    ensures AllResidues(Body1) && AllResidues(Body2)
  {
    ResiduesAppend("MKLLILTCLV", "AVALARPKHP");
    ResiduesAppend("MKLLILTCLV" + "AVALARPKHP", "IKHQGLPQEV");
    ResiduesAppend("MKLLILTCLV" + "AVALARPKHP" + "IKHQGLPQEV", "LNENLLRFFV");
    ResiduesAppend("MKLLILTCLV" + "AVALARPKHP" + "IKHQGLPQEV" + "LNENLLRFFV", "APFPEVFGKE");
    ResiduesAppend("MKLLILTCLV" + "AVALARPKHP" + "IKHQGLPQEV" + "LNENLLRFFV" + "APFPEVFGKE", "KVNEL");
    ResiduesAppend("CARFASLIYG", "KFVRQPQVWL");
    ResiduesAppend("CARFASLIYG" + "KFVRQPQVWL", "RIQNYSVMDI");
    ResiduesAppend("CARFASLIYG" + "KFVRQPQVWL" + "RIQNYSVMDI", "CDEHQGVMVP");
    ResiduesAppend("CARFASLIYG" + "KFVRQPQVWL" + "RIQNYSVMDI" + "CDEHQGVMVP", "GVGVPQALQK");
    ResiduesAppend("CARFASLIYG" + "KFVRQPQVWL" + "RIQNYSVMDI" + "CDEHQGVMVP" + "GVGVPQALQK", "YNPD");
  }

  /** The test's text parses to its two records, in order. */
  lemma TestFastaParses()
    ensures ParseFasta(TestFasta) == [("Test_Sequence_1", Body1), ("Test_Sequence_2", Body2)]
  {
    TestBodiesAreResidues();
    assert Header1[1..] == "Test_Sequence_1" && Header2[1..] == "Test_Sequence_2";
    StripKeeps("Test_Sequence_1");
    StripKeeps("Test_Sequence_2");
    TwoRecordsParse(Header1, Body1, Header2, Body2);
  }

  /** A residue string of acceptable length passes the per-sequence checks. */
  lemma ResiduesAcceptable(b: string)
    requires AllResidues(b) && MinLength <= |b| <= MaxLength
    ensures Acceptable(b)
  {
    forall j | 0 <= j < |b| ensures Upper(b[j]) in Alphabet {
      ResidueIsCapital(b[j]);
    }
  }

  lemma TotalOfTwo(n1: string, b1: string, n2: string, b2: string)
    ensures TotalLength([(n1, b1), (n2, b2)]) == |b1| + |b2|
  {
    var d := [(n1, b1), (n2, b2)];
    assert d[..1] == [(n1, b1)];
    assert [(n1, b1)][..0] == [];
    assert TotalLength([(n1, b1)]) == TotalLength([]) + |b1|;
    assert TotalLength(d) == TotalLength(d[..1]) + |b2|;
  }

  /** The two parsed records pass validation: 55 and 54 residues, 109 in all. */
  lemma TestFastaValid()
    ensures ValidationErrors(ParseFasta(TestFasta)) == []
  {
    TestFastaParses();
    TestBodiesAreResidues();
    var d := [("Test_Sequence_1", Body1), ("Test_Sequence_2", Body2)];
    assert |Body1| == 55 && |Body2| == 54;
    ResiduesAcceptable(Body1);
    ResiduesAcceptable(Body2);
    TotalOfTwo("Test_Sequence_1", Body1, "Test_Sequence_2", Body2);
    ValidIff(d);
  }
}
