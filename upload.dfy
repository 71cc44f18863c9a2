/**
 * `allowed_file` (app/app.py): which uploaded file names are taken as
 * sequence files.
 */
module Upload {
  import opened Wrappers
  import opened Text

  /** `ALLOWED_EXTENSIONS`. */
  const AllowedExtensions: set<string> := {"txt", "fasta", "fa", "fas"}

  /**
   * `f.rsplit('.', 1)[1]` for a name with a dot: the text after its last
   * dot; `None` when the name has no dot.
   */
  function Extension(f: string): (r: Option<string>)
    ensures r.None? <==> '.' !in f
    ensures r.Some? ==> |r.value| < |f| && '.' !in r.value && f[|f| - |r.value| - 1] == '.'
    ensures r.Some? ==> f[|f| - |r.value|..] == r.value
  {
    if f == [] then None
    else if f[|f| - 1] == '.' then Some([])
    else
      var init := f[..|f| - 1];
      match Extension(init)
      case None => None
      case Some(e) =>
        assert f == init + [f[|f| - 1]];
        Some(e + [f[|f| - 1]])
  }

  /** `allowed_file`. */
  predicate AllowedFile(f: string) {
    '.' in f && LowerString(Extension(f).value) in AllowedExtensions
  }

  /** What follows the last dot is the extension, whatever comes before it. */
  lemma {:induction false} ExtensionOfName(stem: string, ext: string)
    requires '.' !in ext
    ensures Extension(stem + "." + ext) == Some(ext)
    decreases |ext|
  {
    var f := stem + "." + ext;
    if ext != [] {
      var init := ext[..|ext| - 1];
      assert f[..|f| - 1] == stem + "." + init;
      assert f[|f| - 1] == ext[|ext| - 1];
      ExtensionOfName(stem, init);
      assert init + [ext[|ext| - 1]] == ext;
    }
  }

  /**
   * A name is accepted exactly when it has a last dot and the text after it,
   * lower-cased, is `txt`, `fasta`, `fa` or `fas`.
   */
  lemma AllowedFileIff(stem: string, ext: string)
    requires '.' !in ext
    ensures AllowedFile(stem + "." + ext) <==> LowerString(ext) in AllowedExtensions
  {
    assert '.' in stem + "." + ext by {
      assert (stem + "." + ext)[|stem|] == '.';
    }
    ExtensionOfName(stem, ext);
  }

  /** A name without a dot is never accepted. */
  lemma NoDotRejected(f: string)
    requires '.' !in f
    ensures !AllowedFile(f)
  {
  }

  /** Upper-case extensions are accepted. */
  lemma UpperCaseAccepted()
    ensures AllowedFile("proteins.FASTA")
  {
    AllowedFileIff("proteins", "FASTA");
    assert "proteins.FASTA" == "proteins" + "." + "FASTA";
    assert LowerString("FASTA") == "fasta";
  }
}
