/**
 * The extension dispatch of badger-new/src/lib/file-parser.ts: the part of a
 * file name after its last dot, lower-cased, picks the reader that turns the
 * file into plain text. The readers themselves (PDF, spreadsheet, word
 * processor, plain text) are not modelled: `ExtractTextFromFile` receives
 * them as a function of the reader kind.
 */
module FileParser {
  import opened JsCollections
  import opened JsStrings

  /** The four ways a file is read. */
  datatype Reader = PdfReader | ExcelReader | WordReader | TextReader

  /**
   * `name.split('.').pop()`: the text after the last dot, or the whole name
   * when it has no dot (`split` always yields at least one piece, so `pop`
   * never gives `undefined`).
   */
  function LastSegment(name: string): string {
    if name == [] then []
    else if name[|name| - 1] == '.' then []
    else LastSegment(name[..|name| - 1]) + [name[|name| - 1]]
  }

  /** A suffix is the suffix one shorter followed by the last character: the slice step of `LastSegmentShape`. */
  lemma SliceSnoc(s: string, p: nat)
    requires p < |s|
    ensures s[p..] == s[p..|s| - 1] + [s[|s| - 1]]
  {
  }

  /**
   * The last segment holds no dot, ends the name, and is either the whole
   * name or preceded by a dot.
   */
  lemma {:induction false} LastSegmentShape(name: string)
    ensures '.' !in LastSegment(name)
    ensures |LastSegment(name)| <= |name| && LastSegment(name) == name[|name| - |LastSegment(name)|..]
    ensures |LastSegment(name)| == |name| || name[|name| - |LastSegment(name)| - 1] == '.'
    decreases |name|
  {
    if name != [] && name[|name| - 1] != '.' {
      var n := |name| - 1;
      var init := name[..n];
      LastSegmentShape(init);
      var prev := LastSegment(init);
      var seg := LastSegment(name);
      assert seg == prev + [name[n]];
      var p := n - |prev|;
      assert prev == init[p..];
      assert init[p..] == name[p..n];
      SliceSnoc(name, p);
      if p > 0 {
        assert init[p - 1] == name[p - 1];
      }
    }
  }

  /** `file.name.split('.').pop()?.toLowerCase()` (line 8). */
  function Extension(name: string): string {
    ToLower(LastSegment(name))
  }

  /** The `switch` of `extractTextFromFile` (lines 10-25): the reader for an extension, if any. */
  function ReaderFor(ext: string): Option<Reader> {
    if ext == "pdf" then Some(PdfReader)
    else if ext == "xlsx" || ext == "xls" then Some(ExcelReader)
    else if ext == "docx" || ext == "doc" then Some(WordReader)
    else if ext == "csv" || ext == "txt" || ext == "json" then Some(TextReader)
    else None
  }

  /** `SUPPORTED_EXTENSIONS` (line 67), each with its leading dot. */
  const SupportedExtensions: seq<string> := [".pdf", ".xlsx", ".xls", ".docx", ".doc", ".csv", ".txt", ".json"]

  /** The message of the error thrown for an extension without a reader (line 24). */
  function UnsupportedMessage(ext: string): string {
    "Formato non supportato: ." + ext
  }

  /**
   * `extractTextFromFile(file)`: the text the reader for the file's
   * extension produces (or the error it fails with), and the
   * "unsupported format" error when no reader handles the extension.
   */
  function ExtractTextFromFile(name: string, read: Reader -> Result<string, string>): (r: Result<string, string>)
    ensures ReaderFor(Extension(name)).None? ==> r == Err(UnsupportedMessage(Extension(name)))
    ensures ReaderFor(Extension(name)).Some? ==> r == read(ReaderFor(Extension(name)).value)
  {
    match ReaderFor(Extension(name))
    case None => Err(UnsupportedMessage(Extension(name)))
    case Some(reader) => read(reader)
  }

  /** The list of supported extensions and the `switch` agree: an extension has a reader exactly when it is listed. */
  lemma SupportedExtensionsAgree(ext: string)
    ensures "." + ext in SupportedExtensions <==> ReaderFor(ext).Some?
  {
    if "." + ext in SupportedExtensions {
      var i :| 0 <= i < |SupportedExtensions| && SupportedExtensions[i] == "." + ext;
      assert ext == SupportedExtensions[i][1..];
    }
    if ReaderFor(ext).Some? {
      var i := if ext == "pdf" then 0 else if ext == "xlsx" then 1 else if ext == "xls" then 2
               else if ext == "docx" then 3 else if ext == "doc" then 4 else if ext == "csv" then 5
               else if ext == "txt" then 6 else 7;
      assert SupportedExtensions[i] == "." + ext;
    }
  }

  /** Appending a character other than a dot extends the last segment by that character. */
  lemma LastSegmentSnoc(x: string, c: char)
    requires c != '.'
    ensures LastSegment(x + [c]) == LastSegment(x) + [c]
  {
    assert (x + [c])[..|x|] == x;
  }

  /** The last segment of `a.b` is `b` when `b` holds no dot. */
  lemma {:induction false} LastSegmentAfterDot(stem: string, ext: string)
    requires '.' !in ext
    ensures LastSegment(stem + "." + ext) == ext
    decreases |ext|
  {
    if ext == [] {
      assert (stem + "." + ext)[|stem|] == '.';
    } else {
      var n := |ext| - 1;
      var init, c := ext[..n], ext[n];
      assert ext == init + [c];
      assert '.' !in init by {
        assert forall i :: 0 <= i < n ==> init[i] == ext[i];
      }
      AppendAssoc(stem + ".", init, [c]);
      LastSegmentAfterDot(stem, init);
      LastSegmentSnoc(stem + "." + init, c);
    }
  }

  /** Whatever comes before the last dot does not matter: `a.b` has extension `b`, lower-cased. */
  lemma ExtensionAfterLastDot(stem: string, ext: string)
    requires '.' !in ext
    ensures Extension(stem + "." + ext) == ToLower(ext)
  {
    LastSegmentAfterDot(stem, ext);
  }

  /** A name without a dot is its own extension. */
  lemma {:induction false} NoDotWholeName(name: string)
    requires '.' !in name
    ensures LastSegment(name) == name && Extension(name) == ToLower(name)
    decreases |name|
  {
    if name != [] {
      var n := |name| - 1;
      assert '.' !in name[..n] by {
        assert forall i :: 0 <= i < n ==> name[..n][i] == name[i];
      }
      NoDotWholeName(name[..n]);
      assert name == name[..n] + [name[n]];
    }
  }

  /** The extension, and so the reader, does not depend on the case of the name. */
  lemma {:induction false} ExtensionIgnoresCase(name: string)
    ensures Extension(ToLower(name)) == Extension(name)
    decreases |name|
  {
    var low := ToLower(name);
    if name != [] {
      var n := |name| - 1;
      assert low[..n] == ToLower(name[..n]);
      ExtensionIgnoresCase(name[..n]);
      if name[n] != '.' {
        ToLowerAppend(LastSegment(name[..n]), [name[n]]);
        ToLowerAppend(LastSegment(low[..n]), [low[n]]);
        ToLowerIdempotent(LastSegment(name[..n]) + [name[n]]);
      }
    }
  }

  /** "report.tar.PDF" is read as a PDF, and "notes" (no dot) is rejected under its whole name. */
  lemma DispatchExamples()
    ensures ReaderFor(Extension("report.tar.PDF")) == Some(PdfReader)
    ensures Extension("notes") == "notes" && ReaderFor(Extension("notes")).None?
  {
    ExtensionAfterLastDot("report.tar", "PDF");
    assert "report.tar.PDF" == "report.tar" + "." + "PDF";
    NoDotWholeName("notes");
  }
}
