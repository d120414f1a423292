/** Document file names: the sanitiser applied before a downloaded document
    is moved to its target folder, and the extension-based document type. */
module FileNames {
  import opened Strings

  /** The characters a saved file name may not contain. */
  const InvalidChars: string := "<>:\"/\\|?*"
  const Replacement: char := '_'
  /** The longest file name the sanitiser lets through (when the extension allows). */
  const MaxNameLength: nat := 255

  /** Every invalid character replaced by '_' at once. */
  function Cleaned(s: string): (r: string)
    ensures |r| == |s|
    ensures forall i :: 0 <= i < |s| ==> r[i] == if s[i] in InvalidChars then Replacement else s[i]
  {
    seq(|s|, i requires 0 <= i < |s| => if s[i] in InvalidChars then Replacement else s[i])
  }

  /** The length limit: an over-long name keeps its extension and loses the
      end of its stem, with Python's slice semantics for name[:255 - len(ext)]. */
  function Truncated(f: string): string {
    if |f| > MaxNameLength then
      var (name, ext) := SplitExt(f);
      PrefixSlice(name, MaxNameLength - |ext|) + ext
    else f
  }

  /** What the sanitiser returns for a given name. */
  function Sanitized(s: string): string {
    Truncated(Cleaned(s))
  }

  /** The first step of the sanitiser: replaces the invalid characters one
      kind at a time. */
  method ReplaceInvalidChars(filename: string) returns (safe: string)
    ensures safe == Cleaned(filename)
  {
    safe := filename;
    for n := 0 to |InvalidChars|
      invariant |safe| == |filename|
      invariant forall i :: 0 <= i < |filename| ==>
        safe[i] == if filename[i] in InvalidChars[..n] then Replacement else filename[i]
    {
      safe := Replace(safe, InvalidChars[n], Replacement);
    }
    assert InvalidChars[..|InvalidChars|] == InvalidChars;
  }

  /** The sanitiser: replaces the invalid characters, then cuts an
      over-long name. */
  method Sanitize(filename: string) returns (safe: string)
    ensures safe == Sanitized(filename)
    ensures forall i :: 0 <= i < |safe| ==> safe[i] !in InvalidChars
    ensures |filename| <= MaxNameLength ==> |safe| == |filename|
  {
    safe := ReplaceInvalidChars(filename);
    if |safe| > MaxNameLength {
      var (name, ext) := SplitExt(safe);
      safe := PrefixSlice(name, MaxNameLength - |ext|) + ext;
    }
    SanitizedHasNoInvalidChars(filename);
  }

  /** Every character of a truncated name comes from the name. */
  lemma TruncatedChars(f: string)
    ensures forall i :: 0 <= i < |Truncated(f)| ==> Truncated(f)[i] in f
  {
    if |f| > MaxNameLength {
      var (name, ext) := SplitExt(f);
      var stem := PrefixSlice(name, MaxNameLength - |ext|);
      assert forall i :: 0 <= i < |stem| ==> stem[i] == f[i];
      assert forall i :: 0 <= i < |ext| ==> ext[i] == f[|name| + i];
    }
  }

  /** No invalid character survives sanitising. */
  lemma SanitizedHasNoInvalidChars(s: string)
    ensures forall i :: 0 <= i < |Sanitized(s)| ==> Sanitized(s)[i] !in InvalidChars
  {
    var c := Cleaned(s);
    TruncatedChars(c);
    assert forall i :: 0 <= i < |c| ==> c[i] !in InvalidChars;
  }

  /** A name of at most 255 characters keeps its length: each invalid
      character becomes exactly one '_' and every other character stays. */
  lemma SanitizedShortName(s: string)
    requires |s| <= MaxNameLength
    ensures |Sanitized(s)| == |s|
    ensures forall i :: 0 <= i < |s| ==>
      Sanitized(s)[i] == if s[i] in InvalidChars then Replacement else s[i]
  {
  }

  /** An over-long name whose extension fits is cut to exactly 255
      characters: a prefix of its stem followed by the whole extension. */
  lemma SanitizedLongName(s: string)
    requires |s| > MaxNameLength
    requires |Ext(Cleaned(s))| <= MaxNameLength
    ensures var ext := Ext(Cleaned(s));
      && |Sanitized(s)| == MaxNameLength
      && Sanitized(s)[MaxNameLength - |ext|..] == ext
      && Sanitized(s)[..MaxNameLength - |ext|] == Cleaned(s)[..MaxNameLength - |ext|]
  {
    var (name, ext) := SplitExt(Cleaned(s));
    assert |name| + |ext| == |s|;
    var stem := PrefixSlice(name, MaxNameLength - |ext|);
    assert |stem| == MaxNameLength - |ext|;
    assert Cleaned(s)[..|stem|] == name[..|stem|];
  }

  /** The result fits in 255 characters exactly when the name already did
      or its extension does. */
  lemma SanitizedFitsIff(s: string)
    ensures |Sanitized(s)| <= MaxNameLength <==> |s| <= MaxNameLength || |Ext(Cleaned(s))| <= MaxNameLength
  {
    if |s| > MaxNameLength && |Ext(Cleaned(s))| <= MaxNameLength {
      SanitizedLongName(s);
    }
  }

  /** Sanitising twice is sanitising once, when the extension fits. */
  lemma SanitizeIdempotent(s: string)
    requires |Ext(Cleaned(s))| <= MaxNameLength
    ensures Sanitized(Sanitized(s)) == Sanitized(s)
  {
    var r := Sanitized(s);
    SanitizedHasNoInvalidChars(s);
    assert Cleaned(r) == r;
    SanitizedFitsIff(s);
  }

  /** The name with each of the nine invalid characters in a row. */
  lemma SanitizeExampleInvalidChars()
    ensures Sanitized("test<>:\"/\\|?*file.pdf") == "test_________file.pdf"
  {
    var s := "test<>:\"/\\|?*file.pdf";
    SanitizedShortName(s);
  }

  /** A 300-character stem with ".pdf" comes back within 255 characters,
      still ending in ".pdf". */
  lemma SanitizeExampleLongName()
    ensures var r := Sanitized(seq(300, _ => 'a') + ".pdf");
      |r| <= MaxNameLength && r[|r| - 4..] == ".pdf"
  {
    var stem := seq(300, _ => 'a');
    var s := stem + ".pdf";
    assert Cleaned(s) == s;
    assert stem[0] != '.';
    ExtOfStemAndTail(stem, "pdf");
    assert stem + "." + "pdf" == s;
    SanitizedLongName(s);
  }

  /** The document types the portal's files are classified into. */
  datatype DocType = PDF | Word | Excel | Image | Archive | Unknown {
    function Label(): string {
      match this
      case PDF => "PDF"
      case Word => "Word"
      case Excel => "Excel"
      case Image => "Image"
      case Archive => "Archive"
      case Unknown => "Unknown"
    }
  }

  /** The nine lower-case extensions the classifier knows. */
  const TypeMapping: map<string, DocType> := map[
    ".pdf" := PDF,
    ".doc" := Word, ".docx" := Word,
    ".xls" := Excel, ".xlsx" := Excel,
    ".jpg" := Image, ".jpeg" := Image, ".png" := Image,
    ".zip" := Archive
  ]

  /** The table lookup with its fallback: the type of a lower-cased extension. */
  function TypeOfExtension(e: string): (t: DocType)
    ensures t == PDF <==> e == ".pdf"
    ensures t == Word <==> e == ".doc" || e == ".docx"
    ensures t == Excel <==> e == ".xls" || e == ".xlsx"
    ensures t == Image <==> e == ".jpg" || e == ".jpeg" || e == ".png"
    ensures t == Archive <==> e == ".zip"
    ensures t == Unknown <==> e !in TypeMapping
  {
    if e in TypeMapping then TypeMapping[e] else Unknown
  }

  /** The document type of a file name: its extension, lower-cased, looked
      up in the table, with Unknown for anything else. */
  function FileTypeFromName(filename: string): DocType {
    TypeOfExtension(Lower(Ext(filename)))
  }

  /** The classifier is the table lookup on the lower-cased extension: a
      name is Unknown exactly when that extension is not in the table, and
      otherwise gets the table's type for it. */
  lemma FileTypeFromNameLookup(filename: string)
    ensures var e := Lower(Ext(filename));
      && (FileTypeFromName(filename) == Unknown <==> e !in TypeMapping)
      && (e in TypeMapping ==> FileTypeFromName(filename) == TypeMapping[e])
  {
  }

  /** The classification ignores the case of letters: two names that lower
      to the same string get the same type. */
  lemma FileTypeCaseInsensitive(a: string, b: string)
    requires Lower(a) == Lower(b)
    ensures FileTypeFromName(a) == FileTypeFromName(b)
  {
    ExtLower(a);
    ExtLower(b);
  }

  /** A name without an extension is Unknown. */
  lemma FileTypeNoExtension(filename: string)
    requires Ext(filename) == ""
    ensures FileTypeFromName(filename) == Unknown
  {
    assert Lower("") == "";
  }

  /** The labels the classifier produces are the six of the source. */
  lemma FileTypeLabels(filename: string)
    ensures FileTypeFromName(filename).Label() in {"PDF", "Word", "Excel", "Image", "Archive", "Unknown"}
  {
  }

  /** The type of a name with a plain stem is decided by its last suffix alone. */
  lemma FileTypeOfStemAndTail(stem: string, tail: string)
    requires '/' !in stem && '/' !in tail && '.' !in tail
    requires exists k :: 0 <= k < |stem| && stem[k] != '.'
    ensures FileTypeFromName(stem + "." + tail) == TypeOfExtension(Lower("." + tail))
  {
    ExtOfStemAndTail(stem, tail);
  }

  lemma FileTypeExamplePdf()
    ensures FileTypeFromName("test.pdf") == PDF
  {
    var stem, tail := "test", "pdf";
    assert stem[0] != '.';
    FileTypeOfStemAndTail(stem, tail);
    assert stem + "." + tail == "test.pdf";
    assert Lower(".pdf") == ".pdf";
  }

  lemma FileTypeExampleUpperPdf()
    ensures FileTypeFromName("test.PDF") == PDF
  {
    var stem, tail := "test", "PDF";
    assert stem[0] != '.';
    FileTypeOfStemAndTail(stem, tail);
    assert stem + "." + tail == "test.PDF";
    assert Lower(".PDF") == ".pdf";
  }

  lemma FileTypeExampleDocx()
    ensures FileTypeFromName("test.docx") == Word
  {
    var stem, tail := "test", "docx";
    assert stem[0] != '.';
    FileTypeOfStemAndTail(stem, tail);
    assert stem + "." + tail == "test.docx";
    assert Lower(".docx") == ".docx";
  }

  lemma FileTypeExampleXlsx()
    ensures FileTypeFromName("test.xlsx") == Excel
  {
    var stem, tail := "test", "xlsx";
    assert stem[0] != '.';
    FileTypeOfStemAndTail(stem, tail);
    assert stem + "." + tail == "test.xlsx";
    assert Lower(".xlsx") == ".xlsx";
  }

  lemma FileTypeExampleJpg()
    ensures FileTypeFromName("test.jpg") == Image
  {
    var stem, tail := "test", "jpg";
    assert stem[0] != '.';
    FileTypeOfStemAndTail(stem, tail);
    assert stem + "." + tail == "test.jpg";
    assert Lower(".jpg") == ".jpg";
  }

  lemma UnlistedExtension()
    ensures TypeOfExtension(Lower(".unknown")) == Unknown
  {
    assert forall k :: k in TypeMapping ==> |k| <= 5;
    assert |Lower(".unknown")| == 8;
  }

  lemma FileTypeExampleUnknown()
    ensures FileTypeFromName("test.unknown") == Unknown
  {
    var stem, tail := "test", "unknown";
    assert stem[0] != '.';
    FileTypeOfStemAndTail(stem, tail);
    assert stem + "." + tail == "test.unknown";
    UnlistedExtension();
  }

  /** A name without a dot is Unknown. */
  lemma FileTypeExampleNoDot()
    ensures FileTypeFromName("README") == Unknown
  {
    var name := "README";
    assert forall j :: 0 <= j < |name| ==> name[j] != '.';
    ExtNoDot(name);
    FileTypeNoExtension(name);
  }

  /** Leading dots do not start an extension: ".pdf" is Unknown. */
  lemma FileTypeExampleDotFile()
    ensures FileTypeFromName(".pdf") == Unknown
  {
    ExtOfLeadingDots(".", "pdf");
    assert "." + "pdf" == ".pdf";
    FileTypeNoExtension(".pdf");
  }
}
