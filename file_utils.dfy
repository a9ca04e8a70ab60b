/**
 * The browser-side checks on the chosen file, and the name given to the
 * downloaded result (`lib/utils/file.utils.ts` of the web client).
 */
module FileUtils {
  import opened Wrappers
  import opened Text

  /** The part of a browser `File` the checks look at. */
  datatype FileInfo = FileInfo(name: string, size: nat)

  /** `FileValidationResult`: a verdict and, when it is negative, the message shown. */
  datatype FileValidationResult = FileValidationResult(isValid: bool, error: Option<string>)

  /** `FILE_CONFIG.ACCEPTED_EXTENSIONS`. */
  const AcceptedExtensions: seq<string> := [".json"]

  /** `FILE_CONFIG.MAX_FILE_SIZE`: 10 MiB. */
  const MaxFileSize: nat := 10 * 1024 * 1024

  const NoFileSelected := "Please select a file"
  const InvalidExtension := "Please select a JSON file"
  const FileTooLarge := "File size exceeds 10MB limit"

  function Rejected(message: string): FileValidationResult {
    FileValidationResult(false, Some(message))
  }

  /**
   * `"." + name.split(".").pop().toLowerCase()`: the text after the last
   * dot, lower-cased, behind a dot; a name without a dot gives the whole name.
   */
  function Extension(name: string): string {
    var pieces := Split(name, ".");
    "." + ToLowerAsciiString(pieces[|pieces| - 1])
  }

  /**
   * `validateFile`: no file, then the extension, then the size, each with
   * its own message; a file of exactly `MaxFileSize` bytes is accepted.
   */
  function ValidateFile(file: Option<FileInfo>): (r: FileValidationResult)
    ensures r.isValid <==>
      file.Some? && Extension(file.value.name) in AcceptedExtensions && file.value.size <= MaxFileSize
    ensures r.isValid ==> r.error == None
    ensures file.None? ==> r == Rejected(NoFileSelected)
    ensures file.Some? && Extension(file.value.name) !in AcceptedExtensions ==> r == Rejected(InvalidExtension)
    ensures file.Some? && Extension(file.value.name) in AcceptedExtensions && file.value.size > MaxFileSize ==>
      r == Rejected(FileTooLarge)
  {
    match file
    case None => Rejected(NoFileSelected)
    case Some(f) =>
      if Extension(f.name) !in AcceptedExtensions then Rejected(InvalidExtension)
      else if f.size > MaxFileSize then Rejected(FileTooLarge)
      else FileValidationResult(true, None)
  }

  /**
   * `last` is the longest dot-free tail of `s`: it ends `s`, holds no dot,
   * and is either all of `s` or preceded by a dot; it is all of `s` exactly
   * when it is the only piece.
   */
  predicate LastPieceOf(s: string, pieces: seq<string>) {
    && |pieces| > 0
    && var last := pieces[|pieces| - 1];
    && '.' !in last
    && |last| <= |s| && s[|s| - |last|..] == last
    && (|last| < |s| ==> s[|s| - |last| - 1] == '.')
    && (|pieces| == 1 ==> last == s)
    && (|pieces| > 1 ==> |last| < |s|)
  }

  /** The last piece of a split at `.` is the longest dot-free tail. */
  lemma {:induction false} SplitLastPiece(s: string)
    ensures LastPieceOf(s, Split(s, "."))
    decreases |s|
  {
    if |s| < 1 {
    } else if s[..1] == "." {
      SplitLastPiece(s[1..]);
      LastPieceAfterDot(s, Split(s[1..], "."));
    } else {
      SplitLastPiece(s[1..]);
      assert s[0] != '.' by { assert s[..1] == [s[0]]; }
      LastPieceAfterChar(s, Split(s[1..], "."));
    }
  }

  /** A leading dot starts an empty piece before the pieces of the rest. */
  lemma LastPieceAfterDot(s: string, rest: seq<string>)
    requires |s| > 0 && s[0] == '.' && LastPieceOf(s[1..], rest)
    ensures LastPieceOf(s, [""] + rest)
  {
    var pieces := [""] + rest;
    var last := rest[|rest| - 1];
    assert pieces[|pieces| - 1] == last;
    assert s[1..][|s[1..]| - |last|..] == s[|s| - |last|..];
    if |last| < |s| - 1 {
      assert s[1..][|s[1..]| - |last| - 1] == s[|s| - |last| - 1];
    }
  }

  /** Any other leading character joins the first piece of the rest. */
  lemma LastPieceAfterChar(s: string, rest: seq<string>)
    requires |s| > 0 && s[0] != '.' && LastPieceOf(s[1..], rest)
    ensures LastPieceOf(s, [[s[0]] + rest[0]] + rest[1..])
  {
    var pieces := [[s[0]] + rest[0]] + rest[1..];
    if |rest| == 1 {
      assert pieces == [[s[0]] + s[1..]];
      assert [s[0]] + s[1..] == s;
    } else {
      var last := rest[|rest| - 1];
      assert pieces[|pieces| - 1] == last;
      assert s[1..][|s[1..]| - |last|..] == s[|s| - |last|..];
      assert s[1..][|s[1..]| - |last| - 1] == s[|s| - |last| - 1];
    }
  }

  /** The extension of `prefix.seg`, for a dot-free `seg`, comes from `seg` alone. */
  lemma ExtensionAfterLastDot(prefix: string, seg: string)
    requires '.' !in seg
    ensures Extension(prefix + "." + seg) == "." + ToLowerAsciiString(seg)
  {
    var s := prefix + "." + seg;
    var pieces := Split(s, ".");
    var last := pieces[|pieces| - 1];
    SplitLastPiece(s);
    DotFreeTail(s, last);
    DotFreeTail(s, seg);
    assert s[|s| - |seg| - 1] == '.';
    assert |last| <= |seg|;
    assert last == s[|s| - |seg|..];
  }

  /** No position of a dot-free tail of `s` holds a dot. */
  lemma DotFreeTail(s: string, tail: string)
    requires '.' !in tail && |tail| <= |s| && s[|s| - |tail|..] == tail
    ensures forall i :: |s| - |tail| <= i < |s| ==> s[i] != '.'
  {
    forall i | |s| - |tail| <= i < |s|
      ensures s[i] != '.'
    {
      assert s[i] == tail[i - (|s| - |tail|)];
    }
  }

  /** A name without a dot is taken whole as its own extension. */
  lemma ExtensionOfDotlessName(name: string)
    requires '.' !in name
    ensures Extension(name) == "." + ToLowerAsciiString(name)
  {
    var pieces := Split(name, ".");
    var last := pieces[|pieces| - 1];
    SplitLastPiece(name);
    assert last == name[0..];
  }

  /** `.json` in any mix of letter case is accepted up to and including 10 MiB. */
  lemma JsonFileAccepted(base: string, ext: string, size: nat)
    requires '.' !in ext && ToLowerAsciiString(ext) == "json"
    requires size <= MaxFileSize
    ensures ValidateFile(Some(FileInfo(base + "." + ext, size))) == FileValidationResult(true, None)
  {
    ExtensionAfterLastDot(base, ext);
    assert "." + "json" == ".json";
  }

  /** One byte over the limit is too large. */
  lemma OversizedJsonFileRejected(base: string, size: nat)
    requires size > MaxFileSize
    ensures ValidateFile(Some(FileInfo(base + ".json", size))) == Rejected(FileTooLarge)
  {
    ExtensionAfterLastDot(base, "json");
    assert base + ".json" == base + "." + "json";
    assert ToLowerAsciiString("json") == "json";
    assert "." + "json" == ".json";
  }

  /**
   * Any other last segment is refused for its extension, whatever the size:
   * the extension is checked before the size.
   */
  lemma OtherExtensionRejected(base: string, seg: string, size: nat)
    requires '.' !in seg && ToLowerAsciiString(seg) != "json"
    ensures ValidateFile(Some(FileInfo(base + "." + seg, size))) == Rejected(InvalidExtension)
  {
    ExtensionAfterLastDot(base, seg);
    assert "." + ToLowerAsciiString(seg) != ".json" by {
      assert ("." + ToLowerAsciiString(seg))[1..] == ToLowerAsciiString(seg);
    }
  }

  /**
   * Only the last extension counts: `data.json.txt` is refused and
   * `data.txt.json` accepted.
   */
  lemma OnlyLastExtensionCounts()
    ensures ValidateFile(Some(FileInfo("data.json.txt", 1))) == Rejected(InvalidExtension)
    ensures ValidateFile(Some(FileInfo("data.txt.json", 1))) == FileValidationResult(true, None)
  {
    OtherExtensionRejected("data.json", "txt", 1);
    assert "data.json" + "." + "txt" == "data.json.txt";
    JsonFileAccepted("data.txt", "json", 1);
    assert "data.txt" + "." + "json" == "data.txt.json";
  }

  /**
   * A name without any dot is its own extension: a file named `JSON`, say,
   * passes the extension check.
   */
  lemma DotlessJsonNameAccepted(name: string, size: nat)
    requires '.' !in name && ToLowerAsciiString(name) == "json" && size <= MaxFileSize
    ensures ValidateFile(Some(FileInfo(name, size))) == FileValidationResult(true, None)
  {
    ExtensionOfDotlessName(name);
    assert "." + "json" == ".json";
  }

  /** The last five characters of `s` spell `.json` in some letter case (the pattern `/\.json$/i`). */
  predicate EndsWithJson(s: string) {
    |s| >= 5 && ToLowerAsciiString(s[|s| - 5..]) == ".json"
  }

  /**
   * `generateXmlFileName`: a trailing `.json`, in any letter case, becomes
   * `.xml`; any other name is left as it is.
   */
  function GenerateXmlFileName(jsonFileName: string): string {
    if EndsWithJson(jsonFileName) then jsonFileName[..|jsonFileName| - 5] + ".xml"
    else jsonFileName
  }

  /** `base.json` becomes `base.xml`, for every spelling of `.json` and every `base`. */
  lemma JsonNameBecomesXml(base: string, ext: string)
    requires ToLowerAsciiString(ext) == ".json"
    ensures GenerateXmlFileName(base + ext) == base + ".xml"
  {
    var s := base + ext;
    assert s[|s| - 5..] == ext;
    assert s[..|s| - 5] == base;
  }

  /** A name that does not end in `.json` is kept unchanged. */
  lemma OtherNameUnchanged(name: string)
    requires !EndsWithJson(name)
    ensures GenerateXmlFileName(name) == name
  {
  }

  /** A generated name ends in `.xml` or is the name it was generated from. */
  lemma GeneratedNameEndsWithXml(name: string)
    ensures var r := GenerateXmlFileName(name);
      (EndsWithJson(name) && |r| == |name| - 1 && r[|r| - 4..] == ".xml" && r[..|r| - 4] == name[..|name| - 5])
      || (!EndsWithJson(name) && r == name)
  {
  }

  /** Renaming a second time changes nothing: a name ending in `.xml` never ends in `.json`. */
  lemma GenerateXmlFileNameIdempotent(name: string)
    ensures GenerateXmlFileName(GenerateXmlFileName(name)) == GenerateXmlFileName(name)
  {
    var r := GenerateXmlFileName(name);
    if EndsWithJson(name) {
      assert r[|r| - 4..] == ".xml";
      if |r| >= 5 {
        assert r[|r| - 5..][1] == '.';
        assert ToLowerAsciiString(r[|r| - 5..])[1] == '.';
      }
    }
  }

  /** Only the final `.json` is replaced. */
  lemma OnlyTrailingJsonReplaced()
    ensures GenerateXmlFileName("a.json.json") == "a.json.xml"
  {
    JsonNameBecomesXml("a.json", ".json");
    assert "a.json" + ".json" == "a.json.json";
    assert "a.json" + ".xml" == "a.json.xml";
  }

  /** The suffix is matched in any letter case. */
  lemma UpperCaseJsonReplaced()
    ensures GenerateXmlFileName("report.JSON") == "report.xml"
  {
    assert ToLowerAsciiString(".JSON") == ".json";
    JsonNameBecomesXml("report", ".JSON");
    assert "report" + ".JSON" == "report.JSON";
    assert "report" + ".xml" == "report.xml";
  }

  /** A `.json` that is not at the end is left alone. */
  lemma InnerJsonKept()
    ensures GenerateXmlFileName("a.json.txt") == "a.json.txt"
  {
    var s := "a.json.txt";
    assert s[|s| - 5..] == "n.txt";
    assert ToLowerAsciiString("n.txt")[0] == 'n';
  }

  /**
   * A file the checks accept whose name has a dot is downloaded under its
   * base name with `.xml`; the dotless name `json` is downloaded unchanged.
   */
  lemma AcceptedFileNamedXml(base: string, ext: string, size: nat)
    requires '.' !in ext && ToLowerAsciiString(ext) == "json" && size <= MaxFileSize
    ensures ValidateFile(Some(FileInfo(base + "." + ext, size))).isValid
    ensures GenerateXmlFileName(base + "." + ext) == base + ".xml"
  {
    JsonFileAccepted(base, ext, size);
    assert ToLowerAsciiString("." + ext) == ".json" by {
      assert ToLowerAsciiString("." + ext) == "." + ToLowerAsciiString(ext);
    }
    JsonNameBecomesXml(base, "." + ext);
    assert base + "." + ext == base + ("." + ext);
  }

  /** A file named `JSON` passes the checks but keeps its name on download. */
  lemma DotlessJsonNameKept()
    ensures ValidateFile(Some(FileInfo("JSON", 1))).isValid
    ensures GenerateXmlFileName("JSON") == "JSON"
  {
    assert ToLowerAsciiString("JSON") == "json";
    DotlessJsonNameAccepted("JSON", 1);
  }
}
