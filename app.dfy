/** The upload filter of the `/process_file` endpoint: the extension
    denylist, the check `is_forbidden_file`, and the guard that answers a
    forbidden upload with HTTP 400 before anything is written or converted. */
module App {
  import opened PyStr

  /** `FORBIDDEN_EXTENSIONS`, in source order and grouped by the source's
      own comments; duplicates included ("bin" at indices 7 and 24, "obj"
      at 33 and 48). */
  const FORBIDDEN_EXTENSIONS: seq<string> :=
    EXECUTABLES + SYSTEM_FILES + BINARY_DATA + CAD_AND_3D + ENCRYPTED + VIRTUAL_MACHINES + OTHER_BINARY

  const EXECUTABLES: seq<string> := [
    "exe", "msi", "bat", "cmd", "dmg", "pkg", "app", "bin", "sh", "run",
    "dll", "so", "dylib", "jar", "apk", "vbs", "ps1", "pyc", "pyo"
  ]
  const SYSTEM_FILES: seq<string> := ["sys", "drv", "config", "ini"]
  const BINARY_DATA: seq<string> := ["dat", "bin", "db", "sqlite", "mdb", "dbf", "myd"]
  const CAD_AND_3D: seq<string> := ["dxf", "dwg", "stl", "obj", "3ds", "blend"]
  const ENCRYPTED: seq<string> := ["gpg", "asc", "pgp"]
  const VIRTUAL_MACHINES: seq<string> := ["vdi", "vmdk", "ova", "docker", "containerd"]
  const OTHER_BINARY: seq<string> := ["class", "o", "a", "lib", "obj", "ttf", "otf", "fon"]

  /** `is_forbidden_file`: the name contains a '.', and the text after its
      last '.', lower-cased, is a denylisted extension. The `&&` guards the
      index exactly as Python's `and` does. */
  predicate IsForbiddenFile(filename: string)
    ensures IsForbiddenFile(filename) <==>
            exists e :: e in FORBIDDEN_EXTENSIONS && EndsWithExtension(filename, e)
  {
    DenylistEntriesArePlain();
    LastExtensionInIffSuffix(filename, FORBIDDEN_EXTENSIONS);
    LastExtensionIn(filename, FORBIDDEN_EXTENSIONS)
  }

  /** The body of the JSON response and its status code. */
  datatype JsonResponse = JsonResponse(content: map<string, string>, statusCode: int)

  /** What the guard at the top of `process_file` decides: answer at once,
      or go on to the temporary file and the conversion. */
  datatype Decision = Reject(response: JsonResponse) | Proceed

  const FILE_TYPE_NOT_ALLOWED: JsonResponse :=
    JsonResponse(map["error" := "File type not allowed"], 400)

  /** A non-empty run of lower-case ASCII letters and digits: no '.',
      nothing that lower-casing would change. */
  predicate IsPlainExtension(e: string) {
    e != [] && forall c :: c in e ==> 'a' <= c <= 'z' || '0' <= c <= '9'
  }

  predicate AllPlain(list: seq<string>) {
    forall i :: 0 <= i < |list| ==> IsPlainExtension(list[i])
  }

  /** A plain extension is not empty, holds no '.', and is its own
      lower-case form. */
  lemma PlainEntries(list: seq<string>)
    requires AllPlain(list)
    ensures forall e :: e in list ==> e != "" && '.' !in e && Lower(e) == e
  {
    forall e | e in list
      ensures e != "" && '.' !in e && Lower(e) == e
    {
      LowerOfUnfolded(e);
    }
  }

  /** The denylist groups are plain, checked a few groups at a time. */
  lemma ExecutablesArePlain()
    ensures AllPlain(EXECUTABLES)
  {
  }

  lemma DataGroupsArePlain()
    ensures AllPlain(SYSTEM_FILES) && AllPlain(BINARY_DATA) && AllPlain(CAD_AND_3D)
  {
  }

  lemma ArchiveGroupsArePlain()
    ensures AllPlain(ENCRYPTED) && AllPlain(VIRTUAL_MACHINES) && AllPlain(OTHER_BINARY)
  {
  }

  /** Every denylist entry is plain. */
  lemma DenylistEntriesArePlain()
    ensures AllPlain(FORBIDDEN_EXTENSIONS)
  {
    ExecutablesArePlain();
    DataGroupsArePlain();
    ArchiveGroupsArePlain();
  }

  /** The name ends, ignoring case, in '.' followed by `ext`. */
  predicate EndsWithExtension(filename: string, ext: string) {
    |ext| < |filename|
    && filename[|filename| - |ext| - 1] == '.'
    && Lower(filename[|filename| - |ext|..]) == ext
  }

  /** The test of `is_forbidden_file` against any list of extensions. A
      name that passes it ends, ignoring case, in '.' and a listed entry. */
  predicate LastExtensionIn(filename: string, list: seq<string>)
    ensures LastExtensionIn(filename, list) ==>
            exists e :: e in list && EndsWithExtension(filename, e)
  {
    if '.' in filename then
      var parts := RSplit1(filename, '.');
      var e := Lower(parts[1]);
      assert filename[|filename| - |e|..] == parts[1];
      assert EndsWithExtension(filename, e);
      e in list
    else
      false
  }

  /** Only the segment after the last '.' is checked, and it is checked
      after lower-casing. */
  lemma {:induction false} LastSegmentDecides(filename: string, stem: string, ext: string)
    requires filename == stem + "." + ext && '.' !in ext
    ensures IsForbiddenFile(filename) <==> Lower(ext) in FORBIDDEN_EXTENSIONS
  {
    RSplit1Join(stem, '.', ext);
  }

  /** For a list of plain extensions, the `rsplit` test and the suffix test
      agree on every name. */
  lemma {:induction false} LastExtensionInIffSuffix(filename: string, list: seq<string>)
    requires AllPlain(list)
    ensures LastExtensionIn(filename, list) <==>
            exists e :: e in list && EndsWithExtension(filename, e)
  {
    if e :| e in list && EndsWithExtension(filename, e) {
      var k := |filename| - |e| - 1;
      var stem, ext := filename[..k], filename[k + 1..];
      LowerKeeps(ext, '.');
      assert '.' !in e;
      assert filename == stem + "." + ext;
      RSplit1Join(stem, '.', ext);
    }
  }

  /** Case does not matter: names with one lower-case form get one verdict. */
  lemma {:induction false} CaseInsensitive(a: string, b: string)
    requires Lower(a) == Lower(b)
    ensures IsForbiddenFile(a) == IsForbiddenFile(b)
  {
    RSplit1Lower(a);
    RSplit1Lower(b);
    LowerIdempotent(RSplit1(a, '.')[|RSplit1(a, '.')| - 1]);
    LowerIdempotent(RSplit1(b, '.')[|RSplit1(b, '.')| - 1]);
  }

  /** A name without any '.' is never forbidden, whatever its text. */
  lemma NoDotNeverForbidden(filename: string)
    requires '.' !in filename
    ensures !IsForbiddenFile(filename)
  {
  }

  /** A name ending in '.' has an empty last extension, which is not on the
      denylist. */
  lemma {:induction false} TrailingDotAllowed(stem: string)
    ensures !IsForbiddenFile(stem + ".")
  {
    DenylistEntriesArePlain();
    PlainEntries(FORBIDDEN_EXTENSIONS);
    LastSegmentDecides(stem + ".", stem, "");
    assert Lower("") == "";
  }

  /** A dot-file named after a denylisted extension (".exe") splits into
      "" and the extension, so it is forbidden. */
  lemma {:induction false} DotFileForbidden(ext: string)
    requires ext in FORBIDDEN_EXTENSIONS
    ensures IsForbiddenFile("." + ext)
  {
    DenylistEntriesArePlain();
    PlainEntries(FORBIDDEN_EXTENSIONS);
    assert '.' !in ext && Lower(ext) == ext;
    assert "" + "." + ext == "." + ext;
    LastSegmentDecides("." + ext, "", ext);
  }

  /** Dropping an entry that also occurs earlier in the list does not
      change which strings the list contains. */
  lemma RepeatedEntryRedundant(list: seq<string>, i: int, j: int)
    requires 0 <= j < i < |list| && list[j] == list[i]
    ensures forall x :: x in list[..i] + list[i + 1..] <==> x in list
  {
    var rest := list[..i] + list[i + 1..];
    assert list[j] == rest[j];
    assert list == list[..i] + [list[i]] + list[i + 1..];
  }

  /** The denylist without its two repeated entries. */
  const DISTINCT_EXTENSIONS: seq<string> :=
    var once := FORBIDDEN_EXTENSIONS[..48] + FORBIDDEN_EXTENSIONS[49..];
    once[..24] + once[25..]

  /** The repeated "bin" and "obj" change nothing: the list without them
      holds the same extensions, so every name gets the same verdict. */
  lemma DuplicatesChangeNothing()
    ensures FORBIDDEN_EXTENSIONS[7] == FORBIDDEN_EXTENSIONS[24] == "bin"
    ensures FORBIDDEN_EXTENSIONS[33] == FORBIDDEN_EXTENSIONS[48] == "obj"
    ensures |DISTINCT_EXTENSIONS| == |FORBIDDEN_EXTENSIONS| - 2
    ensures forall x :: x in DISTINCT_EXTENSIONS <==> x in FORBIDDEN_EXTENSIONS
    ensures forall filename :: IsForbiddenFile(filename) <==> LastExtensionIn(filename, DISTINCT_EXTENSIONS)
  {
    var once := FORBIDDEN_EXTENSIONS[..48] + FORBIDDEN_EXTENSIONS[49..];
    RepeatedEntryRedundant(FORBIDDEN_EXTENSIONS, 48, 33);
    assert once[7] == once[24];
    RepeatedEntryRedundant(once, 24, 7);
  }

  /** The guard of `process_file`: a forbidden name is answered with 400
      and `{"error": "File type not allowed"}` at once; every other name
      goes on to the temporary file and the conversion, since the filter
      has no other reason to refuse. */
  function Decide(filename: string): (d: Decision)
    ensures d.Reject? <==>
            exists e :: e in FORBIDDEN_EXTENSIONS && EndsWithExtension(filename, e)
    ensures d.Reject? ==> d.response.statusCode == 400
                          && d.response.content == map["error" := "File type not allowed"]
  {
    if IsForbiddenFile(filename) then Reject(FILE_TYPE_NOT_ALLOWED) else Proceed
  }

  /** "report.pdf.exe" is refused: its last segment is "exe". */
  lemma {:induction false} DoubleExtensionExeLast()
    ensures IsForbiddenFile("report.pdf.exe")
    ensures Decide("report.pdf.exe") == Reject(FILE_TYPE_NOT_ALLOWED)
  {
    assert Lower("exe") == "exe";
    ExeInAnyCaseForbidden("report.pdf.exe", "report.pdf", "exe");
  }

  /** "report.exe.pdf" goes on to conversion: its last segment is "pdf". */
  lemma {:induction false} DoubleExtensionPdfLast()
    ensures !IsForbiddenFile("report.exe.pdf")
    ensures Decide("report.exe.pdf") == Proceed
  {
    assert Lower("pdf") == "pdf";
    DenylistHoldsNoPdf();
    LastSegmentDecides("report.exe.pdf", "report.exe", "pdf");
  }

  lemma DenylistHoldsNoPdf()
    ensures "pdf" !in FORBIDDEN_EXTENSIONS
  {
    assert "pdf" !in EXECUTABLES;
    assert "pdf" !in SYSTEM_FILES + BINARY_DATA + CAD_AND_3D;
    assert "pdf" !in ENCRYPTED + VIRTUAL_MACHINES + OTHER_BINARY;
  }

  /** Any name whose last segment folds to "exe" is refused. */
  lemma {:induction false} ExeInAnyCaseForbidden(filename: string, stem: string, ext: string)
    requires filename == stem + "." + ext && '.' !in ext && Lower(ext) == "exe"
    ensures IsForbiddenFile(filename)
  {
    assert FORBIDDEN_EXTENSIONS[0] == "exe";
    LastSegmentDecides(filename, stem, ext);
  }

  /** One verdict for "setup.exe", "SETUP.EXE" and "Setup.Exe". */
  lemma {:induction false} CaseExamples(filename: string)
    requires filename in ["setup.exe", "SETUP.EXE", "Setup.Exe"]
    ensures IsForbiddenFile(filename)
  {
    if filename == "setup.exe" {
      assert Lower("exe") == "exe";
      ExeInAnyCaseForbidden(filename, "setup", "exe");
    } else if filename == "SETUP.EXE" {
      assert Lower("EXE") == "exe";
      ExeInAnyCaseForbidden(filename, "SETUP", "EXE");
    } else {
      assert Lower("Exe") == "exe";
      ExeInAnyCaseForbidden(filename, "Setup", "Exe");
    }
  }

  /** Edge cases of the split: bare "exe" and "bin" and a trailing '.' are
      allowed; the dot-file ".exe" splits into "" and "exe" and is refused. */
  lemma {:induction false} EdgeExamples()
    ensures !IsForbiddenFile("exe") && !IsForbiddenFile("bin")
    ensures !IsForbiddenFile("notes.") && IsForbiddenFile(".exe")
  {
    NoDotNeverForbidden("exe");
    NoDotNeverForbidden("bin");
    TrailingDotAllowed("notes");
    assert "notes" + "." == "notes.";
    assert Lower("exe") == "exe";
    ExeInAnyCaseForbidden(".exe", "", "exe");
  }

  /** "x.ap" followed by the Kelvin sign lower-cases to "x.apk", so it is
      refused like "x.apk". */
  lemma {:induction false} KelvinSignExample()
    ensures IsForbiddenFile("x.ap\U{212A}")
  {
    assert Lower("ap\U{212A}") == "apk";
    assert FORBIDDEN_EXTENSIONS[14] == "apk";
    LastSegmentDecides("x.ap\U{212A}", "x", "ap\U{212A}");
  }
}
