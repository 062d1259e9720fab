/**
 * The save handler: the early checks, the storage name built from the
 * uploaded file's name and the current time, the upload whose failure does
 * not stop the insert, and the shape of the inserted row and of the reply.
 */
module SaveAnalysis {
  import opened JsCore
  import opened Records
  import Upload

  const NotConfiguredMessage: string :=
    "Supabase is not configured. Please set up your environment variables."
  const NotConfiguredDetails: string :=
    "Create a .env file with NEXT_PUBLIC_SUPABASE_URL and NEXT_PUBLIC_SUPABASE_ANON_KEY"
  const MissingDataMessage: string := "Extracted data is required"
  const SaveFailedMessage: string := "Failed to save analysis"
  const InternalErrorMessage: string := "Internal server error"

  // ---------------------------------------------------------------------------
  // Storage name
  // ---------------------------------------------------------------------------

  /** `name.split('.').pop()`: the longest suffix without a dot, that is the
      text after the last dot, or the whole name when it has no dot. */
  function Extension(name: string): (ext: string)
    ensures '.' !in ext
    ensures EndsWith(name, ext)
    ensures |ext| < |name| ==> name[|name| - |ext| - 1] == '.'
    ensures '.' !in name ==> ext == name
    decreases |name|
  {
    if name == [] || name[|name| - 1] == '.' then []
    else
      var init := name[..|name| - 1];
      assert name == init + [name[|name| - 1]];
      Extension(init) + [name[|name| - 1]]
  }

  /** Whatever precedes it, a dot followed by a dot-free text makes that text
      the extension. */
  lemma {:induction false} ExtensionAfterDot(x: string, e: string)
    requires '.' !in e
    ensures Extension(x + "." + e) == e
    decreases |e|
  {
    var s := x + "." + e;
    if e != [] {
      var init := e[..|e| - 1];
      assert s[..|s| - 1] == x + "." + init;
      assert s[|s| - 1] == e[|e| - 1];
      ExtensionAfterDot(x, init);
      assert init + [e[|e| - 1]] == e;
    }
  }

  function Digit(d: nat): (c: char)
    requires d < 10
    ensures '0' <= c <= '9'
    ensures c as int - '0' as int == d
  {
    ('0' as int + d) as char
  }

  predicate AllDigits(s: string)
  {
    forall i :: 0 <= i < |s| ==> '0' <= s[i] <= '9'
  }

  /** The decimal rendering of a non-negative integer, as a template literal
      writes the millisecond timestamp: digits only, and no leading zero
      except for zero itself. */
  function Decimal(n: nat): (s: string)
    ensures |s| >= 1 && AllDigits(s)
    ensures s[0] == '0' ==> n == 0
    ensures n < 10 <==> |s| == 1
    decreases n
  {
    (if n < 10 then "" else Decimal(n / 10)) + [Digit(n % 10)]
  }

  /** The number a string of decimal digits denotes. */
  function DecimalValue(s: string): (n: nat)
    requires AllDigits(s)
  {
    if s == [] then 0 else 10 * DecimalValue(s[..|s| - 1]) + (s[|s| - 1] as int - '0' as int)
  }

  /** Reading the rendering back gives the timestamp. */
  lemma {:induction false} DecimalRoundTrip(n: nat)
    ensures DecimalValue(Decimal(n)) == n
    decreases n
  {
    var s := Decimal(n);
    var front := if n < 10 then "" else Decimal(n / 10);
    assert s[..|s| - 1] == front;
    if n >= 10 {
      DecimalRoundTrip(n / 10);
    }
  }

  /** The storage name: the first occurrence of `.ext` is removed from the
      original name, then `_`, the timestamp, `.` and the extension are
      appended. */
  function StorageName(name: string, timestamp: nat): (r: string)
    ensures EndsWith(r, "." + Extension(name))
  {
    var ext := Extension(name);
    RemoveFirst(name, "." + ext) + "_" + Decimal(timestamp) + "." + ext
  }

  /** A pattern starting with a dot, placed after a dot-free stem, is first
      found right after the stem, whatever follows it. */
  lemma FirstOccurrenceAfterStem(stem: string, pat: string, rest: string)
    requires '.' !in stem && pat != [] && pat[0] == '.'
    ensures IndexOf(stem + pat + rest, pat) == Some(|stem|)
  {
    var name := stem + pat + rest;
    assert OccursAt(name, pat, |stem|) by {
      assert name[|stem|..|stem| + |pat|] == pat;
    }
    forall j | 0 <= j < |stem|
      ensures !OccursAt(name, pat, j)
    {
      assert name[j] == stem[j];
      if j + |pat| <= |name| {
        assert name[j..j + |pat|][0] == name[j];
      }
    }
    IndexOfFirst(name, pat, |stem|);
  }

  /** A name with exactly one dot, `stem.ext`, is stored as
      `stem_<timestamp>.ext`. */
  lemma StorageNameSingleDot(stem: string, ext: string, timestamp: nat)
    requires '.' !in stem && '.' !in ext
    ensures StorageName(stem + "." + ext, timestamp) == stem + "_" + Decimal(timestamp) + "." + ext
  {
    var pat := "." + ext;
    ExtensionAfterDot(stem, ext);
    assert stem + "." + ext == stem + pat;
    FirstOccurrenceAfterStem(stem, pat, []);
    assert stem + pat + [] == stem + pat;
    assert RemoveFirst(stem + pat, pat) == stem by {
      assert (stem + pat)[..|stem|] == stem;
      assert (stem + pat)[|stem| + |pat|..] == [];
    }
  }

  /** A name without a dot is its own extension, and nothing is removed from
      it: `report` is stored as `report_<timestamp>.report`. */
  lemma StorageNameNoDot(name: string, timestamp: nat)
    requires '.' !in name
    ensures StorageName(name, timestamp) == name + "_" + Decimal(timestamp) + "." + name
  {
    var pat := "." + name;
    assert forall j :: 0 <= j <= |name| ==> !OccursAt(name, pat, j);
  }

  /** Removing the first `.ext` after a dot-free stem leaves the stem and
      whatever followed. */
  lemma RemoveFirstAfterStem(stem: string, pat: string, rest: string)
    requires '.' !in stem && pat != [] && pat[0] == '.'
    ensures RemoveFirst(stem + pat + rest, pat) == stem + rest
  {
    var name := stem + pat + rest;
    FirstOccurrenceAfterStem(stem, pat, rest);
    assert name[..|stem|] == stem;
    assert name[|stem| + |pat|..] == rest;
  }

  /** The storage name from its two computed parts. */
  lemma StorageNameOfParts(name: string, timestamp: nat, ext: string, kept: string)
    requires Extension(name) == ext && RemoveFirst(name, "." + ext) == kept
    ensures StorageName(name, timestamp) == kept + "_" + Decimal(timestamp) + "." + ext
  {
  }

  /** Only the first occurrence of `.ext` is removed, wherever it is: when
      the extension also follows an earlier dot, that earlier occurrence goes
      and the final one stays. With `a = my`, `b = s` and `ext = pdf`, the
      name `my.pdfs.pdf` is stored as `mys.pdf_<timestamp>.pdf`. */
  lemma StorageNameRemovesFirstOccurrence(a: string, b: string, ext: string, timestamp: nat)
    requires '.' !in a && '.' !in ext
    ensures StorageName(a + "." + ext + b + "." + ext, timestamp)
         == a + b + "." + ext + "_" + Decimal(timestamp) + "." + ext
  {
    ExtensionAfterDot(a + "." + ext + b, ext);
    RemoveFirstOfRepeated(a, b, ext);
    StorageNameOfParts(a + "." + ext + b + "." + ext, timestamp, ext, a + b + "." + ext);
  }

  lemma RemoveFirstOfRepeated(a: string, b: string, ext: string)
    requires '.' !in a
    ensures RemoveFirst(a + "." + ext + b + "." + ext, "." + ext) == a + b + "." + ext
  {
    var pat := "." + ext;
    assert a + "." + ext + b + "." + ext == a + pat + (b + pat);
    RemoveFirstAfterStem(a, pat, b + pat);
    assert a + (b + pat) == a + b + "." + ext;
  }

  /** The storage name has the same extension as the original name. */
  lemma StorageNameKeepsExtension(name: string, timestamp: nat)
    ensures Extension(StorageName(name, timestamp)) == Extension(name)
  {
    var ext := Extension(name);
    ExtensionAfterDot(RemoveFirst(name, "." + ext) + "_" + Decimal(timestamp), ext);
  }

  // ---------------------------------------------------------------------------
  // The handler
  // ---------------------------------------------------------------------------

  /** The storage call: it throws, or it returns the public URL (null when the
      upload or the URL lookup failed). */
  datatype UploadAttempt = UploadThrew | UploadReturned(url: Option<string>)

  /** The row handed to the insert; the extracted fields are whatever the
      parsed JSON holds under those keys. */
  datatype InsertRow = InsertRow(
    patientName: JsonValue,
    dateOfBirth: JsonValue,
    patientId: JsonValue,
    insuranceProvider: JsonValue,
    fullText: JsonValue,
    originalText: Option<string>,
    fileName: Option<string>,
    fileType: Option<string>,
    fileUrl: Option<string>,
    fileSize: Option<nat>)

  /** The insert call: an error with its message, or the stored record. */
  datatype InsertOutcome = InsertFailed(message: string) | Inserted(record: AnalysisRecord)

  datatype SaveResponse =
    | Saved(data: AnalysisRecord, fileUploaded: bool, fileName: Option<string>, fileUrl: Option<string>)
    | SaveFailed(status: int, error: string, details: Option<string>)

  /** A file takes part in the upload when it is present with a non-empty
      name and a non-empty type. */
  predicate UploadWanted(file: Option<Upload.FileInfo>)
  {
    file.Some? && file.value.name != "" && file.value.mimeType != ""
  }

  /** `POST /save-analysis`. `parse` is `JSON.parse`, `now` is `Date.now()`,
      `upload(n)` stores the file under the name `n`, and `insert` is the
      insert-select-single call. Besides the reply, the handler's storage name
      and the row it inserted are returned. */
  method Post(configured: bool, extractedData: Option<string>, originalText: Option<string>,
              file: Option<Upload.FileInfo>, now: nat,
              parse: string -> ParseResult,
              upload: string -> UploadAttempt,
              insert: InsertRow -> InsertOutcome)
    returns (resp: SaveResponse, storedAs: Option<string>, row: Option<InsertRow>)
    // the early checks, in order, before anything is stored
    ensures !configured ==>
      resp == SaveFailed(500, NotConfiguredMessage, Some(NotConfiguredDetails))
      && storedAs.None? && row.None?
    ensures configured && !TruthyString(extractedData) ==>
      resp == SaveFailed(400, MissingDataMessage, None) && storedAs.None? && row.None?
    ensures configured && TruthyString(extractedData) && parse(extractedData.value).ParseThrew? ==>
      resp == SaveFailed(500, InternalErrorMessage, None) && storedAs.None? && row.None?
    // once the data parses, the upload is attempted exactly for a named, typed file
    ensures configured && TruthyString(extractedData) && parse(extractedData.value).Parsed? ==>
      storedAs == (if UploadWanted(file) then Some(StorageName(file.value.name, now)) else None)
    // reading fields of a parsed `null` throws, after the upload
    ensures configured && TruthyString(extractedData) && parse(extractedData.value) == Parsed(JNull) ==>
      resp == SaveFailed(500, InternalErrorMessage, None) && row.None?
    // otherwise the row is inserted, whatever became of the upload
    ensures configured && TruthyString(extractedData) && parse(extractedData.value).Parsed? ==>
      var v := parse(extractedData.value).value;
      v != JNull ==>
        var stored := UploadWanted(file) && upload(StorageName(file.value.name, now)).UploadReturned?;
        row == Some(InsertRow(
          Property(v, "patientName"), Property(v, "dateOfBirth"), Property(v, "patientId"),
          Property(v, "insuranceProvider"), Property(v, "fullText"),
          originalText,
          if file.Some? && file.value.name != "" then Some(file.value.name) else None,
          if file.Some? && file.value.mimeType != "" then Some(file.value.mimeType) else None,
          if stored then upload(StorageName(file.value.name, now)).url else None,
          if stored then Some(file.value.size) else None))
    // the reply to an attempted insert
    ensures row.Some? && insert(row.value).InsertFailed? ==>
      resp == SaveFailed(500, SaveFailedMessage, Some(insert(row.value).message))
    ensures row.Some? && insert(row.value).Inserted? ==>
      resp == Saved(insert(row.value).record, TruthyString(row.value.fileUrl), storedAs, row.value.fileUrl)
    // a reported upload always has a URL and came from an attempted upload
    ensures resp.Saved? && resp.fileUploaded ==>
      UploadWanted(file) && resp.fileUrl.Some? && storedAs == Some(StorageName(file.value.name, now))
  {
    storedAs := None;
    row := None;
    if !configured {
      return SaveFailed(500, NotConfiguredMessage, Some(NotConfiguredDetails)), storedAs, row;
    }
    if !TruthyString(extractedData) {
      return SaveFailed(400, MissingDataMessage, None), storedAs, row;
    }
    var parsed := parse(extractedData.value);
    if parsed.ParseThrew? {
      return SaveFailed(500, InternalErrorMessage, None), storedAs, row;
    }
    var data := parsed.value;

    var fileUrl: Option<string> := None;
    var fileSize: Option<nat> := None;
    if UploadWanted(file) {
      var fileName := StorageName(file.value.name, now);
      storedAs := Some(fileName);
      var attempt := upload(fileName);
      if attempt.UploadReturned? {
        fileUrl := attempt.url;
        fileSize := Some(file.value.size);
      }
    }

    if data == JNull {
      return SaveFailed(500, InternalErrorMessage, None), storedAs, row;
    }
    var r := InsertRow(
      Property(data, "patientName"), Property(data, "dateOfBirth"), Property(data, "patientId"),
      Property(data, "insuranceProvider"), Property(data, "fullText"),
      originalText,
      if file.Some? && file.value.name != "" then Some(file.value.name) else None,
      if file.Some? && file.value.mimeType != "" then Some(file.value.mimeType) else None,
      fileUrl, fileSize);
    row := Some(r);
    match insert(r)
    case InsertFailed(m) =>
      resp := SaveFailed(500, SaveFailedMessage, Some(m));
    case Inserted(rec) =>
      resp := Saved(rec, TruthyString(fileUrl), storedAs, fileUrl);
  }
}
