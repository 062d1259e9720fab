/**
 * The upload handler: the ordered input checks, the MIME remap applied
 * before the document goes to the model, the clean-up of the model's reply
 * (trimming and code-fence removal), the normalisation of the parsed reply
 * to four nullable fields, and the excerpt of the raw reply returned for
 * display.
 */
module Upload {
  import opened JsCore

  const PdfMime: string := "application/pdf"
  const MsWordMime: string := "application/msword"
  const DocxMime: string := "application/vnd.openxmlformats-officedocument.wordprocessingml.document"
  const TextMime: string := "text/plain"

  /** 10 MB: a file of exactly this size is accepted. */
  const MaxUploadBytes: nat := 10 * 1024 * 1024

  const ExcerptLength: nat := 500

  const NoFileMessage: string := "No file uploaded"
  const UnsupportedTypeMessage: string :=
    "File type not supported. Please upload PDF, DOC, DOCX, or TXT files."
  const TooLargeMessage: string := "File size must be less than 10MB"
  const MissingKeyMessage: string :=
    "Gemini API key not configured. Please set GEMINI_API_KEY environment variable."
  const EmptyReplyMessage: string := "Failed to analyze document with AI"
  const ParseFailedMessage: string := "Failed to parse AI response. Please try again."
  const InternalErrorMessage: string := "Internal server error. Please try again."

  /** The metadata of an uploaded `File`. */
  datatype FileInfo = FileInfo(name: string, mimeType: string, size: nat)

  datatype UploadError = UploadError(status: int, message: string)

  predicate IsSupportedType(t: string)
  {
    t == PdfMime || t == MsWordMime || t == DocxMime || t == TextMime
  }

  /** The checks made before the model is called, in their order: the first
      one that fails decides the response. */
  function CheckUpload(file: Option<FileInfo>, apiKeyConfigured: bool): (r: Option<UploadError>)
    ensures file.None? ==> r == Some(UploadError(400, NoFileMessage))
    ensures file.Some? && !IsSupportedType(file.value.mimeType) ==>
      r == Some(UploadError(400, UnsupportedTypeMessage))
    ensures file.Some? && IsSupportedType(file.value.mimeType) && file.value.size > MaxUploadBytes ==>
      r == Some(UploadError(400, TooLargeMessage))
    ensures file.Some? && IsSupportedType(file.value.mimeType) && file.value.size <= MaxUploadBytes
            && !apiKeyConfigured ==>
      r == Some(UploadError(500, MissingKeyMessage))
    ensures r.None? <==>
      file.Some? && IsSupportedType(file.value.mimeType) && file.value.size <= MaxUploadBytes
      && apiKeyConfigured
  {
    if file.None? then Some(UploadError(400, NoFileMessage))
    else if !IsSupportedType(file.value.mimeType) then Some(UploadError(400, UnsupportedTypeMessage))
    else if file.value.size > MaxUploadBytes then Some(UploadError(400, TooLargeMessage))
    else if !apiKeyConfigured then Some(UploadError(500, MissingKeyMessage))
    else None
  }

  /** The MIME type sent to the model: `.doc` is announced as `.docx`. */
  function RemapMime(t: string): (r: string)
    ensures t == MsWordMime ==> r == DocxMime
    ensures t != MsWordMime ==> r == t
    ensures IsSupportedType(t) ==> IsSupportedType(r) && r != MsWordMime
  {
    if t == MsWordMime then DocxMime else t
  }

  // ---------------------------------------------------------------------------
  // Cleaning the model's reply
  // ---------------------------------------------------------------------------

  const Fence: string := "```"
  const JsonFence: string := "```json"

  /** Removing the regular expression `^<fence>\s*` from a string that starts
      with the fence. */
  function StripLeadingFence(s: string, fence: string): (r: string)
    requires StartsWith(s, fence)
    ensures |r| <= |s| - |fence|
    // what is left is a suffix of the text after the fence, only whitespace
    // was removed, and no leading whitespace remains
    ensures var rest := s[|fence|..];
      && r == rest[|rest| - |r|..]
      && AllSpace(rest[..|rest| - |r|])
      && (r == [] || !IsJsSpace(r[0]))
  {
    TrimStart(s[|fence|..])
  }

  /** Removing the regular expression `\s*```$`: a closing fence at the very
      end goes, with all whitespace before it. */
  function StripTrailingFence(s: string): (r: string)
    ensures |r| <= |s|
    ensures !EndsWith(s, Fence) ==> r == s
    // with a closing fence: what is left is a prefix of the text before it,
    // only whitespace was removed, and no trailing whitespace remains
    ensures EndsWith(s, Fence) ==>
      var front := s[..|s| - |Fence|];
      && |r| <= |front| && r == front[..|r|]
      && AllSpace(front[|r|..])
      && (r == [] || !IsJsSpace(r[|r| - 1]))
  {
    if EndsWith(s, Fence) then TrimEnd(s[..|s| - |Fence|]) else s
  }

  /** The fence removal applied to the trimmed reply. */
  function StripFences(t: string): (r: string)
    ensures !StartsWith(t, Fence) ==> r == t
    ensures |r| <= |t|
  {
    JsonFenceIsFence(t);
    if StartsWith(t, JsonFence) then StripTrailingFence(StripLeadingFence(t, JsonFence))
    else if StartsWith(t, Fence) then StripTrailingFence(StripLeadingFence(t, Fence))
    else t
  }

  /** The text handed to `JSON.parse`: the trimmed reply with an opening
      ```` ```json ```` or ```` ``` ```` fence and a closing fence removed. */
  function CleanResponse(reply: string): (r: string)
    ensures |r| <= |reply|
    // a reply that is not fenced once trimmed is only trimmed
    ensures !StartsWith(Trim(reply), Fence) ==> r == Trim(reply)
  {
    StripFences(Trim(reply))
  }

  /** After a bare fence, a whitespace character rules out ```` ```json ````. */
  lemma BareFenceIsNotJsonFence(t: string)
    requires |t| > |Fence| && IsJsSpace(t[|Fence|])
    ensures !StartsWith(t, JsonFence)
  {
  }

  lemma JsonFenceIsFence(t: string)
    ensures StartsWith(t, JsonFence) ==> StartsWith(t, Fence)
  {
    if StartsWith(t, JsonFence) {
      assert t[..|Fence|] == t[..|JsonFence|][..|Fence|];
      assert JsonFence[..|Fence|] == Fence;
    }
  }

  predicate NoOuterSpace(body: string)
  {
    body == [] || (!IsJsSpace(body[0]) && !IsJsSpace(body[|body| - 1]))
  }

  lemma {:induction false} StripLeadingOfOpened(fence: string, open: string, body: string, close: string)
    requires AllSpace(open) && AllSpace(close) && NoOuterSpace(body)
    ensures StartsWith(fence + (open + body + close + Fence), fence)
    ensures StripLeadingFence(fence + (open + body + close + Fence), fence) ==
      if body == [] then Fence else body + close + Fence
  {
    var x := open + body + close + Fence;
    assert (fence + x)[..|fence|] == fence;
    assert (fence + x)[|fence|..] == x;
    if body == [] {
      assert x == (open + close) + Fence;
      TrimStartPadded(open + close, Fence);
    } else {
      assert x == open + (body + close + Fence);
      TrimStartPadded(open, body + close + Fence);
    }
  }

  lemma {:induction false} StripTrailingOfClosed(body: string, close: string)
    requires AllSpace(close) && NoOuterSpace(body)
    ensures StripTrailingFence(if body == [] then Fence else body + close + Fence) == body
  {
    if body == [] {
      assert Fence[..0] == [];
    } else {
      var rest := body + close + Fence;
      assert rest[|rest| - |Fence|..] == Fence;
      assert rest[..|rest| - |Fence|] == body + close;
      TrimEndPadded(body, close);
    }
  }

  lemma StripFencesJson(open: string, body: string, close: string)
    requires AllSpace(open) && AllSpace(close) && NoOuterSpace(body)
    ensures StripFences(JsonFence + (open + body + close + Fence)) == body
  {
    var inner := JsonFence + (open + body + close + Fence);
    StripLeadingOfOpened(JsonFence, open, body, close);
    StripTrailingOfClosed(body, close);
    assert StripFences(inner) == StripTrailingFence(StripLeadingFence(inner, JsonFence));
  }

  lemma StripFencesBare(open: string, body: string, close: string)
    requires AllSpace(open) && AllSpace(close) && NoOuterSpace(body) && open != []
    ensures StripFences(Fence + (open + body + close + Fence)) == body
  {
    var inner := Fence + (open + body + close + Fence);
    StripLeadingOfOpened(Fence, open, body, close);
    StripTrailingOfClosed(body, close);
    assert inner[|Fence|] == open[0];
    BareFenceIsNotJsonFence(inner);
    assert StripFences(inner) == StripTrailingFence(StripLeadingFence(inner, Fence));
  }

  /** A reply that opens with a ```` ```json ```` fence but has no closing
      fence loses the opening fence and the whitespace after it, and
      nothing else. */
  lemma StripFencesJsonUnclosed(open: string, body: string)
    requires AllSpace(open) && NoOuterSpace(body) && !EndsWith(body, Fence)
    ensures StripFences(JsonFence + (open + body)) == body
  {
    var t := JsonFence + (open + body);
    assert t[..|JsonFence|] == JsonFence;
    assert t[|JsonFence|..] == open + body;
    TrimStartPadded(open, body);
    assert StripFences(t) == StripTrailingFence(StripLeadingFence(t, JsonFence));
  }

  /** A body inside a ```` ```json ```` fence, or inside a bare fence
      followed by whitespace, comes out as the body. */
  lemma StripFencesOfFenced(tag: string, open: string, body: string, close: string)
    requires AllSpace(open) && AllSpace(close) && NoOuterSpace(body)
    requires tag == "json" || (tag == "" && open != [])
    ensures StripFences((Fence + tag) + (open + body + close + Fence)) == body
  {
    if tag == "" {
      assert Fence + tag == Fence;
      StripFencesBare(open, body, close);
    } else {
      assert Fence + tag == JsonFence;
      StripFencesJson(open, body, close);
    }
  }

  /** A reply made of a fenced body with any whitespace around it and inside
      the fences is cleaned to exactly the body. */
  lemma CleanFencedReply(lead: string, tag: string, open: string, body: string, close: string, trail: string)
    requires AllSpace(lead) && AllSpace(open) && AllSpace(close) && AllSpace(trail)
    requires NoOuterSpace(body)
    requires tag == "json" || (tag == "" && open != [])
    ensures CleanResponse(lead + ((Fence + tag) + (open + body + close + Fence)) + trail) == body
  {
    var x := open + body + close + Fence;
    var inner := (Fence + tag) + x;
    assert inner[0] == (Fence + tag)[0] == Fence[0] == '`';
    assert x[|x| - 1] == Fence[2] == '`';
    assert inner[|inner| - 1] == x[|x| - 1];
    assert !IsJsSpace('`');
    TrimPadded(lead, inner, trail);
    StripFencesOfFenced(tag, open, body, close);
  }

  /** `aiResponse.substring(0, 500) + (aiResponse.length > 500 ? '...' : '')`. */
  function Excerpt(reply: string): (r: string)
    ensures |reply| <= ExcerptLength ==> r == reply
    ensures |reply| > ExcerptLength ==>
      |r| == ExcerptLength + |Ellipsis| && r[..ExcerptLength] == reply[..ExcerptLength]
      && r[ExcerptLength..] == Ellipsis
    ensures |r| <= ExcerptLength + |Ellipsis|
  {
    Prefix(reply, ExcerptLength) + (if |reply| > ExcerptLength then Ellipsis else "")
  }

  // ---------------------------------------------------------------------------
  // Normalising the parsed reply
  // ---------------------------------------------------------------------------

  /** The four extraction fields, each a truthy JSON value or null. */
  datatype ExtractedData = ExtractedData(
    patientName: JsonValue,
    dateOfBirth: JsonValue,
    patientId: JsonValue,
    insuranceProvider: JsonValue)

  predicate IsNormalized(d: ExtractedData)
  {
    && (d.patientName == JNull || Truthy(d.patientName))
    && (d.dateOfBirth == JNull || Truthy(d.dateOfBirth))
    && (d.patientId == JNull || Truthy(d.patientId))
    && (d.insuranceProvider == JNull || Truthy(d.insuranceProvider))
  }

  /** Each field is the parsed value when that is truthy, otherwise null;
      nothing else of the parsed value survives. */
  function Normalize(v: JsonValue): (d: ExtractedData)
    ensures IsNormalized(d)
    ensures Truthy(Property(v, "patientName")) ==> d.patientName == Property(v, "patientName")
    ensures Truthy(Property(v, "dateOfBirth")) ==> d.dateOfBirth == Property(v, "dateOfBirth")
    ensures Truthy(Property(v, "patientId")) ==> d.patientId == Property(v, "patientId")
    ensures Truthy(Property(v, "insuranceProvider")) ==>
      d.insuranceProvider == Property(v, "insuranceProvider")
    ensures !Truthy(Property(v, "patientName")) ==> d.patientName == JNull
    ensures !Truthy(Property(v, "dateOfBirth")) ==> d.dateOfBirth == JNull
    ensures !Truthy(Property(v, "patientId")) ==> d.patientId == JNull
    ensures !Truthy(Property(v, "insuranceProvider")) ==> d.insuranceProvider == JNull
  {
    ExtractedData(
      OrNull(Property(v, "patientName")),
      OrNull(Property(v, "dateOfBirth")),
      OrNull(Property(v, "patientId")),
      OrNull(Property(v, "insuranceProvider")))
  }

  /** The JSON object the handler sends back for the extracted data. */
  function ToJson(d: ExtractedData): JsonValue
  {
    JObject(map[
      "patientName" := d.patientName,
      "dateOfBirth" := d.dateOfBirth,
      "patientId" := d.patientId,
      "insuranceProvider" := d.insuranceProvider])
  }

  /** Normalised data survives being sent as JSON and normalised again. */
  lemma NormalizeRoundTrip(d: ExtractedData)
    requires IsNormalized(d)
    ensures Normalize(ToJson(d)) == d
  {
    var m := ToJson(d).fields;
    assert m["patientName"] == d.patientName;
    assert m["dateOfBirth"] == d.dateOfBirth;
    assert m["patientId"] == d.patientId;
    assert m["insuranceProvider"] == d.insuranceProvider;
  }

  // ---------------------------------------------------------------------------
  // The POST handler
  // ---------------------------------------------------------------------------

  /** The model call: it throws, or its reply has a text. */
  datatype AiOutcome = AiThrew | AiText(text: string)

  datatype UploadResponse =
    | Extracted(data: ExtractedData, originalText: string)
    | Failed(error: UploadError)

  /** `POST /upload`. `generate(m)` is the model's answer to the fixed prompt
      and the document sent as MIME type `m`; `parse` is `JSON.parse`. */
  method Post(file: Option<FileInfo>, apiKeyConfigured: bool,
              generate: string -> AiOutcome, parse: string -> ParseResult)
    returns (resp: UploadResponse)
    ensures CheckUpload(file, apiKeyConfigured).Some? ==>
      resp == Failed(CheckUpload(file, apiKeyConfigured).value)
    ensures CheckUpload(file, apiKeyConfigured).None? ==>
      var reply := generate(RemapMime(file.value.mimeType));
      && (reply.AiThrew? ==> resp == Failed(UploadError(500, InternalErrorMessage)))
      && (reply.AiText? && reply.text == "" ==> resp == Failed(UploadError(500, EmptyReplyMessage)))
      && (reply.AiText? && reply.text != "" ==>
            var parsed := parse(CleanResponse(reply.text));
            && (!(parsed.Parsed? && IsNonNullObject(parsed.value)) ==>
                  resp == Failed(UploadError(500, ParseFailedMessage)))
            && (parsed.Parsed? && IsNonNullObject(parsed.value) ==>
                  resp == Extracted(Normalize(parsed.value), Excerpt(reply.text))))
    ensures resp.Extracted? ==>
      && file.Some? && IsSupportedType(file.value.mimeType) && file.value.size <= MaxUploadBytes
      && IsNormalized(resp.data) && |resp.originalText| <= ExcerptLength + |Ellipsis|
  {
    var check := CheckUpload(file, apiKeyConfigured);
    if check.Some? {
      return Failed(check.value);
    }
    var f := file.value;
    var mimeType := f.mimeType;
    if f.mimeType == MsWordMime {
      mimeType := DocxMime;
    }
    var reply := generate(mimeType);
    if reply.AiThrew? {
      return Failed(UploadError(500, InternalErrorMessage));
    }
    var aiResponse := reply.text;
    if aiResponse == "" {
      return Failed(UploadError(500, EmptyReplyMessage));
    }
    var cleanedResponse := Trim(aiResponse);
    if StartsWith(cleanedResponse, JsonFence) {
      cleanedResponse := StripTrailingFence(StripLeadingFence(cleanedResponse, JsonFence));
    } else if StartsWith(cleanedResponse, Fence) {
      cleanedResponse := StripTrailingFence(StripLeadingFence(cleanedResponse, Fence));
    }
    var parsed := parse(cleanedResponse);
    if !(parsed.Parsed? && IsNonNullObject(parsed.value)) {
      return Failed(UploadError(500, ParseFailedMessage));
    }
    var extractedData := Normalize(parsed.value);
    resp := Extracted(extractedData, Excerpt(aiResponse));
  }
}
