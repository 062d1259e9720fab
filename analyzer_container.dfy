/**
 * The client flow of the analyzer page: the `UploadState` record held by the
 * container and its transitions on a drop, on an analysis (its start and its
 * completion) and on closing the document.
 */
module AnalyzerContainer {
  import opened JsCore
  import Upload
  import Instructions

  const PreviewFailedMessage: string := "Failed to create file preview"
  const AnalysisFailedMessage: string := "Analysis failed"
  const UnknownErrorMessage: string := "An error occurred"

  datatype UploadState = UploadState(
    isUploading: bool,
    isAnalyzing: bool,
    extractedData: Option<Upload.ExtractedData>,
    error: Option<string>,
    originalText: Option<string>,
    uploadedFile: Option<Upload.FileInfo>,
    filePreview: Option<string>)

  const InitialState: UploadState :=
    UploadState(false, false, None, None, None, None, None)

  /** What holds between transitions: no upload is in progress, a file is
      shown exactly when it has a preview, and no extracted data is shown
      while an analysis runs. */
  predicate Consistent(s: UploadState)
  {
    && !s.isUploading
    && (s.uploadedFile.Some? <==> s.filePreview.Some?)
    && (s.isAnalyzing ==> s.extractedData.None? && s.originalText.None?)
  }

  /** How the request to the upload endpoint ended: a response with its `ok`
      flag and the fields of its JSON body, a thrown `Error` with its message
      (a network failure or a body that is not JSON), or a thrown value that
      is not an `Error`. */
  datatype AnalysisOutcome =
    | Responded(ok: bool, errorField: Option<string>, data: Option<Upload.ExtractedData>,
                originalText: Option<string>)
    | ThrewError(message: string)
    | ThrewOther

  /** The message shown for an analysis that did not succeed. */
  function FailureMessage(outcome: AnalysisOutcome): (m: string)
    requires !(outcome.Responded? && outcome.ok)
    ensures outcome.Responded? && TruthyString(outcome.errorField) ==> m == outcome.errorField.value
    ensures outcome.Responded? && !TruthyString(outcome.errorField) ==> m == AnalysisFailedMessage
    ensures outcome.ThrewError? ==> m == outcome.message
    ensures outcome.ThrewOther? ==> m == UnknownErrorMessage
    ensures m != "" || outcome.ThrewError?
  {
    match outcome
    case Responded(_, errorField, _, _) =>
      if TruthyString(errorField) then errorField.value else AnalysisFailedMessage
    case ThrewError(message) => message
    case ThrewOther => UnknownErrorMessage
  }

  class DocumentAnalyzer {
    var isUploading: bool
    var isAnalyzing: bool
    var extractedData: Option<Upload.ExtractedData>
    var error: Option<string>
    var originalText: Option<string>
    var uploadedFile: Option<Upload.FileInfo>
    var filePreview: Option<string>

    function State(): UploadState
      reads this
    {
      UploadState(isUploading, isAnalyzing, extractedData, error, originalText,
                  uploadedFile, filePreview)
    }

    ghost predicate Valid()
      reads this
    {
      Consistent(State())
    }

    /** The step the step indicator shows for the current state. */
    function Step(): int
      reads this
    {
      Instructions.CurrentStep(uploadedFile.Some?, isAnalyzing, extractedData.Some?)
    }

    constructor()
      ensures State() == InitialState
      ensures Valid() && Step() == 1
    {
      isUploading := false;
      isAnalyzing := false;
      extractedData := None;
      error := None;
      originalText := None;
      uploadedFile := None;
      filePreview := None;
    }

    /** `onDrop`. `preview` is the object URL made for the first file, or
        `None` when making it throws. */
    method OnDrop(acceptedFiles: seq<Upload.FileInfo>, preview: Option<string>)
      requires Valid()
      modifies this
      ensures Valid()
      ensures acceptedFiles == [] ==> State() == old(State())
      ensures acceptedFiles != [] && preview.Some? ==>
        State() == old(State()).(isUploading := false, error := None, extractedData := None,
                                 originalText := None, filePreview := preview,
                                 uploadedFile := Some(acceptedFiles[0]))
      ensures acceptedFiles != [] && preview.None? ==>
        State() == old(State()).(isUploading := false, error := Some(PreviewFailedMessage),
                                 extractedData := None, originalText := None)
      ensures acceptedFiles != [] && preview.Some? && !isAnalyzing ==> Step() == 2
    {
      if acceptedFiles == [] {
        return;
      }
      var file := acceptedFiles[0];
      isUploading := true;
      error := None;
      extractedData := None;
      originalText := None;
      match preview
      case Some(url) =>
        filePreview := Some(url);
        uploadedFile := Some(file);
        isUploading := false;
      case None =>
        error := Some(PreviewFailedMessage);
        isUploading := false;
    }

    /** The synchronous start of `analyzeDocument`: nothing happens without an
        uploaded file; otherwise the analysis is marked running and the
        previous result and error are cleared. */
    method BeginAnalysis() returns (started: bool)
      requires Valid()
      modifies this
      ensures Valid()
      ensures started <==> old(uploadedFile).Some?
      ensures !started ==> State() == old(State())
      ensures started ==>
        State() == old(State()).(isAnalyzing := true, error := None, extractedData := None,
                                 originalText := None)
      ensures started ==> Step() == 3
    {
      if uploadedFile.None? {
        return false;
      }
      isAnalyzing := true;
      error := None;
      extractedData := None;
      originalText := None;
      started := true;
    }

    /** The completion of `analyzeDocument` once the request has ended. It
        applies to whatever the state is by then, so a document closed in the
        meantime still receives the result. */
    method FinishAnalysis(outcome: AnalysisOutcome)
      requires Valid()
      modifies this
      ensures Valid()
      ensures outcome.Responded? && outcome.ok ==>
        State() == old(State()).(extractedData := outcome.data, originalText := outcome.originalText,
                                 isAnalyzing := false)
      ensures !(outcome.Responded? && outcome.ok) ==>
        State() == old(State()).(error := Some(FailureMessage(outcome)), isAnalyzing := false)
      ensures old(uploadedFile).Some? && outcome.Responded? && outcome.ok && outcome.data.Some? ==>
        Step() == 4
      ensures old(uploadedFile).Some? && !(outcome.Responded? && outcome.ok) ==>
        (Step() == 2 <==> old(extractedData).None?)
      // a failure ending the analysis that is running goes back to step 2,
      // since no data is shown while an analysis runs
      ensures old(isAnalyzing) && old(uploadedFile).Some? && !(outcome.Responded? && outcome.ok) ==>
        Step() == 2
    {
      if outcome.Responded? && outcome.ok {
        extractedData := outcome.data;
        originalText := outcome.originalText;
        isAnalyzing := false;
      } else {
        error := Some(FailureMessage(outcome));
        isAnalyzing := false;
      }
    }

    /** `analyzeDocument` when nothing else happens while the request is in
        flight. */
    method AnalyzeDocument(outcome: AnalysisOutcome)
      requires Valid()
      modifies this
      ensures Valid()
      ensures old(uploadedFile).None? ==> State() == old(State())
      ensures old(uploadedFile).Some? && outcome.Responded? && outcome.ok ==>
        State() == old(State()).(isAnalyzing := false, error := None, extractedData := outcome.data,
                                 originalText := outcome.originalText)
      ensures old(uploadedFile).Some? && !(outcome.Responded? && outcome.ok) ==>
        State() == old(State()).(isAnalyzing := false, error := Some(FailureMessage(outcome)),
                                 extractedData := None, originalText := None)
      // the uploaded file and its preview are never touched
      ensures uploadedFile == old(uploadedFile) && filePreview == old(filePreview)
      // the indicator ends at the results or back at the review step
      ensures old(uploadedFile).Some? && outcome.Responded? && outcome.ok && outcome.data.Some? ==>
        Step() == 4
      ensures old(uploadedFile).Some? && !(outcome.Responded? && outcome.ok) ==> Step() == 2
    {
      var started := BeginAnalysis();
      if started {
        FinishAnalysis(outcome);
      }
    }

    /** `handleClose`: back to the initial state. */
    method HandleClose()
      modifies this
      ensures State() == InitialState
      ensures Valid() && Step() == 1
    {
      isUploading := false;
      isAnalyzing := false;
      extractedData := None;
      error := None;
      originalText := None;
      uploadedFile := None;
      filePreview := None;
    }
  }
}
