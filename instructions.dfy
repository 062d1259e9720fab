/**
 * The step indicator: which of the four steps (upload, review, processing,
 * results) the user is at, and the status shown for each step.
 */
module Instructions {

  datatype StepStatus = Completed | Active | Pending

  /** `getCurrentStep`, from whether a file is uploaded, whether the analysis
      is running and whether extracted data is present. */
  function CurrentStep(hasFile: bool, isAnalyzing: bool, hasData: bool): (step: int)
    ensures 1 <= step <= 4
    ensures !hasFile ==> step == 1
    ensures hasFile && !isAnalyzing && !hasData ==> step == 2
    ensures hasFile && isAnalyzing ==> step == 3
    ensures hasFile && !isAnalyzing && hasData ==> step == 4
  {
    if !hasFile then 1
    else if hasFile && !hasData && !isAnalyzing then 2
    else if isAnalyzing then 3
    else if hasData then 4
    else 1
  }

  /** The `status` of the four entries of `steps` (index k is step k + 1). */
  function StepStatuses(current: int): (s: seq<StepStatus>)
    ensures |s| == 4
    // only the processing step can be active, and exactly while it is current
    ensures forall k :: 0 <= k < 4 ==> (s[k] == Active <==> k == 2 && current == 3)
    // the steps after the current one are pending
    ensures forall k :: 0 <= k < 4 ==> (s[k] == Pending <==> k + 1 > current)
    // completed steps form a prefix
    ensures forall j, k :: 0 <= j < k < 4 && s[k] == Completed ==> s[j] == Completed
  {
    [ if current >= 1 then Completed else Pending,
      if current >= 2 then Completed else Pending,
      if current == 3 then Active else if current > 3 then Completed else Pending,
      if current >= 4 then Completed else Pending ]
  }

  /** The statuses the component renders for a given input. */
  function Steps(hasFile: bool, isAnalyzing: bool, hasData: bool): (s: seq<StepStatus>)
    ensures |s| == 4 && s[0] == Completed
    ensures s[2] == Active <==> CurrentStep(hasFile, isAnalyzing, hasData) == 3
    ensures CurrentStep(hasFile, isAnalyzing, hasData) == 1 ==> s == [Completed, Pending, Pending, Pending]
    ensures CurrentStep(hasFile, isAnalyzing, hasData) == 4 ==> s == [Completed, Completed, Completed, Completed]
  {
    StepStatuses(CurrentStep(hasFile, isAnalyzing, hasData))
  }
}
