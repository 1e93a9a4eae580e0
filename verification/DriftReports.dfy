/** The status rule every drift report shares (`DriftReport.status`). */
module DriftReports {
  const CHECK_COMPLETE := "complete"
  const CHECK_PARTIAL := "partial"
  const CHECK_FAILED := "failed"

  datatype Status = Healthy | DriftDetected | CheckFailed | Unknown

  /** A check that is not complete has no verdict, however little drift it saw. */
  function StatusOf(checkStatus: string, driftCount: nat): Status {
    if checkStatus == CHECK_COMPLETE then (if driftCount == 0 then Healthy else DriftDetected)
    else if checkStatus == CHECK_FAILED then CheckFailed
    else Unknown
  }
}
