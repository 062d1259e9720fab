/**
 * The row shape of the `analysis_records` table as the storage adapter
 * declares it: every extracted field, the original text and the file
 * metadata are nullable; the identifier and the timestamps are filled in by
 * the store.
 */
module Records {
  import opened JsCore

  datatype AnalysisRecord = AnalysisRecord(
    id: Option<string>,
    patientName: Option<string>,
    dateOfBirth: Option<string>,
    patientId: Option<string>,
    insuranceProvider: Option<string>,
    originalText: Option<string>,
    fileName: Option<string>,
    fileType: Option<string>,
    fileUrl: Option<string>,
    fileSize: Option<nat>,
    createdAt: Option<string>,
    updatedAt: Option<string>)
}
