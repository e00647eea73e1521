/** The two invoice pipelines of src/processing.py: the manual baseline and
    the automated run whose transaction log is sealed with a Merkle root.

    What the pipelines cannot decide themselves becomes a parameter:
    - the first CSV row of the invoice file, or the message of the exception
      raised while opening or reading it (`InvoiceFile.firstRow`);
    - the scaling factor that the simulated sleep divides by (a zero or
      negative factor makes the sleep raise);
    - each `random.random()` draw compared against an error rate;
    - the SHA-256 hex digest function `h`. */
module Processing {
  import opened Auditing

  /** One CSV row: column name to cell text. */
  type Row = map<string, string>

  /** The outcome of a Python call that may raise. */
  datatype Call<T> = Returned(value: T) | Raised(message: string)

  /** An invoice file: its base name and what reading its first row yields. */
  datatype InvoiceFile = InvoiceFile(name: string, firstRow: Call<Row>)

  datatype Status = Success | Failure

  datatype ErrorType =
    | DataQuality
    | SystemOperational
    | SystemProcessing
    | DataExtraction
    | UnknownBaselineError
    | UnknownKognitosError

  /** ProcessingResult: the five fields every exit of both pipelines fills in. */
  datatype ProcessingResult = ProcessingResult(
    status: Status,
    errorDetails: Option<string>,
    merkleRoot: Option<string>,
    invoiceId: string,
    errorType: Option<ErrorType>)

  /** What the mocked automation service answers. */
  datatype ApiResult = ApiFailure(reason: string) | ApiSuccess(extractedTotal: Option<string>)

  const ManualErrorRate: real := 0.07
  const ManualOperationalErrorRate: real := 0.01
  const KognitosErrorRate: real := 0.005

  /** The fixed "English-as-code" instructions whose digest is logged. */
  const KognitosSteps: string :=
    "\n        1. READ the invoice file.\n        2. EXTRACT the invoice_id, vendor_name, and total.\n        3. VALIDATE that the total is a positive number.\n        4. PREPARE the data for ERP entry.\n        "

  const IncorrectTotalDetail: string := "Manual data entry error: incorrect total."
  const MissingIdDetail: string := "Manual validation error: Missing invoice ID."
  const OperationalDetail: string := "Manual operational error: payment misrouting or delay."
  const MissingIdReason: string := "Cannot proceed without invoice_id"
  const ProcessingAnomalyDetail: string := "Kognitos processing error: minor system anomaly."

  function StatusName(s: Status): (r: string)
  {
    match s
    case Success => "SUCCESS"
    case Failure => "FAILURE"
  }

  /** `data.get("invoice_id", "UNKNOWN")`: an absent column reads as "UNKNOWN". */
  function ReadInvoiceId(data: Row): (r: string)
  {
    if "invoice_id" in data then data["invoice_id"] else "UNKNOWN"
  }

  /** `invoice_id or f"failed_{name}"`: the identifier reported from an exception handler. */
  function ReportedId(invoiceId: string, fileName: string): (r: string)
  {
    if invoiceId != "" then invoiceId else "failed_" + fileName
  }

  /** The exception a simulated sleep raises, if any: the sampled minutes are
      positive, so dividing by a zero factor raises ZeroDivisionError and a
      negative factor yields a negative sleep length, which time.sleep refuses. */
  function SleepFault(realHoursPerDemoSecond: real): (fault: Option<string>)
    ensures fault.None? <==> realHoursPerDemoSecond > 0.0
  {
    if realHoursPerDemoSecond == 0.0 then Some("float division by zero")
    else if realHoursPerDemoSecond < 0.0 then Some("sleep length must be non-negative")
    else None
  }

  /** `_mock_kognitos_api`: sleep, then refuse a record without a usable
      identifier, else echo its total. The instructions are not inspected. */
  function MockKognitosApi(steps: string, data: Row, realHoursPerDemoSecond: real): (r: Call<ApiResult>)
    ensures r.Raised? <==> realHoursPerDemoSecond <= 0.0
    ensures r.Returned? ==> (r.value.ApiFailure? <==> ("invoice_id" !in data || data["invoice_id"] == ""))
    ensures r.Returned? && r.value.ApiFailure? ==> r.value.reason == MissingIdReason
    ensures r.Returned? && r.value.ApiSuccess? ==>
              r.value.extractedTotal == (if "total" in data then Some(data["total"]) else None)
  {
    match SleepFault(realHoursPerDemoSecond)
    case Some(message) => Raised(message)
    case None =>
      if "invoice_id" !in data || data["invoice_id"] == "" then Returned(ApiFailure(MissingIdReason))
      else Returned(ApiSuccess(if "total" in data then Some(data["total"]) else None))
  }

  function ApiStatus(api: ApiResult): (r: Status)
  {
    if api.ApiSuccess? then Success else Failure
  }

  function StartEntry(fileName: string): (r: string)
  {
    "START_PROCESSING:" + fileName
  }

  function InstructionsEntry(h: string -> string): (r: string)
  {
    "LOAD_INSTRUCTIONS_HASH:" + h(KognitosSteps)
  }

  function ApiStatusEntry(status: Status): (r: string)
  {
    "API_CALL_STATUS:" + StatusName(status)
  }

  function CompleteEntry(invoiceId: string): (r: string)
  {
    "PROCESS_COMPLETE:" + invoiceId
  }

  /** The longest transaction log a run over `data` can write; every exit
      leaves a prefix of it. */
  function FullLog(h: string -> string, fileName: string, data: Row): (r: seq<string>)
  {
    var status := if "invoice_id" !in data || data["invoice_id"] == "" then Failure else Success;
    [StartEntry(fileName), InstructionsEntry(h), ApiStatusEntry(status), CompleteEntry(ReadInvoiceId(data))]
  }

  /** run_baseline_process: the manual pipeline. It never produces an audit
      seal; its checks run in a fixed order: the entry-error draw, then the
      identifier, then the operational-error draw. */
  method RunBaselineProcess(
    file: InvoiceFile, realHoursPerDemoSecond: real, entryErrorDraw: real, operationalDraw: real)
    returns (result: ProcessingResult)
    // manual never has a root
    ensures result.merkleRoot == None
    ensures result.status == Success <==> result.errorType == None
    ensures result.status == Success ==> result.errorDetails == None
    // an exception (unreadable file, refused sleep) is caught at the boundary
    ensures file.firstRow.Raised? ==>
              result == ProcessingResult(Failure, Some(file.firstRow.message), None,
                                         "failed_" + file.name, Some(UnknownBaselineError))
    ensures file.firstRow.Returned? && realHoursPerDemoSecond <= 0.0 ==>
              result == ProcessingResult(Failure, SleepFault(realHoursPerDemoSecond), None,
                                         ReportedId(ReadInvoiceId(file.firstRow.value), file.name),
                                         Some(UnknownBaselineError))
    ensures result.errorType == Some(UnknownBaselineError) <==>
              file.firstRow.Raised? || realHoursPerDemoSecond <= 0.0
    // every other exit reports the identifier as read, with no fallback
    ensures file.firstRow.Returned? && realHoursPerDemoSecond > 0.0 ==>
              result.invoiceId == ReadInvoiceId(file.firstRow.value)
    // the entry-error draw comes first, before the identifier is looked at
    ensures file.firstRow.Returned? && realHoursPerDemoSecond > 0.0 && entryErrorDraw < ManualErrorRate ==>
              result.errorType == Some(DataQuality) && result.errorDetails == Some(IncorrectTotalDetail)
    ensures file.firstRow.Returned? && realHoursPerDemoSecond > 0.0 && entryErrorDraw >= ManualErrorRate
            && ReadInvoiceId(file.firstRow.value) == "" ==>
              result.errorType == Some(DataQuality) && result.errorDetails == Some(MissingIdDetail)
    ensures result.errorType == Some(DataQuality) ==>
              entryErrorDraw < ManualErrorRate || ReadInvoiceId(file.firstRow.value) == ""
    // an operational failure needs a non-empty identifier and a passed first draw
    ensures result.errorType == Some(SystemOperational) <==>
              file.firstRow.Returned? && realHoursPerDemoSecond > 0.0 && entryErrorDraw >= ManualErrorRate
              && ReadInvoiceId(file.firstRow.value) != "" && operationalDraw < ManualOperationalErrorRate
    ensures result.errorType == Some(SystemOperational) ==> result.errorDetails == Some(OperationalDetail)
    ensures result.status == Success <==>
              file.firstRow.Returned? && realHoursPerDemoSecond > 0.0 && entryErrorDraw >= ManualErrorRate
              && ReadInvoiceId(file.firstRow.value) != "" && operationalDraw >= ManualOperationalErrorRate
  {
    var invoiceId := "";
    if file.firstRow.Raised? {
      return ProcessingResult(Failure, Some(file.firstRow.message), None,
                              ReportedId(invoiceId, file.name), Some(UnknownBaselineError));
    }
    var data := file.firstRow.value;
    invoiceId := ReadInvoiceId(data);

    var fault := SleepFault(realHoursPerDemoSecond);
    if fault.Some? {
      return ProcessingResult(Failure, fault, None, ReportedId(invoiceId, file.name), Some(UnknownBaselineError));
    }

    if entryErrorDraw < ManualErrorRate {
      return ProcessingResult(Failure, Some(IncorrectTotalDetail), None, invoiceId, Some(DataQuality));
    }

    if invoiceId == "" {
      return ProcessingResult(Failure, Some(MissingIdDetail), None, invoiceId, Some(DataQuality));
    }

    if operationalDraw < ManualOperationalErrorRate {
      return ProcessingResult(Failure, Some(OperationalDetail), None, invoiceId, Some(SystemOperational));
    }

    return ProcessingResult(Success, None, None, invoiceId, None);
  }

  /** run_kognitos_process: the automated pipeline. It appends to its
      transaction log as it goes and seals whatever the log holds with a
      Merkle root at every exit; `transactions` is that final log. */
  method RunKognitosProcess(
    h: string -> string, file: InvoiceFile, realHoursPerDemoSecond: real, processingDraw: real)
    returns (result: ProcessingResult, transactions: seq<string>)
    // the seal covers exactly the log written so far
    ensures result.merkleRoot == MerkleRoot(h, transactions)
    ensures result.merkleRoot == None <==> file.firstRow.Raised?
    // the log is append-only, in a fixed order
    ensures file.firstRow.Raised? ==> transactions == []
    ensures file.firstRow.Returned? ==>
              |transactions| >= 2 && transactions <= FullLog(h, file.name, file.firstRow.value)
    ensures result.status == Success <==> result.errorType == None
    ensures result.status == Success ==> result.errorDetails == None
    // exception before the start marker: no seal, fallback identifier
    ensures file.firstRow.Raised? ==>
              result == ProcessingResult(Failure, Some(file.firstRow.message), None,
                                         "failed_" + file.name, Some(UnknownKognitosError))
    // exception inside the service call: the seal covers the two entries written
    ensures file.firstRow.Returned? && realHoursPerDemoSecond <= 0.0 ==>
              |transactions| == 2 &&
              result == ProcessingResult(Failure, SleepFault(realHoursPerDemoSecond), MerkleRoot(h, transactions),
                                         ReportedId(ReadInvoiceId(file.firstRow.value), file.name),
                                         Some(UnknownKognitosError))
    ensures result.errorType == Some(UnknownKognitosError) <==>
              file.firstRow.Raised? || realHoursPerDemoSecond <= 0.0
    // every other exit reports the identifier as read, with no fallback
    ensures file.firstRow.Returned? && realHoursPerDemoSecond > 0.0 ==>
              result.invoiceId == ReadInvoiceId(file.firstRow.value)
    // a missing or empty identifier is refused by the service: three entries sealed
    ensures result.errorType == Some(DataExtraction) <==>
              file.firstRow.Returned? && realHoursPerDemoSecond > 0.0
              && ("invoice_id" !in file.firstRow.value || file.firstRow.value["invoice_id"] == "")
    ensures result.errorType == Some(DataExtraction) ==>
              transactions == [StartEntry(file.name), InstructionsEntry(h), ApiStatusEntry(Failure)]
              && result.errorDetails == Some("Kognitos API failed: unprocessable_input_format (" + MissingIdReason + ")")
    // the processing-error draw is consulted only after the service accepted the record
    ensures result.errorType == Some(SystemProcessing) <==>
              file.firstRow.Returned? && realHoursPerDemoSecond > 0.0
              && "invoice_id" in file.firstRow.value && file.firstRow.value["invoice_id"] != ""
              && processingDraw < KognitosErrorRate
    ensures result.errorType == Some(SystemProcessing) ==>
              transactions == [StartEntry(file.name), InstructionsEntry(h), ApiStatusEntry(Success)]
              && result.errorDetails == Some(ProcessingAnomalyDetail)
    // the happy path always succeeds
    ensures result.status == Success <==>
              file.firstRow.Returned? && realHoursPerDemoSecond > 0.0
              && "invoice_id" in file.firstRow.value && file.firstRow.value["invoice_id"] != ""
              && processingDraw >= KognitosErrorRate
    // success seals four entries, ending with the completion marker
    ensures result.status == Success ==>
              file.firstRow.Returned? &&
              transactions == [StartEntry(file.name), InstructionsEntry(h), ApiStatusEntry(Success),
                               CompleteEntry(file.firstRow.value["invoice_id"])]
  {
    transactions := [];
    var invoiceId := "";
    if file.firstRow.Raised? {
      var root := ComputeMerkleRoot(h, transactions);
      return ProcessingResult(Failure, Some(file.firstRow.message), root,
                              ReportedId(invoiceId, file.name), Some(UnknownKognitosError)), transactions;
    }
    var data := file.firstRow.value;
    invoiceId := ReadInvoiceId(data);

    // 1. Start
    transactions := transactions + [StartEntry(file.name)];
    // 2. Instructions digest
    transactions := transactions + [InstructionsEntry(h)];

    // 3. The (mocked) service call
    var apiCall := MockKognitosApi(KognitosSteps, data, realHoursPerDemoSecond);
    if apiCall.Raised? {
      var root := ComputeMerkleRoot(h, transactions);
      return ProcessingResult(Failure, Some(apiCall.message), root,
                              ReportedId(invoiceId, file.name), Some(UnknownKognitosError)), transactions;
    }
    var apiResult := apiCall.value;
    transactions := transactions + [ApiStatusEntry(ApiStatus(apiResult))];

    if apiResult.ApiFailure? {
      var root := ComputeMerkleRoot(h, transactions);
      var details := "Kognitos API failed: unprocessable_input_format (" + apiResult.reason + ")";
      return ProcessingResult(Failure, Some(details), root, invoiceId, Some(DataExtraction)), transactions;
    }

    if processingDraw < KognitosErrorRate {
      var root := ComputeMerkleRoot(h, transactions);
      return ProcessingResult(Failure, Some(ProcessingAnomalyDetail), root, invoiceId, Some(SystemProcessing)),
             transactions;
    }

    // 4. Finalize
    transactions := transactions + [CompleteEntry(invoiceId)];

    // 5. Audit seal
    var merkleRoot := ComputeMerkleRoot(h, transactions);
    return ProcessingResult(Success, None, merkleRoot, invoiceId, None), transactions;
  }
}
