/**
 * The request handler of api/detect.py (`handler`): a pure decision tree
 * from the backend flag, the request and the outcomes of the two backend
 * collaborators to exactly one response envelope.
 */
module Handler {
  import opened Seqs
  import opened Utf8
  import Multipart

  /** The request as the handler sees it; `verb` is `request.method`. */
  datatype Request = Request(verb: string, headers: map<string, string>, body: seq<byte>)

  /** What `parse_csv(text)` does: return records, raise `ValueError`, or raise any other `Exception`. */
  datatype CsvOutcome<R> = Records(records: seq<R>) | ValueError(reason: string) | OtherError(reason: string)

  /** What `run_detection(records)` followed by serialisation does: succeed or raise an `Exception`. */
  datatype DetectionOutcome<D> = Detected(result: D) | DetectionFailed(reason: string)

  /** An exception that reaches the outermost `except Exception`. */
  datatype Fault =
    | DecodeFault(offset: nat)     // `UnicodeDecodeError` from the extractor
    | ParserFault(reason: string)  // a non-`ValueError` exception from `parse_csv`

  /** The `detail` of every error envelope. */
  datatype Message =
    | BackendMissing
    | NotMultipart
    | NoFile
    | CsvParsingError(reason: string)
    | NoTransactions
    | DetectionError(reason: string)
    | UnexpectedError(fault: Fault)
    | MethodNotAllowed

  /** The JSON body: `{"detail": …}`, the health payload, or the detection result. */
  datatype Body<D> = Detail(detail: Message) | Health(status: string, message: string) | Report(result: D)

  /** The returned dictionary; an envelope without a `headers` key has the empty map. */
  datatype Response<D> = Response(statusCode: int, headers: map<string, string>, body: Body<D>)

  const JSON_HEADERS: map<string, string> := map["Content-Type" := "application/json"]
  const SERVICE_NAME := "Money Muling Detection Engine API"
  const MULTIPART := "multipart/form-data"
  const BOUNDARY_KEY := "boundary="

  /** The text of each detail message. */
  function Text(m: Message): string
  {
    match m
    case BackendMissing => "Backend modules not available. Please deploy backend separately."
    case NotMultipart => "Content-Type must be multipart/form-data"
    case NoFile => "No file found in request"
    case CsvParsingError(reason) => "CSV parsing error: " + reason
    case NoTransactions => "No transactions found in CSV"
    case DetectionError(reason) => "Detection error: " + reason
    case UnexpectedError(ParserFault(reason)) => "Unexpected error: " + reason
    case UnexpectedError(DecodeFault(_)) => "Unexpected error: 'utf-8' codec can't decode"
    case MethodNotAllowed => "Method not allowed"
  }

  /** The error taxonomy: bad request, wrong verb, internal fault, backend unavailable. */
  function StatusOf(m: Message): int
  {
    match m
    case NotMultipart | NoFile | CsvParsingError(_) | NoTransactions => 400
    case MethodNotAllowed => 405
    case DetectionError(_) | UnexpectedError(_) | BackendMissing => 500
  }

  /** `request.headers.get('content-type', '')`. */
  function ContentType(headers: map<string, string>): string
  {
    if "content-type" in headers then headers["content-type"] else ""
  }

  /**
   * `content_type.split('boundary=')[-1]`: a tail of the header value that
   * holds no `boundary=` of its own.
   */
  function Boundary(contentType: string): (b: string)
    ensures |b| <= |contentType| && b == contentType[|contentType| - |b|..]
    ensures !Contains(b, BOUNDARY_KEY)
  {
    LastPieceIsSuffix(contentType, BOUNDARY_KEY);
    LastPieceHasNoSeparator(contentType, BOUNDARY_KEY);
    LastPiece(contentType, BOUNDARY_KEY)
  }

  /** An envelope with a `detail` body and no `headers` key. */
  function Refuse<D>(statusCode: int, m: Message): Response<D>
  {
    Response(statusCode, map[], Detail(m))
  }

  /** The `POST` branch, lines 50-106, inside the outer `try`; no result without a multipart content type. */
  function HandlePost<R, D>(request: Request, parseCsv: string -> CsvOutcome<R>,
                            runDetection: seq<R> -> DetectionOutcome<D>): (r: Response<D>)
    ensures r.statusCode == 200 <==> !r.body.Detail?
    ensures !r.body.Detail? ==> r.headers == JSON_HEADERS
    ensures r.body.Detail? ==> r.headers == map[] && r.statusCode == StatusOf(r.body.detail)
    ensures r.statusCode == 200 || r.statusCode == 400 || r.statusCode == 500
    ensures !r.body.Health?
    ensures r.body.Report? ==> Contains(ContentType(request.headers), MULTIPART)
  {
    var contentType := ContentType(request.headers);
    if !Contains(contentType, MULTIPART) then
      Refuse(400, NotMultipart)
    else
      HandleExtraction(Multipart.Extract(request.body, Boundary(contentType)), parseCsv, runDetection)
  }

  /**
   * Lines 60-106: from what the extractor returned or raised to the
   * envelope. Success is always 200 with the JSON header and the result;
   * every failure is a `detail` body without headers, with its kind's status.
   */
  function HandleExtraction<R, D>(extraction: Multipart.Extraction, parseCsv: string -> CsvOutcome<R>,
                                  runDetection: seq<R> -> DetectionOutcome<D>): (r: Response<D>)
    ensures r.statusCode == 200 <==> !r.body.Detail?
    ensures !r.body.Detail? ==> r.headers == JSON_HEADERS
    ensures r.body.Detail? ==> r.headers == map[] && r.statusCode == StatusOf(r.body.detail)
    ensures r.statusCode == 200 || r.statusCode == 400 || r.statusCode == 500
    ensures !r.body.Health?
    ensures r.body.Report? ==> extraction.Found?
  {
    match extraction
    case Undecodable(k) => Refuse(500, UnexpectedError(DecodeFault(k)))
    case Missing => Refuse(400, NoFile)
    case Found(text) =>
      if text == "" then Refuse(400, NoFile)
      else
        match parseCsv(text)
        case ValueError(reason) => Refuse(400, CsvParsingError(reason))
        case OtherError(reason) => Refuse(500, UnexpectedError(ParserFault(reason)))
        case Records(records) =>
          if records == [] then Refuse(400, NoTransactions)
          else
            match runDetection(records)
            case DetectionFailed(reason) => Refuse(500, DetectionError(reason))
            case Detected(result) => Response(200, JSON_HEADERS, Report(result))
  }

  /**
   * `handler(request)`, with `BACKEND_AVAILABLE` and the two collaborators
   * as parameters. Every request gets one envelope of a uniform shape: 200
   * with the JSON header for the health payload and for a result, and
   * otherwise a `detail` body, no headers, and the status of the detail's kind.
   */
  function Handle<R, D>(backendAvailable: bool, request: Request, parseCsv: string -> CsvOutcome<R>,
                        runDetection: seq<R> -> DetectionOutcome<D>): (r: Response<D>)
    ensures r.statusCode == 200 <==> !r.body.Detail?
    ensures !r.body.Detail? ==> r.headers == JSON_HEADERS
    ensures r.body.Detail? ==> r.headers == map[] && r.statusCode == StatusOf(r.body.detail)
    ensures r.statusCode == 200 || r.statusCode == 400 || r.statusCode == 405 || r.statusCode == 500
    ensures r.body.Health? <==> backendAvailable && request.verb == "GET"
  {
    if !backendAvailable then
      Refuse(500, BackendMissing)
    else if request.verb == "POST" then
      HandlePost(request, parseCsv, runDetection)
    else if request.verb == "GET" then
      Response(200, JSON_HEADERS, Health("ok", SERVICE_NAME))
    else
      Refuse(405, MethodNotAllowed)
  }

  // ---------------------------------------------------------------------------
  // Boundary extraction

  lemma BoundaryKeyHeadIsUnique()
    ensures forall d :: 0 < d < |BOUNDARY_KEY| ==> BOUNDARY_KEY[d] != BOUNDARY_KEY[0]
  {
  }

  /**
   * The boundary is everything after the last `boundary=`, untrimmed and
   * unquoted, or the whole header value when `boundary=` does not occur.
   */
  lemma BoundaryFollowsLastKey(contentType: string)
    ensures (forall i :: !OccursAt(contentType, BOUNDARY_KEY, i)) ==> Boundary(contentType) == contentType
    ensures forall k :: OccursAt(contentType, BOUNDARY_KEY, k) && (forall j :: k < j ==> !OccursAt(contentType, BOUNDARY_KEY, j)) ==>
              Boundary(contentType) == contentType[k + |BOUNDARY_KEY|..]
  {
    if forall i :: !OccursAt(contentType, BOUNDARY_KEY, i) {
      LastPieceWithoutSeparator(contentType, BOUNDARY_KEY);
    }
    forall k | OccursAt(contentType, BOUNDARY_KEY, k) && (forall j :: k < j ==> !OccursAt(contentType, BOUNDARY_KEY, j))
      ensures Boundary(contentType) == contentType[k + |BOUNDARY_KEY|..]
    {
      BoundaryKeyHeadIsUnique();
      LastPieceAfterLastOccurrence(contentType, BOUNDARY_KEY, k);
    }
  }

  // ---------------------------------------------------------------------------
  // Dispatch

  /** Without the backend every request, whatever its verb, gets the 500 "not available" envelope. */
  lemma BackendMissingAlwaysFails<R, D>(request: Request, parseCsv: string -> CsvOutcome<R>,
                                       runDetection: seq<R> -> DetectionOutcome<D>)
    ensures Handle(false, request, parseCsv, runDetection) == Response(500, map[], Detail(BackendMissing))
    ensures Text(Handle(false, request, parseCsv, runDetection).body.detail)
            == "Backend modules not available. Please deploy backend separately."
  {
  }

  /** `GET` gets the health payload, whatever the headers and the body. */
  lemma GetIsHealthCheck<R, D>(request: Request, parseCsv: string -> CsvOutcome<R>,
                               runDetection: seq<R> -> DetectionOutcome<D>)
    requires request.verb == "GET"
    ensures Handle(true, request, parseCsv, runDetection)
            == Response(200, JSON_HEADERS, Health("ok", "Money Muling Detection Engine API"))
  {
  }

  /** Any verb other than `GET` and `POST` gets 405, whatever the content type. */
  lemma OtherVerbsNotAllowed<R, D>(request: Request, parseCsv: string -> CsvOutcome<R>,
                                   runDetection: seq<R> -> DetectionOutcome<D>)
    requires request.verb != "GET" && request.verb != "POST"
    ensures Handle(true, request, parseCsv, runDetection) == Response(405, map[], Detail(MethodNotAllowed))
    ensures Text(MethodNotAllowed) == "Method not allowed"
  {
  }

  /** A `POST` whose content type does not mention `multipart/form-data` gets 400. */
  lemma NonMultipartPostRejected<R, D>(request: Request, parseCsv: string -> CsvOutcome<R>,
                                       runDetection: seq<R> -> DetectionOutcome<D>)
    requires request.verb == "POST"
    requires forall i :: !OccursAt(ContentType(request.headers), MULTIPART, i)
    ensures Handle(true, request, parseCsv, runDetection) == Response(400, map[], Detail(NotMultipart))
    ensures Text(NotMultipart) == "Content-Type must be multipart/form-data"
  {
  }

  /** A `POST` without a `content-type` header is treated as the empty content type and gets 400. */
  lemma MissingContentTypeRejected<R, D>(request: Request, parseCsv: string -> CsvOutcome<R>,
                                         runDetection: seq<R> -> DetectionOutcome<D>)
    requires request.verb == "POST" && "content-type" !in request.headers
    ensures Handle(true, request, parseCsv, runDetection) == Response(400, map[], Detail(NotMultipart))
  {
    NonMultipartPostRejected(request, parseCsv, runDetection);
  }

  // ---------------------------------------------------------------------------
  // The multipart POST chain

  /** A `POST` whose content type mentions `multipart/form-data`. */
  predicate IsMultipartPost(request: Request)
  {
    request.verb == "POST" && Contains(ContentType(request.headers), MULTIPART)
  }

  /** What the extractor makes of a request. */
  function Extracted(request: Request): Multipart.Extraction
  {
    Multipart.Extract(request.body, Boundary(ContentType(request.headers)))
  }

  /** "No file found" is reported exactly when the extractor returns `None`. */
  lemma NoFileIffMissing<R, D>(request: Request, parseCsv: string -> CsvOutcome<R>,
                               runDetection: seq<R> -> DetectionOutcome<D>)
    requires IsMultipartPost(request)
    ensures Handle(true, request, parseCsv, runDetection) == Response(400, map[], Detail(NoFile))
            <==> Extracted(request).Missing?
    ensures Extracted(request).Missing? ==>
              Text(Handle(true, request, parseCsv, runDetection).body.detail) == "No file found in request"
  {
    MultipartPostHandlesExtraction(request, parseCsv, runDetection);
    ExtractionNoFile(Extracted(request), parseCsv, runDetection);
  }

  lemma ExtractionNoFile<R, D>(extraction: Multipart.Extraction, parseCsv: string -> CsvOutcome<R>,
                               runDetection: seq<R> -> DetectionOutcome<D>)
    requires extraction.Found? ==> extraction.text != ""
    ensures HandleExtraction(extraction, parseCsv, runDetection) == Response(400, map[], Detail(NoFile))
            <==> extraction.Missing?
  {
  }

  /** Content that is not UTF-8 is an unexpected 500, never "no file". */
  lemma UndecodableIsUnexpectedError<R, D>(request: Request, parseCsv: string -> CsvOutcome<R>,
                                           runDetection: seq<R> -> DetectionOutcome<D>)
    requires IsMultipartPost(request)
    ensures (Handle(true, request, parseCsv, runDetection).body.Detail?
             && Handle(true, request, parseCsv, runDetection).body.detail.UnexpectedError?
             && Handle(true, request, parseCsv, runDetection).body.detail.fault.DecodeFault?)
            <==> Extracted(request).Undecodable?
    ensures Extracted(request).Undecodable? ==>
              Handle(true, request, parseCsv, runDetection)
              == Response(500, map[], Detail(UnexpectedError(DecodeFault(Extracted(request).offset))))
  {
    MultipartPostHandlesExtraction(request, parseCsv, runDetection);
    ExtractionUndecodable(Extracted(request), parseCsv, runDetection);
  }

  lemma ExtractionUndecodable<R, D>(extraction: Multipart.Extraction, parseCsv: string -> CsvOutcome<R>,
                                    runDetection: seq<R> -> DetectionOutcome<D>)
    ensures var r := HandleExtraction(extraction, parseCsv, runDetection);
            (r.body.Detail? && r.body.detail.UnexpectedError? && r.body.detail.fault.DecodeFault?)
            <==> extraction.Undecodable?
    ensures extraction.Undecodable? ==>
              HandleExtraction(extraction, parseCsv, runDetection)
              == Response(500, map[], Detail(UnexpectedError(DecodeFault(extraction.offset))))
  {
  }

  /**
   * On a multipart `POST` the envelope is decided by what the extractor
   * returned or raised, and what it returns is never the empty string, so
   * the `not file_content` test only ever catches `None`.
   */
  lemma MultipartPostHandlesExtraction<R, D>(request: Request, parseCsv: string -> CsvOutcome<R>,
                                             runDetection: seq<R> -> DetectionOutcome<D>)
    requires IsMultipartPost(request)
    ensures Handle(true, request, parseCsv, runDetection)
            == HandleExtraction(Extracted(request), parseCsv, runDetection)
    ensures Extracted(request).Found? ==> Extracted(request).text != ""
  {
    if Extracted(request).Found? {
      Multipart.FoundIsNonEmpty(request.body, Boundary(ContentType(request.headers)));
    }
  }

  /** A parser `ValueError` is a 400 carrying the parser's message. */
  lemma CsvValueErrorIsBadRequest<R, D>(text: string, parseCsv: string -> CsvOutcome<R>,
                                        runDetection: seq<R> -> DetectionOutcome<D>)
    requires text != "" && parseCsv(text).ValueError?
    ensures HandleExtraction(Multipart.Found(text), parseCsv, runDetection)
            == Response(400, map[], Detail(CsvParsingError(parseCsv(text).reason)))
    ensures Text(HandleExtraction(Multipart.Found(text), parseCsv, runDetection).body.detail) == "CSV parsing error: " + parseCsv(text).reason
  {
  }

  /** Any other exception from the parser is an unexpected 500 carrying its message. */
  lemma CsvOtherErrorIsUnexpected<R, D>(text: string, parseCsv: string -> CsvOutcome<R>,
                                        runDetection: seq<R> -> DetectionOutcome<D>)
    requires text != "" && parseCsv(text).OtherError?
    ensures HandleExtraction(Multipart.Found(text), parseCsv, runDetection)
            == Response(500, map[], Detail(UnexpectedError(ParserFault(parseCsv(text).reason))))
    ensures Text(HandleExtraction(Multipart.Found(text), parseCsv, runDetection).body.detail) == "Unexpected error: " + parseCsv(text).reason
  {
  }

  /** A CSV without records is a 400, and detection is not run. */
  lemma NoRecordsIsBadRequest<R, D>(text: string, parseCsv: string -> CsvOutcome<R>,
                                    runDetection: seq<R> -> DetectionOutcome<D>)
    requires text != "" && parseCsv(text) == Records([])
    ensures HandleExtraction(Multipart.Found(text), parseCsv, runDetection)
            == Response(400, map[], Detail(NoTransactions))
    ensures Text(HandleExtraction(Multipart.Found(text), parseCsv, runDetection).body.detail) == "No transactions found in CSV"
  {
  }

  /** A detection failure is a 500 carrying its message; a success is the 200 result envelope. */
  lemma DetectionOutcomeIsReported<R, D>(text: string, parseCsv: string -> CsvOutcome<R>,
                                         runDetection: seq<R> -> DetectionOutcome<D>)
    requires text != "" && parseCsv(text).Records? && parseCsv(text).records != []
    ensures var outcome := runDetection(parseCsv(text).records);
            HandleExtraction(Multipart.Found(text), parseCsv, runDetection)
            == if outcome.Detected? then Response(200, JSON_HEADERS, Report(outcome.result))
               else Response(500, map[], Detail(DetectionError(outcome.reason)))
    ensures var outcome := runDetection(parseCsv(text).records);
            outcome.DetectionFailed? ==>
              Text(HandleExtraction(Multipart.Found(text), parseCsv, runDetection).body.detail) == "Detection error: " + outcome.reason
  {
  }

  /**
   * A detection result is returned exactly when the backend is there, the
   * request is a multipart `POST`, a file was extracted, it parsed to at
   * least one record and detection succeeded on them.
   */
  lemma ReportIffSuccess<R, D>(backendAvailable: bool, request: Request, parseCsv: string -> CsvOutcome<R>,
                               runDetection: seq<R> -> DetectionOutcome<D>)
    ensures Handle(backendAvailable, request, parseCsv, runDetection).body.Report?
            <==> && backendAvailable && IsMultipartPost(request)
                 && Extracted(request).Found?
                 && parseCsv(Extracted(request).text).Records?
                 && parseCsv(Extracted(request).text).records != []
                 && runDetection(parseCsv(Extracted(request).text).records).Detected?
  {
    if backendAvailable && IsMultipartPost(request) && Extracted(request).Found? {
      Multipart.FoundIsNonEmpty(request.body, Boundary(ContentType(request.headers)));
    }
  }
}
