/** From a gateway's reaction to what `invoke` and `lookup` tell their caller about an effect. */
module Outcomes {
  import opened Wrappers
  import opened JsonValues
  import opened ErrorDetails

  datatype ReceiptStatus = COMMITTED | UNKNOWN | NOT_ATTEMPTED

  datatype Receipt = Receipt(
    effectId: string, status: ReceiptStatus,
    committedAt: Option<int>, providerStatus: Option<int>, output: Option<map<string, Json>>)

  function Bare(effectId: string, status: ReceiptStatus): Receipt {
    Receipt(effectId, status, None, None, None)
  }

  datatype Kind =
    | OutcomeUnknown
    | EffectNotFound
    | DeclarationRemoved
    | NotPermitted
    | UnknownOperation
    | InputError(pointer: string)
    | RateLimited(resetAt: Option<int>)
    | ProviderRefused(status: Option<int>)
    | OperationRefused(reason: string)
    | EffectReused
    | DatasourceError
    | ForeignError(name: string)

  /** An exception, with the recovery evidence it carries. */
  datatype Exn = Exn(kind: Kind, message: string, effectId: Option<string>, receipt: Option<Receipt>)

  function Plain(kind: Kind, message: string): Exn {
    Exn(kind, message, None, None)
  }

  function WithReceipt(kind: Kind, message: string, receipt: Receipt): Exn {
    Exn(kind, message, Some(receipt.effectId), Some(receipt))
  }

  function Unknown(effectId: string, message: string): Exn {
    WithReceipt(OutcomeUnknown, message, Bare(effectId, UNKNOWN))
  }

  // ----- Connect codes -----

  datatype Code =
    | Canceled | UnknownCode | InvalidArgument | DeadlineExceeded | NotFound | AlreadyExists | PermissionDenied
    | ResourceExhausted | FailedPrecondition | Aborted | OutOfRange | Unimplemented | Internal | Unavailable
    | DataLoss | Unauthenticated

  function CodeOf(name: string): Option<Code> {
    if name == "canceled" then Some(Canceled)
    else if name == "unknown" then Some(UnknownCode)
    else if name == "invalid_argument" then Some(InvalidArgument)
    else if name == "deadline_exceeded" then Some(DeadlineExceeded)
    else if name == "not_found" then Some(NotFound)
    else if name == "already_exists" then Some(AlreadyExists)
    else if name == "permission_denied" then Some(PermissionDenied)
    else if name == "resource_exhausted" then Some(ResourceExhausted)
    else if name == "failed_precondition" then Some(FailedPrecondition)
    else if name == "aborted" then Some(Aborted)
    else if name == "out_of_range" then Some(OutOfRange)
    else if name == "unimplemented" then Some(Unimplemented)
    else if name == "internal" then Some(Internal)
    else if name == "unavailable" then Some(Unavailable)
    else if name == "data_loss" then Some(DataLoss)
    else if name == "unauthenticated" then Some(Unauthenticated)
    else None
  }

  /** The code an HTTP status stands for when the body declares none it knows. */
  function FallbackCode(status: int): Code {
    if status == 400 then Internal
    else if status == 401 then Unauthenticated
    else if status == 403 then PermissionDenied
    else if status == 404 then Unimplemented
    else if status in {429, 502, 503, 504} then Unavailable
    else UnknownCode
  }

  // ----- Mapping an HTTP error -----

  /** Header values are lower-cased; `parameters` are those of the content type. */
  datatype Headers = Headers(encoding: string, contentType: string, parameters: seq<(string, string)>)

  /** `own` is the exception object itself; `body` is None when it cannot be read, unpacked or parsed. */
  datatype HttpError = HttpError(status: int, headers: Option<Headers>, body: Option<Json>, own: Exn)

  datatype Mapped = NotConnect | Original | Typed(exn: Exn)

  predicate SupportedEncoding(e: HttpError) {
    e.headers.Some? ==> e.headers.value.encoding in ["", "identity", "gzip"]
  }

  predicate JsonUtf8(e: HttpError) {
    && e.headers.Some? && e.headers.value.contentType == "application/json"
    && forall i | 0 <= i < |e.headers.value.parameters| :: e.headers.value.parameters[i] == ("charset", "utf-8")
  }

  datatype Envelope = Envelope(declared: string, message: string, details: seq<Json>)

  /** A JSON null is the empty object, string or list. */
  function EnvelopeOf(e: HttpError): Option<Envelope> {
    if e.body.None? || !JsonUtf8(e) then None else
    var payload := if e.body.value.JNull? then JObject(map[]) else e.body.value;
    if !payload.JObject? then None else
    var code, message := StringField(payload.fields, "code"), StringField(payload.fields, "message");
    match (code, message, Get(payload.fields, "details", JNull))
    case (Some(code), Some(message), JNull) => Some(Envelope(code, message, []))
    case (Some(code), Some(message), JArray(items)) => Some(Envelope(code, message, items))
    case _ => None
  }

  /** The member lists these details; null and absence stand for the empty list. */
  ghost predicate Lists(fields: map<string, Json>, items: seq<Json>) {
    if "details" in fields && fields["details"] != JNull then fields["details"] == JArray(items) else items == []
  }

  /** Which bodies are Connect errors: JSON in UTF-8, null or an object with two texts and a list. */
  lemma EnvelopeExactly(e: HttpError, code: string, message: string, details: seq<Json>)
    ensures EnvelopeOf(e) == Some(Envelope(code, message, details)) <==>
            && e.headers.Some? && e.headers.value.contentType == "application/json"
            && (forall i | 0 <= i < |e.headers.value.parameters| ::
                  e.headers.value.parameters[i] == ("charset", "utf-8"))
            && e.body.Some?
            && (if e.body.value.JNull? then code == message == "" && details == []
                else e.body.value.JObject? && var fields := e.body.value.fields;
                     Holds(fields, "code", code) && Holds(fields, "message", message) && Lists(fields, details))
  {
    if e.body.Some? && e.body.value.JNull? {
      assert StringField(map[], "code") == Some("") && StringField(map[], "message") == Some("");
    } else if e.body.Some? && e.body.value.JObject? {
      HoldsExactly(e.body.value.fields, "code", code);
      HoldsExactly(e.body.value.fields, "message", message);
    }
  }

  function EffectiveCode(declared: string, status: int): Code {
    match CodeOf(declared)
    case Some(code) => code
    case None => FallbackCode(status)
  }

  const CONNECT_CODES: set<string> := {
    "canceled", "unknown", "invalid_argument", "deadline_exceeded", "not_found", "already_exists", "permission_denied",
    "resource_exhausted", "failed_precondition", "aborted", "out_of_range", "unimplemented", "internal", "unavailable",
    "data_loss", "unauthenticated"}

  /** A declared code counts if it is one of the sixteen; otherwise a few statuses stand for two codes that matter. */
  lemma EffectiveCodeExactly(declared: string, status: int)
    ensures var code := EffectiveCode(declared, status);
            && (code == Unavailable <==>
                declared == "unavailable" || (declared !in CONNECT_CODES && status in {429, 502, 503, 504}))
            && (code == PermissionDenied <==>
                declared == "permission_denied" || (declared !in CONNECT_CODES && status == 403))
            && (code == Canceled <==> declared == "canceled")
            && (code == DeadlineExceeded <==> declared == "deadline_exceeded")
            && (code == NotFound <==> declared == "not_found")
            && (code == InvalidArgument <==> declared == "invalid_argument")
            && (code == ResourceExhausted <==> declared == "resource_exhausted")
            && (code == FailedPrecondition <==> declared == "failed_precondition")
  {
    KnownCodes(declared);
  }

  lemma KnownCodes(name: string)
    ensures CodeOf(name).Some? <==> name in CONNECT_CODES
    ensures CodeOf(name) == Some(Unavailable) <==> name == "unavailable"
    ensures CodeOf(name) == Some(PermissionDenied) <==> name == "permission_denied"
    ensures CodeOf(name) == Some(Canceled) <==> name == "canceled"
    ensures CodeOf(name) == Some(DeadlineExceeded) <==> name == "deadline_exceeded"
    ensures CodeOf(name) == Some(NotFound) <==> name == "not_found"
    ensures CodeOf(name) == Some(InvalidArgument) <==> name == "invalid_argument"
    ensures CodeOf(name) == Some(ResourceExhausted) <==> name == "resource_exhausted"
    ensures CodeOf(name) == Some(FailedPrecondition) <==> name == "failed_precondition"
  {
  }

  /** Three ASCII digits spelling 100 to 599; anything else is no status. */
  function ProviderStatus(value: string): Option<int> {
    if |value| == 3 && (forall i | 0 <= i < 3 :: '0' <= value[i] <= '9') then
      var n := (value[0] as int - 48) * 100 + (value[1] as int - 48) * 10 + (value[2] as int - 48);
      if 100 <= n <= 599 then Some(n) else None
    else None
  }

  function ResetTime(rt: Runtime, d: Details): Option<int> {
    var stamped := if d.Metadata("reset_at") != "" then rt.timestamp(d.Metadata("reset_at")) else None;
    if stamped.Some? then stamped
    else
      match d.retry
      case Some(Some(delay)) =>
        if 0 <= delay.seconds <= 315576000000 && 0 <= delay.nanos <= 999999999 then rt.afterDelay(delay) else None
      case _ => None
  }

  const RATE_LIMITED := "DATASOURCE_RATE_LIMITED"
  const OUTCOME_UNKNOWN := "SOURCE_OPERATION_OUTCOME_UNKNOWN"
  const DECLARATION_REMOVED := "SOURCE_OPERATION_DECLARATION_REMOVED"
  const EFFECT_REUSED := "SOURCE_EFFECT_REUSED"
  const PROVIDER_REFUSED := "SOURCE_PROVIDER_REFUSED"

  function Removed(message: string, status: ReceiptStatus, effectId: Option<string>): Exn {
    Exn(DeclarationRemoved, message, effectId, if effectId.Some? then Some(Bare(effectId.value, status)) else None)
  }

  function ClassifyPrecondition(message: string, d: Details, effectId: Option<string>): Exn {
    if d.Reason() == OUTCOME_UNKNOWN && effectId.Some? then Unknown(effectId.value, message)
    else if d.Reason() == DECLARATION_REMOVED then
      Removed(message, if d.Metadata("receipt_status") == "committed" then COMMITTED else UNKNOWN, effectId)
    else if d.Reason() == EFFECT_REUSED then Plain(EffectReused, message)
    else if d.Reason() != PROVIDER_REFUSED then Plain(OperationRefused(d.Reason()), message)
    else Plain(ProviderRefused(ProviderStatus(d.Metadata("provider_status"))), message)
  }

  function Classify(rt: Runtime, code: Code, message: string, d: Details, effectId: Option<string>,
                    lookup: bool): Mapped {
    match code
    case PermissionDenied => Typed(Plain(NotPermitted, message))
    case NotFound =>
      if lookup && effectId.Some? then Typed(WithReceipt(EffectNotFound, message, Bare(effectId.value, NOT_ATTEMPTED)))
      else Typed(Plain(UnknownOperation, message))
    case InvalidArgument => Typed(Plain(InputError(d.Pointer()), message))
    case FailedPrecondition => Typed(ClassifyPrecondition(message, d, effectId))
    case ResourceExhausted =>
      if d.Reason() == RATE_LIMITED then Typed(Plain(RateLimited(ResetTime(rt, d)), message)) else Original
    case Unavailable =>
      if effectId.Some? then Typed(Unknown(effectId.value, message)) else Original
    case DeadlineExceeded | Canceled =>
      if effectId.Some? && !lookup then Typed(Unknown(effectId.value, message)) else Original
    case _ => Original
  }

  /** When a rate limit ends: at the host's time if it names a readable one, else after the delay it asks for. */
  lemma ResetTimeExactly(rt: Runtime, d: Details, t: int)
    ensures var stamp := d.Metadata("reset_at");
            ResetTime(rt, d) == Some(t) <==>
            || (stamp != "" && rt.timestamp(stamp) == Some(t))
            || ((stamp == "" || rt.timestamp(stamp).None?) && d.retry.Some? && d.retry.value.Some?
                && 0 <= d.retry.value.value.seconds <= 315576000000 && 0 <= d.retry.value.value.nanos <= 999999999
                && rt.afterDelay(d.retry.value.value) == Some(t))
  {
  }

  /** The exception each Connect code stands for. */
  lemma ClassifiedExactly(rt: Runtime, code: Code, message: string, d: Details, effectId: Option<string>, lookup: bool)
    ensures Classify(rt, code, message, d, effectId, lookup) ==
            if code == PermissionDenied then Typed(Plain(NotPermitted, message))
            else if code == NotFound && lookup && effectId.Some? then
              Typed(Exn(EffectNotFound, message, effectId,
                        Some(Receipt(effectId.value, NOT_ATTEMPTED, None, None, None))))
            else if code == NotFound then Typed(Plain(UnknownOperation, message))
            else if code == InvalidArgument then Typed(Plain(InputError(d.Pointer()), message))
            else if code == ResourceExhausted && d.Reason() == "DATASOURCE_RATE_LIMITED" then
              Typed(Plain(RateLimited(ResetTime(rt, d)), message))
            else if code == FailedPrecondition then Typed(ClassifyPrecondition(message, d, effectId))
            else if effectId.Some?
                    && (code == Unavailable || (!lookup && (code == DeadlineExceeded || code == Canceled))) then
              Typed(Exn(OutcomeUnknown, message, effectId, Some(Receipt(effectId.value, UNKNOWN, None, None, None))))
            else Original
  {
  }

  /** The exception each reason of a failed precondition stands for. */
  lemma PreconditionExactly(message: string, d: Details, effectId: Option<string>)
    ensures var reason := d.Reason();
            var status := if d.Metadata("receipt_status") == "committed" then COMMITTED else UNKNOWN;
            ClassifyPrecondition(message, d, effectId) ==
            if reason == "SOURCE_OPERATION_OUTCOME_UNKNOWN" && effectId.Some? then
              Exn(OutcomeUnknown, message, effectId, Some(Receipt(effectId.value, UNKNOWN, None, None, None)))
            else if reason == "SOURCE_OPERATION_DECLARATION_REMOVED" then
              Exn(DeclarationRemoved, message, effectId,
                  if effectId.Some? then Some(Receipt(effectId.value, status, None, None, None)) else None)
            else if reason == "SOURCE_EFFECT_REUSED" then Exn(EffectReused, message, None, None)
            else if reason == "SOURCE_PROVIDER_REFUSED" then
              Exn(ProviderRefused(ProviderStatus(d.Metadata("provider_status"))), message, None, None)
            else Exn(OperationRefused(reason), message, None, None)
  {
  }

  ghost function Mapping(rt: Runtime, e: HttpError, effectId: Option<string>, lookup: bool): Mapped {
    if !SupportedEncoding(e) then
      Typed(if effectId.Some? then Unknown(effectId.value, "unsupported response encoding")
            else Plain(DatasourceError, "unsupported response encoding"))
    else
      match EnvelopeOf(e)
      case None => NotConnect
      case Some(envelope) =>
        match Summary(rt, envelope.details)
        case None => NotConnect
        case Some(d) => Classify(rt, EffectiveCode(envelope.declared, e.status), envelope.message, d, effectId, lookup)
  }

  method MapError(rt: Runtime, e: HttpError, effectId: Option<string>, lookup: bool) returns (mapped: Mapped)
    ensures mapped == Mapping(rt, e, effectId, lookup)
  {
    if !SupportedEncoding(e) {
      if effectId.Some? {
        return Typed(Unknown(effectId.value, "unsupported response encoding"));
      }
      return Typed(Plain(DatasourceError, "unsupported response encoding"));
    }
    var envelope := EnvelopeOf(e);
    if envelope.None? {
      return NotConnect;
    }
    var code := EffectiveCode(envelope.value.declared, e.status);
    var details := ReadDetails(rt, envelope.value.details);
    if details.None? {
      return NotConnect;
    }
    return Classify(rt, code, envelope.value.message, details.value, effectId, lookup);
  }

  // ----- Replies -----

  datatype ReceiptFields = ReceiptFields(
    committedAt: Option<string>, status: Option<string>, effectId: Option<string>,
    providerStatus: Option<int>, outputJson: Option<string>)

  /** A decoded response; absent fields are those the wire omits. */
  datatype Response = Response(receipt: Option<ReceiptFields>, outputJson: Option<string>)

  datatype OpResult = OpResult(output: map<string, Json>, receipt: Receipt)

  function ReadReceipt(rt: Runtime, fields: ReceiptFields): Option<Receipt> {
    var stamp := if fields.committedAt.Some? then fields.committedAt.value else "";
    var committedAt := if stamp == "" then None else rt.timestamp(stamp);
    if stamp != "" && committedAt.None? then None
    else if fields.effectId.None? then None
    else if fields.status == Some("committed") then
      Some(Receipt(fields.effectId.value, COMMITTED, committedAt, fields.providerStatus, None))
    else if fields.status == Some("unknown") then
      Some(Receipt(fields.effectId.value, UNKNOWN, committedAt, fields.providerStatus, None))
    else None
  }

  /** The stamp is missing, empty, or a time. */
  predicate StampReads(rt: Runtime, stamp: Option<string>) {
    stamp.Some? && stamp.value != "" ==> rt.timestamp(stamp.value).Some?
  }

  function StampTime(rt: Runtime, stamp: Option<string>): Option<int> {
    if stamp.Some? && stamp.value != "" then rt.timestamp(stamp.value) else None
  }

  /** Which receipts are readable, and what is read, field by field. */
  lemma ReceiptExactly(rt: Runtime, fields: ReceiptFields, receipt: Receipt)
    ensures ReadReceipt(rt, fields) == Some(receipt) <==>
            && fields.effectId == Some(receipt.effectId)
            && (|| (fields.status == Some("committed") && receipt.status == COMMITTED)
                || (fields.status == Some("unknown") && receipt.status == UNKNOWN))
            && StampReads(rt, fields.committedAt) && receipt.committedAt == StampTime(rt, fields.committedAt)
            && receipt.providerStatus == fields.providerStatus
            && receipt.output == None
  {
  }

  /** The receipt of the reply, if it is readable and names this effect. */
  function ReceiptFor(rt: Runtime, response: Response, effectId: string): Option<Receipt> {
    match response.receipt
    case None => None
    case Some(fields) =>
      var receipt := ReadReceipt(rt, fields);
      if receipt.Some? && receipt.value.effectId == effectId then receipt else None
  }

  /** An absent output text reads as the empty string, which is no JSON object. */
  function OutputOf(rt: Runtime, text: Option<string>): ObjectRead {
    rt.jsonObject(if text.Some? then text.value else "")
  }

  function InvalidOutput(receipt: Receipt): Exn {
    WithReceipt(DatasourceError, "host returned invalid committed operation output", receipt)
  }

  function OperationResult(rt: Runtime, response: Response, effectId: string): Result<OpResult, Exn> {
    match ReceiptFor(rt, response, effectId)
    case None => Failure(Unknown(effectId, "host returned a missing or invalid operation receipt"))
    case Some(receipt) =>
      if receipt.status == UNKNOWN then
        Failure(WithReceipt(OutcomeUnknown, "host has not resolved the effect", receipt))
      else
        match OutputOf(rt, response.receipt.value.outputJson)
        case Escapes(name) => Failure(Plain(ForeignError(name), ""))
        case NotAnObject => Failure(InvalidOutput(receipt))
        case Object(saved) =>
          var full := receipt.(output := Some(saved));
          match OutputOf(rt, response.outputJson)
          case Escapes(name) => Failure(Plain(ForeignError(name), ""))
          case NotAnObject => Failure(InvalidOutput(full))
          case Object(output) => Success(OpResult(output, full))
  }

  // ----- One remote call -----

  datatype Procedure = InvokeOperation | LookupOperation | DeclareOperations | ListOperations

  /**
   * `Lost` is a timeout, a broken connection, a truncated or undecodable reply. `Other` is any other exception,
   * also one that escapes while an error body is read or a reply is turned into a dictionary.
   */
  datatype Reaction = Reply(response: Response) | Http(e: HttpError) | Lost(own: Exn) | Other(own: Exn)

  /** The exception a failed dispatch raises, before recovery evidence is attached. */
  ghost function Raised(rt: Runtime, procedure: Procedure, effectId: Option<string>, reaction: Reaction): Exn
    requires !reaction.Reply?
  {
    match reaction
    case Http(e) =>
      (match Mapping(rt, e, effectId, procedure.LookupOperation?)
       case Typed(exn) => exn
       case Original => e.own
       case NotConnect =>
         if effectId.Some? then Unknown(effectId.value, e.own.message)
         else if (procedure.DeclareOperations? || procedure.ListOperations?) && e.status == 403 then
           Plain(NotPermitted, e.own.message)
         else e.own)
    case Lost(own) => if effectId.Some? then Unknown(effectId.value, own.message) else own
    case Other(own) => own
  }

  /** An invocation's exception that names no effect is given this one's, with an unknown receipt. */
  function Annotate(exn: Exn, procedure: Procedure, effectId: Option<string>): Exn {
    if effectId.Some? && !procedure.LookupOperation? && exn.effectId.None? then
      exn.(effectId := effectId, receipt := Some(Bare(effectId.value, UNKNOWN)))
    else exn
  }

  ghost function RpcEnd(rt: Runtime, procedure: Procedure, effectId: Option<string>,
                        reaction: Reaction): Result<Response, Exn> {
    match reaction
    case Reply(response) => Success(response)
    case _ => Failure(Annotate(Raised(rt, procedure, effectId, reaction), procedure, effectId))
  }

  datatype Request = Request(
    procedure: Procedure, effectId: Option<string>, effectHeader: Option<string>, timeout: Option<real>)

  /** The gateway; how it reacts may depend on everything it was sent. */
  class Gateway {
    const react: seq<Request> -> Reaction
    var sent: seq<Request>

    constructor (react: seq<Request> -> Reaction)
      ensures this.react == react && sent == []
    {
      this.react := react;
      sent := [];
    }

    method Unary(request: Request) returns (reaction: Reaction)
      modifies this
      ensures sent == old(sent) + [request] && reaction == react(sent)
    {
      sent := sent + [request];
      reaction := react(sent);
    }
  }

  method Rpc(rt: Runtime, gateway: Gateway, request: Request) returns (result: Result<Response, Exn>)
    modifies gateway
    ensures gateway.sent == old(gateway.sent) + [request]
    ensures result == RpcEnd(rt, request.procedure, request.effectId, gateway.react(gateway.sent))
  {
    var lookup := request.procedure.LookupOperation?;
    var effectId := request.effectId;
    var error: Exn;
    var reaction := gateway.Unary(request);
    match reaction {
      case Reply(response) => return Success(response);
      case Http(e) =>
        var mapped := MapError(rt, e, effectId, lookup);
        match mapped {
          case Typed(exn) => error := exn;
          case Original => error := e.own;
          case NotConnect =>
            if effectId.Some? {
              error := Unknown(effectId.value, e.own.message);
            } else if request.procedure in {DeclareOperations, ListOperations} && e.status == 403 {
              error := Plain(NotPermitted, e.own.message);
            } else {
              error := e.own;
            }
        }
      case Lost(own) =>
        error := if effectId.Some? then Unknown(effectId.value, own.message) else own;
      case Other(own) => error := own;
    }
    if effectId.Some? && !lookup && error.effectId.None? {
      error := error.(effectId := effectId, receipt := Some(Bare(effectId.value, UNKNOWN)));
    }
    return Failure(error);
  }

  // ----- How a dispatched call ends -----

  ghost function InvokeEnd(rt: Runtime, effectId: string, reaction: Reaction): Result<OpResult, Exn> {
    match RpcEnd(rt, InvokeOperation, Some(effectId), reaction)
    case Failure(exn) => Failure(exn)
    case Success(response) => OperationResult(rt, response, effectId)
  }

  datatype Looked = Found(receipt: Receipt) | Told(exn: Exn) | Raises(exn: Exn)

  predicate IsOutcome(kind: Kind) {
    kind in {OutcomeUnknown, EffectNotFound, DeclarationRemoved}
  }

  ghost function LookupEnd(rt: Runtime, effectId: string, reaction: Reaction): Looked {
    var ended := match RpcEnd(rt, LookupOperation, Some(effectId), reaction)
                 case Failure(exn) => Failure(exn)
                 case Success(response) => OperationResult(rt, response, effectId);
    match ended
    case Success(result) => Found(result.receipt)
    case Failure(exn) => if IsOutcome(exn.kind) then Told(exn) else Raises(exn)
  }
}
