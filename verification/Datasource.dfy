/** The two effect calls of the datasource client, and what their endings prove to a caller. */
module Datasource {
  import opened Arithmetic
  import opened Wrappers
  import opened JsonValues
  import opened ErrorDetails
  import opened EffectIds
  import opened Outcomes
  import Uint64

  datatype Deadline = At(time: real) | NotFinite

  /**
   * The local inputs of an invocation. `inputJson` is None when the input is no JSON object, `requestOk`
   * says whether the request message can be built, `callOptions` whether the gateway takes call options.
   */
  datatype Invocation = Invocation(
    effectId: Option<string>, milliseconds: nat, random: nat,
    inputJson: Option<string>, deadline: Option<Deadline>, now: real, requestOk: bool, callOptions: bool)

  /** The ID an invocation runs under: the caller's, or a minted one. */
  function ChosenId(call: Invocation): Option<string> {
    match call.effectId
    case Some(id) => Some(id)
    case None => if call.milliseconds < P48 then Some(Print(Packed(call.milliseconds, call.random))) else None
  }

  /** The seconds left for the call; None when the deadline is not finite or already over. */
  function Budget(deadline: Option<Deadline>, now: real): Option<Option<real>> {
    match deadline
    case None => Some(None)
    case Some(NotFinite) => None
    case Some(At(time)) => if time - now <= 0.0 then None else Some(Some(time - now))
  }

  /** Every local check passes, so the call reaches the gateway. */
  ghost predicate Dispatches(call: Invocation) {
    && ChosenId(call).Some? && ValidEffectId(ChosenId(call).value)
    && call.inputJson.Some?
    && Budget(call.deadline, call.now).Some?
    && call.requestOk && call.callOptions
  }

  /** When a call is dispatched, under which ID, and with how much time. */
  lemma DispatchesExactly(call: Invocation)
    ensures Dispatches(call) <==>
            && (call.effectId.Some? ==> ValidEffectId(call.effectId.value))
            && (call.effectId.None? ==>
                  && call.milliseconds < 0x1_0000_0000_0000
                  && ValidEffectId(Print(Packed(call.milliseconds, call.random))))
            && call.inputJson.Some? && call.requestOk && call.callOptions
            && (call.deadline.Some? ==> call.deadline.value.At? && call.now < call.deadline.value.time)
    ensures Dispatches(call) ==>
              && ChosenId(call) == Some(if call.effectId.Some? then call.effectId.value
                                        else Print(Packed(call.milliseconds, call.random)))
              && Budget(call.deadline, call.now) ==
                 Some(if call.deadline.Some? then Some(call.deadline.value.time - call.now) else None)
  {
  }

  /** Everything that happens before the gateway is called; its errors claim no host attempt. */
  method Prepare(call: Invocation) returns (prepared: Result<(string, Option<real>), Exn>)
    requires call.random < P74
    ensures prepared.Success? <==> Dispatches(call)
    ensures prepared.Success? ==> prepared.value == (ChosenId(call).value, Budget(call.deadline, call.now).value)
    ensures prepared.Failure? ==> prepared.error.effectId == None && prepared.error.receipt == None
  {
    var effectId: string;
    if call.effectId.Some? {
      effectId := call.effectId.value;
    } else {
      var minted := Uuid7(call.milliseconds, call.random);
      if minted.None? {
        return Failure(Plain(ForeignError("ValueError"), ""));
      }
      effectId := minted.value;
    }
    var valid := ValidateEffectId(effectId);
    if !valid {
      return Failure(Plain(InputError(""), ""));
    }
    if call.inputJson.None? {
      return Failure(Plain(InputError(""), ""));
    }
    var timeout := None;
    if call.deadline.Some? {
      if call.deadline.value.NotFinite? || call.deadline.value.time - call.now <= 0.0 {
        return Failure(Plain(InputError(""), ""));
      }
      timeout := Some(call.deadline.value.time - call.now);
    }
    if !call.requestOk {
      return Failure(Plain(InputError(""), ""));
    }
    if !call.callOptions {
      return Failure(Plain(ForeignError("TypeError"), ""));
    }
    return Success((effectId, timeout));
  }

  /** One gateway call when every local check passes, none otherwise. */
  method Invoke(rt: Runtime, gateway: Gateway, call: Invocation) returns (result: Result<OpResult, Exn>)
    requires call.random < P74
    modifies gateway
    ensures !Dispatches(call) ==>
              gateway.sent == old(gateway.sent) && result.Failure? && result.error.effectId == None
              && result.error.receipt == None
    ensures Dispatches(call) ==>
              var id := ChosenId(call).value;
              && gateway.sent == old(gateway.sent) +
                                 [Request(InvokeOperation, Some(id), Some(id), Budget(call.deadline, call.now).value)]
              && result == InvokeEnd(rt, id, gateway.react(gateway.sent))
  {
    var prepared := Prepare(call);
    if prepared.Failure? {
      return Failure(prepared.error);
    }
    var (effectId, timeout) := prepared.value;
    var response := Rpc(rt, gateway, Request(InvokeOperation, Some(effectId), Some(effectId), timeout));
    if response.Failure? {
      return Failure(response.error);
    }
    return OperationResult(rt, response.value, effectId);
  }

  method Lookup(rt: Runtime, gateway: Gateway, effectId: string, requestOk: bool) returns (looked: Looked)
    modifies gateway
    ensures !ValidEffectId(effectId) || !requestOk ==>
              gateway.sent == old(gateway.sent) && looked.Raises? && looked.exn.kind == InputError("")
    ensures ValidEffectId(effectId) && requestOk ==>
              && gateway.sent == old(gateway.sent) + [Request(LookupOperation, Some(effectId), None, None)]
              && looked == LookupEnd(rt, effectId, gateway.react(gateway.sent))
  {
    var valid := ValidateEffectId(effectId);
    if !valid {
      return Raises(Plain(InputError(""), ""));
    }
    if !requestOk {
      return Raises(Plain(InputError(""), ""));
    }
    var response := Rpc(rt, gateway, Request(LookupOperation, Some(effectId), None, None));
    var error: Exn;
    if response.Failure? {
      error := response.error;
    } else {
      var result := OperationResult(rt, response.value, effectId);
      if result.Success? {
        return Found(result.value.receipt);
      }
      error := result.error;
    }
    match error.kind {
      case OutcomeUnknown | EffectNotFound | DeclarationRemoved => return Told(error);
      case _ => return Raises(error);
    }
  }

  // ----- Evidence -----

  /** The host itself declared this code, in a body that is a Connect error. */
  ghost predicate Declares(rt: Runtime, reaction: Reaction, code: string) {
    && reaction.Http? && SupportedEncoding(reaction.e)
    && EnvelopeOf(reaction.e).Some?
    && EnvelopeOf(reaction.e).value.declared == code
    && Summary(rt, EnvelopeOf(reaction.e).value.details).Some?
  }

  /** The host said outright that this effect is committed. */
  ghost predicate SaysCommitted(rt: Runtime, effectId: string, reaction: Reaction) {
    match reaction
    case Reply(response) =>
      && response.receipt.Some?
      && response.receipt.value.status == Some("committed") && response.receipt.value.effectId == Some(effectId)
      && StampReads(rt, response.receipt.value.committedAt)
    case Http(e) =>
      && Declares(rt, reaction, "failed_precondition")
      && var d := Summary(rt, EnvelopeOf(e).value.details).value;
         d.Reason() == DECLARATION_REMOVED && d.Metadata("receipt_status") == "committed"
    case _ => false
  }

  function InvokeReceipt(end: Result<OpResult, Exn>): Option<Receipt> {
    match end
    case Success(result) => Some(result.receipt)
    case Failure(exn) => exn.receipt
  }

  function LookupReceipt(end: Looked): Option<Receipt> {
    match end
    case Found(receipt) => Some(receipt)
    case Told(exn) => exn.receipt
    case Raises(exn) => exn.receipt
  }

  predicate Shows(receipt: Option<Receipt>, status: ReceiptStatus) {
    receipt.Some? && receipt.value.status == status
  }

  /** The status table never stands in for a code that carries evidence. */
  lemma FallbackIsNoEvidence(rt: Runtime, e: HttpError, declared: string)
    ensures EffectiveCode(declared, e.status) == FailedPrecondition <==> declared == "failed_precondition"
    ensures EffectiveCode(declared, e.status) == NotFound <==> declared == "not_found"
  {
    assert CodeOf("failed_precondition") == Some(FailedPrecondition);
    assert CodeOf("not_found") == Some(NotFound);
  }

  /** The reply carries a receipt for this effect, with a status it may have and a stamp that reads. */
  ghost predicate ReplyReads(rt: Runtime, effectId: string, response: Response) {
    && response.receipt.Some? && response.receipt.value.effectId == Some(effectId)
    && (response.receipt.value.status == Some("committed") || response.receipt.value.status == Some("unknown"))
    && StampReads(rt, response.receipt.value.committedAt)
  }

  /** That receipt: every field the host's, and the output it saved if it committed one that reads. */
  ghost function HostReceipt(rt: Runtime, effectId: string, fields: ReceiptFields): Receipt {
    var committed, saved := fields.status == Some("committed"), OutputOf(rt, fields.outputJson);
    Receipt(effectId, if committed then COMMITTED else UNKNOWN,
            StampTime(rt, fields.committedAt), fields.providerStatus,
            if committed && saved.Object? then Some(saved.fields) else None)
  }

  /** The host committed the effect, but reading the output it sent gives up with an exception nothing catches. */
  ghost predicate OutputEscapes(rt: Runtime, effectId: string, reaction: Reaction) {
    && reaction.Reply? && SaysCommitted(rt, effectId, reaction)
    && var saved := OutputOf(rt, reaction.response.receipt.value.outputJson);
       saved.Escapes? || (saved.Object? && OutputOf(rt, reaction.response.outputJson).Escapes?)
  }

  /** The gateway's own exception, when it reaches the caller unmapped. */
  ghost function Surfaced(rt: Runtime, effectId: string, reaction: Reaction, lookup: bool): Option<Exn> {
    match reaction
    case Other(own) => Some(own)
    case Http(e) => if Mapping(rt, e, Some(effectId), lookup).Original? then Some(e.own) else None
    case _ => None
  }

  lemma ReplyEvidence(rt: Runtime, effectId: string, response: Response)
    ensures var receipt := InvokeReceipt(OperationResult(rt, response, effectId));
            && (Shows(receipt, COMMITTED) <==>
                SaysCommitted(rt, effectId, Reply(response)) && !OutputEscapes(rt, effectId, Reply(response)))
            && !Shows(receipt, NOT_ATTEMPTED)
  {
  }

  lemma ReplyKeepsIdentity(rt: Runtime, effectId: string, response: Response)
    ensures KeepsIdentity(OperationResult(rt, response, effectId), effectId) <==>
            !OutputEscapes(rt, effectId, Reply(response))
  {
  }

  /** When reading the output escapes, what the caller sees carries no evidence at all. */
  lemma EscapedReply(rt: Runtime, effectId: string, response: Response)
    requires OutputEscapes(rt, effectId, Reply(response))
    ensures var end := OperationResult(rt, response, effectId);
            end.Failure? && end.error.kind.ForeignError? && end.error.effectId.None? && end.error.receipt.None?
  {
  }

  lemma ClassifiedEvidence(rt: Runtime, code: Code, message: string, d: Details, effectId: string, lookup: bool)
    ensures var mapped := Classify(rt, code, message, d, Some(effectId), lookup);
            mapped.Typed? ==>
              && (Shows(mapped.exn.receipt, COMMITTED) <==>
                  code == FailedPrecondition && d.Reason() == DECLARATION_REMOVED
                  && d.Metadata("receipt_status") == "committed")
              && (Shows(mapped.exn.receipt, NOT_ATTEMPTED) <==> lookup && code == NotFound)
              && (mapped.exn.receipt.Some? ==> mapped.exn.receipt.value.effectId == effectId)
              && mapped.exn.effectId == (if mapped.exn.receipt.Some? then Some(effectId) else None)
              && (IsOutcome(mapped.exn.kind) <==> mapped.exn.receipt.Some?)
    ensures Classify(rt, code, message, d, Some(effectId), lookup).Original? ==>
            code != FailedPrecondition && code != NotFound
  {
  }

  lemma MappedEvidence(rt: Runtime, e: HttpError, effectId: string, lookup: bool)
    ensures var mapped := Mapping(rt, e, Some(effectId), lookup);
            mapped.Typed? ==>
              && (Shows(mapped.exn.receipt, COMMITTED) <==> SaysCommitted(rt, effectId, Http(e)))
              && (Shows(mapped.exn.receipt, NOT_ATTEMPTED) <==> lookup && Declares(rt, Http(e), "not_found"))
              && (mapped.exn.receipt.Some? ==> mapped.exn.receipt.value.effectId == effectId)
              && mapped.exn.effectId == (if mapped.exn.receipt.Some? then Some(effectId) else None)
              && (IsOutcome(mapped.exn.kind) <==> mapped.exn.receipt.Some?)
    ensures !Mapping(rt, e, Some(effectId), lookup).Typed? ==>
              !SaysCommitted(rt, effectId, Http(e)) && !Declares(rt, Http(e), "not_found")
  {
    if SupportedEncoding(e) && EnvelopeOf(e).Some? {
      var envelope := EnvelopeOf(e).value;
      FallbackIsNoEvidence(rt, e, envelope.declared);
      if Summary(rt, envelope.details).Some? {
        ClassifiedEvidence(rt, EffectiveCode(envelope.declared, e.status), envelope.message,
                           Summary(rt, envelope.details).value, effectId, lookup);
      }
    }
  }

  /** The ending names this effect, and carries a receipt for it. */
  predicate KeepsIdentity(end: Result<OpResult, Exn>, effectId: string) {
    match end
    case Success(result) => result.receipt.effectId == effectId
    case Failure(exn) => exn.effectId == Some(effectId) && exn.receipt.Some? && exn.receipt.value.effectId == effectId
  }

  /**
   * Whatever the gateway does, an invocation shows the effect committed exactly when the host said so and its
   * output could be read, and never unattempted, unless an exception of the gateway's own brings that evidence.
   */
  lemma InvokeEvidence(rt: Runtime, effectId: string, reaction: Reaction)
    ensures var shown, own := InvokeReceipt(InvokeEnd(rt, effectId, reaction)), Surfaced(rt, effectId, reaction, false);
            var brought := own.Some? && own.value.effectId.Some?;
            && (Shows(shown, COMMITTED) <==>
                || (SaysCommitted(rt, effectId, reaction) && !OutputEscapes(rt, effectId, reaction))
                || (brought && Shows(own.value.receipt, COMMITTED)))
            && (Shows(shown, NOT_ATTEMPTED) <==> brought && Shows(own.value.receipt, NOT_ATTEMPTED))
  {
    match reaction
    case Reply(response) => ReplyEvidence(rt, effectId, response);
    case Http(e) => MappedEvidence(rt, e, effectId, false);
    case Lost(_) =>
    case Other(_) =>
  }

  /**
   * Whatever the gateway does, the effect ID and a receipt for it reach the caller, except exactly when reading a
   * committed output escapes, or an exception of the gateway's own already names an effect and not this one with
   * its receipt.
   */
  lemma IdentityKeptExactly(rt: Runtime, effectId: string, reaction: Reaction)
    ensures KeepsIdentity(InvokeEnd(rt, effectId, reaction), effectId) <==>
            && !OutputEscapes(rt, effectId, reaction)
            && var own := Surfaced(rt, effectId, reaction, false);
               own.Some? && own.value.effectId.Some? ==> KeepsIdentity(Failure(own.value), effectId)
  {
    match reaction
    case Reply(response) => ReplyKeepsIdentity(rt, effectId, response);
    case Http(e) => MappedEvidence(rt, e, effectId, false);
    case Lost(_) =>
    case Other(_) =>
  }

  /** A gateway exception that names another effect reaches the caller as it is. */
  lemma OtherEffectLosesIdentity(rt: Runtime, effectId: string, kind: Kind, message: string, other: string,
                                 receipt: Option<Receipt>)
    requires other != effectId
    ensures var own := Exn(kind, message, Some(other), receipt);
            InvokeEnd(rt, effectId, Other(own)) == Failure(own) && !KeepsIdentity(Failure(own), effectId)
  {
  }

  /** A committed reply whose output text the reader gives up on loses the effect ID, and lookup loses the receipt. */
  lemma EscapingOutputLosesIdentity(rt: Runtime, effectId: string, text: string, name: string)
    requires rt.jsonObject(text) == Escapes(name)
    ensures var receipt := ReceiptFields(None, Some("committed"), Some(effectId), None, Some(text));
            var reply := Reply(Response(Some(receipt), None));
            && SaysCommitted(rt, effectId, reply)
            && InvokeEnd(rt, effectId, reply) == Failure(Plain(ForeignError(name), ""))
            && !KeepsIdentity(InvokeEnd(rt, effectId, reply), effectId)
            && LookupEnd(rt, effectId, reply) == Raises(Plain(ForeignError(name), ""))
  {
  }

  /** An invocation succeeds exactly on a committed receipt for this effect with two readable outputs. */
  lemma InvokeSucceedsExactly(rt: Runtime, effectId: string, reaction: Reaction)
    ensures InvokeEnd(rt, effectId, reaction).Success? <==>
            && reaction.Reply? && SaysCommitted(rt, effectId, reaction)
            && OutputOf(rt, reaction.response.receipt.value.outputJson).Object?
            && OutputOf(rt, reaction.response.outputJson).Object?
    ensures InvokeEnd(rt, effectId, reaction).Success? ==>
              var result := InvokeEnd(rt, effectId, reaction).value;
              && result.receipt.output == Some(OutputOf(rt, reaction.response.receipt.value.outputJson).fields)
              && result.output == OutputOf(rt, reaction.response.outputJson).fields
  {
  }

  /**
   * Whatever the gateway does, lookup shows the effect unattempted exactly when the host declared not_found, and
   * committed exactly when the host said so and its output could be read, unless an exception of the gateway's own
   * brings that evidence. Without one, all it shows and tells names this effect. The three outcomes are told and
   * never raised, and what is found is what invoke would report.
   */
  lemma LookupEvidence(rt: Runtime, effectId: string, reaction: Reaction)
    ensures var end, own := LookupEnd(rt, effectId, reaction), Surfaced(rt, effectId, reaction, true);
            && (Shows(LookupReceipt(end), COMMITTED) <==>
                || (SaysCommitted(rt, effectId, reaction) && !OutputEscapes(rt, effectId, reaction))
                || (own.Some? && Shows(own.value.receipt, COMMITTED)))
            && (Shows(LookupReceipt(end), NOT_ATTEMPTED) <==>
                Declares(rt, reaction, "not_found") || (own.Some? && Shows(own.value.receipt, NOT_ATTEMPTED)))
            && (own.None? && LookupReceipt(end).Some? ==> LookupReceipt(end).value.effectId == effectId)
            && (own.None? && end.Told? ==> end.exn.effectId == Some(effectId) && end.exn.receipt.Some?)
    ensures match LookupEnd(rt, effectId, reaction)
            case Raises(exn) => !IsOutcome(exn.kind)
            case Told(exn) => IsOutcome(exn.kind)
            case Found(receipt) => InvokeEnd(rt, effectId, reaction).Success?
                                   && receipt == InvokeEnd(rt, effectId, reaction).value.receipt
  {
    match reaction
    case Reply(response) =>
      ReplyEvidence(rt, effectId, response);
      ReplyKeepsIdentity(rt, effectId, response);
      if OutputEscapes(rt, effectId, reaction) {
        EscapedReply(rt, effectId, response);
      }
    case Http(e) => MappedEvidence(rt, e, effectId, true);
    case Lost(_) =>
    case Other(_) =>
  }

  /**
   * No reply, no judgement, or a judgement that leaves the effect open: only lookup lets timeouts through as they
   * are.
   */
  ghost predicate Uncertain(rt: Runtime, effectId: string, reaction: Reaction, lookup: bool) {
    match reaction
    case Lost(_) => true
    case Other(_) => false
    case Reply(_) => !SaysCommitted(rt, effectId, reaction)
    case Http(e) =>
      || (e.headers.Some? && e.headers.value.encoding !in ["", "identity", "gzip"])
      || EnvelopeOf(e).None? || Summary(rt, EnvelopeOf(e).value.details).None?
      || var code := EnvelopeOf(e).value.declared;
         || code == "unavailable" || (code !in CONNECT_CODES && e.status in {429, 502, 503, 504})
         || (!lookup && (code == "deadline_exceeded" || code == "canceled"))
         || (code == "failed_precondition"
             && Summary(rt, EnvelopeOf(e).value.details).value.Reason() == "SOURCE_OPERATION_OUTCOME_UNKNOWN")
  }

  lemma MappedUnknown(rt: Runtime, e: HttpError, effectId: string, lookup: bool)
    ensures var mapped := Mapping(rt, e, Some(effectId), lookup);
            Uncertain(rt, effectId, Http(e), lookup) <==>
            mapped.NotConnect? || (mapped.Typed? && mapped.exn.kind == OutcomeUnknown)
  {
    if SupportedEncoding(e) && EnvelopeOf(e).Some? {
      var envelope := EnvelopeOf(e).value;
      if Summary(rt, envelope.details).Some? {
        EffectiveCodeExactly(envelope.declared, e.status);
        ClassifiedUnknown(rt, EffectiveCode(envelope.declared, e.status), envelope.message,
                          Summary(rt, envelope.details).value, effectId, lookup);
      }
    }
  }

  lemma ClassifiedUnknown(rt: Runtime, code: Code, message: string, d: Details, effectId: string, lookup: bool)
    ensures var mapped := Classify(rt, code, message, d, Some(effectId), lookup);
            && !mapped.NotConnect?
            && (mapped.Typed? && mapped.exn.kind == OutcomeUnknown <==>
                || code == Unavailable
                || (!lookup && (code == DeadlineExceeded || code == Canceled))
                || (code == FailedPrecondition && d.Reason() == OUTCOME_UNKNOWN))
  {
  }

  lemma ReplyUnknown(rt: Runtime, effectId: string, response: Response)
    ensures var end := OperationResult(rt, response, effectId);
            end.Failure? && end.error.kind == OutcomeUnknown <==> !SaysCommitted(rt, effectId, Reply(response))
  {
  }

  /**
   * OutcomeUnknown is raised by invoke, and told by lookup, exactly when the reaction leaves the outcome uncertain
   * or is an OutcomeUnknown of the gateway's own.
   */
  lemma OutcomeUnknownExactly(rt: Runtime, effectId: string, reaction: Reaction)
    ensures var end, own := InvokeEnd(rt, effectId, reaction), Surfaced(rt, effectId, reaction, false);
            end.Failure? && end.error.kind == OutcomeUnknown <==>
            Uncertain(rt, effectId, reaction, false) || (own.Some? && own.value.kind == OutcomeUnknown)
    ensures var end, own := LookupEnd(rt, effectId, reaction), Surfaced(rt, effectId, reaction, true);
            end.Told? && end.exn.kind == OutcomeUnknown <==>
            Uncertain(rt, effectId, reaction, true) || (own.Some? && own.value.kind == OutcomeUnknown)
  {
    match reaction
    case Reply(response) => ReplyUnknown(rt, effectId, response);
    case Http(e) =>
      MappedUnknown(rt, e, effectId, false);
      MappedUnknown(rt, e, effectId, true);
    case Lost(_) =>
    case Other(_) =>
  }

  lemma UnknownSays(rt: Runtime, e: HttpError, effectId: string, lookup: bool)
    requires var mapped := Mapping(rt, e, Some(effectId), lookup); mapped.Typed? && mapped.exn.kind == OutcomeUnknown
    ensures SupportedEncoding(e) ==> EnvelopeOf(e).Some?
    ensures Mapping(rt, e, Some(effectId), lookup).exn ==
            Unknown(effectId,
                    if SupportedEncoding(e) then EnvelopeOf(e).value.message else "unsupported response encoding")
  {
  }

  lemma UnreadHttpIsUnknown(rt: Runtime, effectId: string, e: HttpError, lookup: bool)
    requires Uncertain(rt, effectId, Http(e), lookup)
    ensures RpcEnd(rt, if lookup then LookupOperation else InvokeOperation, Some(effectId), Http(e)) ==
            Failure(Unknown(effectId,
                            if !SupportedEncoding(e) then "unsupported response encoding"
                            else if Mapping(rt, e, Some(effectId), lookup).NotConnect? then e.own.message
                            else if EnvelopeOf(e).Some? then EnvelopeOf(e).value.message else ""))
  {
    MappedUnknown(rt, e, effectId, lookup);
    if Mapping(rt, e, Some(effectId), lookup).Typed? {
      UnknownSays(rt, e, effectId, lookup);
    }
  }

  lemma NotConnectOnBoth(rt: Runtime, e: HttpError, effectId: string)
    ensures Mapping(rt, e, Some(effectId), true).NotConnect? <==> Mapping(rt, e, Some(effectId), false).NotConnect?
  {
  }

  /** When no reply was read, lookup tells what invoke raises, with the bare unknown receipt. */
  lemma UnreadIsUnknown(rt: Runtime, effectId: string, reaction: Reaction)
    requires Uncertain(rt, effectId, reaction, true) && !reaction.Reply?
    ensures var end := InvokeEnd(rt, effectId, reaction);
            && end.Failure? && LookupEnd(rt, effectId, reaction) == Told(end.error)
            && end.error.kind == OutcomeUnknown && end.error.receipt == Some(Bare(effectId, UNKNOWN))
  {
    match reaction
    case Http(e) =>
      UnreadHttpIsUnknown(rt, effectId, e, true);
      UnreadHttpIsUnknown(rt, effectId, e, false);
      NotConnectOnBoth(rt, e, effectId);
    case Lost(_) =>
  }

  lemma FallbackClassified(rt: Runtime, status: int, message: string, d: Details, effectId: string)
    ensures Classify(rt, FallbackCode(status), message, d, Some(effectId), false) ==
            if status in {429, 502, 503, 504} then Typed(Unknown(effectId, message))
            else if status == 403 then Typed(Plain(NotPermitted, message))
            else Original
  {
  }

  /**
   * A corollary: a Connect error without a code it knows is judged by its status alone, which never proves anything
   * about the effect.
   */
  lemma StatusAlone(rt: Runtime, effectId: string, e: HttpError)
    requires e.own.effectId.None? && SupportedEncoding(e) && EnvelopeOf(e).Some?
    requires EnvelopeOf(e).value.declared !in CONNECT_CODES && Summary(rt, EnvelopeOf(e).value.details).Some?
    ensures var end := InvokeEnd(rt, effectId, Http(e));
            && end.Failure? && end.error.receipt == Some(Bare(effectId, UNKNOWN))
            && end.error.kind == (if e.status in {429, 502, 503, 504} then OutcomeUnknown
                                  else if e.status == 403 then NotPermitted
                                  else e.own.kind)
  {
    var envelope := EnvelopeOf(e).value;
    KnownCodes(envelope.declared);
    FallbackClassified(rt, e.status, envelope.message, Summary(rt, envelope.details).value, effectId);
  }

  /** What a reply shows, exactly: the host's receipt, the bare unknown one without it, none when its output escapes. */
  lemma ReplyShows(rt: Runtime, effectId: string, response: Response)
    ensures InvokeReceipt(OperationResult(rt, response, effectId)) ==
            if !ReplyReads(rt, effectId, response) then Some(Bare(effectId, UNKNOWN))
            else if OutputEscapes(rt, effectId, Reply(response)) then None
            else Some(HostReceipt(rt, effectId, response.receipt.value))
  {
    ReplyReadsExactly(rt, effectId, response);
  }

  lemma ReplyReadsExactly(rt: Runtime, effectId: string, response: Response)
    ensures ReceiptFor(rt, response, effectId).Some? <==> ReplyReads(rt, effectId, response)
    ensures ReplyReads(rt, effectId, response) ==>
              ReceiptFor(rt, response, effectId) ==
              Some(HostReceipt(rt, effectId, response.receipt.value).(output := None))
  {
    if response.receipt.Some? {
      ReceiptExactly(rt, response.receipt.value, HostReceipt(rt, effectId, response.receipt.value).(output := None));
    }
  }

  /** A committed reply with an output that is no object is a plain error with the receipt, on both calls. */
  lemma InvalidOutputExactly(rt: Runtime, effectId: string, response: Response)
    requires SaysCommitted(rt, effectId, Reply(response)) && !OutputEscapes(rt, effectId, Reply(response))
    requires || OutputOf(rt, response.receipt.value.outputJson) == NotAnObject
             || OutputOf(rt, response.outputJson) == NotAnObject
    ensures var end := InvokeEnd(rt, effectId, Reply(response));
            var receipt := HostReceipt(rt, effectId, response.receipt.value);
            && end.Failure? && end.error.kind == DatasourceError
            && end.error.effectId == Some(effectId) && end.error.receipt == Some(receipt)
            && LookupEnd(rt, effectId, Reply(response)) == Raises(end.error)
  {
    ReplyReadsExactly(rt, effectId, response);
  }

  const UNMAPPED_CODES: set<string> := {
    "unknown", "already_exists", "aborted", "out_of_range", "unimplemented", "internal", "data_loss", "unauthenticated"}

  /** The exception an HTTP error is mapped to, by what the host declared, for all calls of the client. */
  lemma HostTable(rt: Runtime, e: HttpError, envelope: Envelope, d: Details, effectId: Option<string>, lookup: bool)
    requires e.headers.Some? && e.headers.value.encoding in ["", "identity", "gzip"]
    requires EnvelopeOf(e) == Some(envelope) && Summary(rt, envelope.details) == Some(d)
    ensures var code, message, mapped := envelope.declared, envelope.message, Mapping(rt, e, effectId, lookup);
            var declared := code in CONNECT_CODES;
            && (code == "permission_denied" || (!declared && e.status == 403) ==>
                  mapped == Typed(Plain(NotPermitted, message)))
            && (code == "not_found" && !(lookup && effectId.Some?) ==>
                  mapped == Typed(Plain(UnknownOperation, message)))
            && (code == "invalid_argument" ==> mapped == Typed(Plain(InputError(d.Pointer()), message)))
            && (code == "resource_exhausted" && d.Reason() == "DATASOURCE_RATE_LIMITED" ==>
                  mapped == Typed(Plain(RateLimited(ResetTime(rt, d)), message)))
            && (code == "failed_precondition" ==> mapped == Typed(ClassifyPrecondition(message, d, effectId)))
            && (code == "resource_exhausted" && d.Reason() != "DATASOURCE_RATE_LIMITED" ==> mapped == Original)
            && (code in UNMAPPED_CODES ==> mapped == Original)
            && (!declared && e.status !in {403, 429, 502, 503, 504} ==> mapped == Original)
            && (effectId.None? && code in {"unavailable", "deadline_exceeded", "canceled"} ==> mapped == Original)
            && (lookup && code in {"deadline_exceeded", "canceled"} ==> mapped == Original)
  {
    EffectiveCodeExactly(envelope.declared, e.status);
    ClassifiedExactly(rt, EffectiveCode(envelope.declared, e.status), envelope.message, d, effectId, lookup);
  }

  /** How a mapped error ends the two effect calls: kind and message are kept, and lookup tells the three outcomes. */
  lemma EndsAsMapped(rt: Runtime, effectId: string, e: HttpError, lookup: bool)
    requires Mapping(rt, e, Some(effectId), lookup).Typed?
    ensures var exn := Mapping(rt, e, Some(effectId), lookup).exn;
            if lookup then
              LookupEnd(rt, effectId, Http(e)) ==
              if exn.kind == OutcomeUnknown || exn.kind == EffectNotFound || exn.kind == DeclarationRemoved then
                Told(exn)
              else
                Raises(exn)
            else
              var end := InvokeEnd(rt, effectId, Http(e));
              end.Failure? && end.error.kind == exn.kind && end.error.message == exn.message
  {
  }

  /** Declaring and listing have no effect to keep: an exception of the gateway's own stays as it is. */
  lemma WithoutEffect(rt: Runtime, procedure: Procedure, own: Exn, response: Response)
    requires procedure.DeclareOperations? || procedure.ListOperations?
    ensures RpcEnd(rt, procedure, None, Lost(own)) == RpcEnd(rt, procedure, None, Other(own)) == Failure(own)
    ensures RpcEnd(rt, procedure, None, Reply(response)) == Success(response)
  {
  }

  /** So does an HTTP error that is no Connect error, but for a 403; a Connect error is mapped without an effect. */
  lemma HttpWithoutEffect(rt: Runtime, procedure: Procedure, e: HttpError)
    requires procedure.DeclareOperations? || procedure.ListOperations?
    ensures var end, mapped := RpcEnd(rt, procedure, None, Http(e)), Mapping(rt, e, None, false);
            end == Failure(match mapped
                           case NotConnect => if e.status == 403 then Plain(NotPermitted, e.own.message) else e.own
                           case Original => e.own
                           case Typed(exn) => exn)
  {
  }

  /** Which HTTP errors are no Connect errors, and what an unsupported encoding is mapped to. */
  lemma NotConnectExactly(rt: Runtime, e: HttpError, effectId: Option<string>, lookup: bool)
    ensures var unsupported := e.headers.Some? && e.headers.value.encoding !in ["", "identity", "gzip"];
            && (Mapping(rt, e, effectId, lookup).NotConnect? <==>
                !unsupported && (EnvelopeOf(e).None? || Summary(rt, EnvelopeOf(e).value.details).None?))
            && (unsupported ==>
                  && Mapping(rt, e, effectId, lookup).Typed?
                  && Mapping(rt, e, effectId, lookup).exn.kind ==
                     if effectId.Some? then OutcomeUnknown else DatasourceError)
  {
  }

  /**
   * Every receipt shown is the host's field by field, the gateway's own exception's, or says no more than effect
   * and status.
   */
  lemma ReceiptInventsNothing(rt: Runtime, effectId: string, reaction: Reaction, lookup: bool, receipt: Receipt)
    requires Some(receipt) ==
             if lookup then LookupReceipt(LookupEnd(rt, effectId, reaction))
             else InvokeReceipt(InvokeEnd(rt, effectId, reaction))
    ensures var own := Surfaced(rt, effectId, reaction, lookup);
            if reaction.Reply? then
              receipt == if ReplyReads(rt, effectId, reaction.response) then
                           HostReceipt(rt, effectId, reaction.response.receipt.value)
                         else Receipt(effectId, UNKNOWN, None, None, None)
            else
              || (own.Some? && own.value.receipt == Some(receipt))
              || receipt == Receipt(effectId, receipt.status, None, None, None)
  {
    match reaction
    case Reply(response) => ReplyShows(rt, effectId, response);
    case Http(e) => MappedIsBare(rt, e, effectId, lookup);
    case Lost(_) =>
    case Other(_) =>
  }

  predicate BareIfAny(mapped: Mapped, effectId: string) {
    mapped.Typed? && mapped.exn.receipt.Some? ==>
      mapped.exn.receipt.value == Bare(effectId, mapped.exn.receipt.value.status)
  }

  lemma ClassifiedIsBare(rt: Runtime, code: Code, message: string, d: Details, effectId: string, lookup: bool)
    ensures BareIfAny(Classify(rt, code, message, d, Some(effectId), lookup), effectId)
  {
  }

  lemma MappedIsBare(rt: Runtime, e: HttpError, effectId: string, lookup: bool)
    ensures BareIfAny(Mapping(rt, e, Some(effectId), lookup), effectId)
  {
    if SupportedEncoding(e) && EnvelopeOf(e).Some? {
      var envelope := EnvelopeOf(e).value;
      if Summary(rt, envelope.details).Some? {
        ClassifiedIsBare(rt, EffectiveCode(envelope.declared, e.status), envelope.message,
                         Summary(rt, envelope.details).value, effectId, lookup);
      }
    }
  }

  // ----- The provider's status -----

  lemma ThreeDigits(n: nat)
    requires 100 <= n <= 599
    ensures Uint64.Decimal(n) == ['0' + (n / 100) as char, '0' + (n / 10 % 10) as char, '0' + (n % 10) as char]
  {
    assert Uint64.Decimal(n / 100) == ['0' + (n / 100) as char];
    assert Uint64.Decimal(n / 10) == Uint64.Decimal(n / 100) + ['0' + (n / 10 % 10) as char];
    assert Uint64.Decimal(n) == Uint64.Decimal(n / 10) + ['0' + (n % 10) as char];
  }

  lemma DigitsOfNumber(n: nat, a: nat, b: nat, c: nat)
    requires n == a * 100 + b * 10 + c && a < 10 && b < 10 && c < 10
    ensures n / 100 == a && n / 10 % 10 == b && n % 10 == c
  {
    DivModUnique(n, 100, a, b * 10 + c);
    DivModUnique(n, 10, a * 10 + b, c);
    DivModUnique(a * 10 + b, 10, a, b);
  }

  lemma DigitsOfStatus(value: string, n: nat)
    requires ProviderStatus(value) == Some(n)
    ensures 100 <= n <= 599
    ensures value == ['0' + (n / 100) as char, '0' + (n / 10 % 10) as char, '0' + (n % 10) as char]
  {
    DigitsOfNumber(n, value[0] as int - 48, value[1] as int - 48, value[2] as int - 48);
    assert value == [value[0], value[1], value[2]];
  }

  lemma StatusOfDigits(n: nat)
    requires 100 <= n <= 599
    ensures ProviderStatus(['0' + (n / 100) as char, '0' + (n / 10 % 10) as char, '0' + (n % 10) as char]) == Some(n)
  {
    var a, b, c := n / 100, n / 10 % 10, n % 10;
    DivModUnique(n / 10, 10, n / 100, b);
    assert n == a * 100 + b * 10 + c;
  }

  /** A provider status is reported exactly when the host's text is the decimal text of a status it may send. */
  lemma ProviderStatusExactly(value: string, n: nat)
    ensures ProviderStatus(value) == Some(n) <==> 100 <= n <= 599 && value == Uint64.Decimal(n)
  {
    if ProviderStatus(value) == Some(n) {
      DigitsOfStatus(value, n);
    }
    if 100 <= n <= 599 {
      ThreeDigits(n);
      StatusOfDigits(n);
    }
  }
}
