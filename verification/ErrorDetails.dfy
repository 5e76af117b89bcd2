/** The detail list of a Connect error body: one pass that collects what the error mapping looks at. */
module ErrorDetails {
  import opened Wrappers
  import opened JsonValues

  type Bytes = seq<int>

  datatype ErrorInfo = ErrorInfo(reason: string, metadata: map<string, string>)

  datatype Delay = Delay(seconds: int, nanos: int)

  /**
   * A JSON text that must hold one object: it does, it does not, or the reader gives up with an exception of a
   * class its callers do not catch, as on text nested beyond the interpreter's recursion limit.
   */
  datatype ObjectRead = Object(fields: map<string, Json>) | NotAnObject | Escapes(name: string)

  /** What the base64, protobuf, JSON and timestamp runtimes answer; None is a parse failure their callers catch. */
  datatype Runtime = Runtime(
    base64: string -> Option<Bytes>,
    badRequest: Bytes -> Option<seq<string>>,
    errorInfo: Bytes -> Option<ErrorInfo>,
    retryInfo: Bytes -> Option<Option<Delay>>,
    timestamp: string -> Option<int>,
    afterDelay: Delay -> Option<int>,
    jsonObject: string -> ObjectRead)

  /** What one element of the list contributes. */
  datatype Meaning =
    | Malformed
    | Noise
    | Violations(fields: seq<string>)
    | Info(info: ErrorInfo)
    | Retry(delay: Option<Delay>)

  const TYPE_PREFIX := "type.googleapis.com/"

  function RemovePrefix(s: string, prefix: string): string {
    if prefix <= s then s[|prefix|..] else s
  }

  /** A JSON null stands for the empty string. */
  function StringField(fields: map<string, Json>, name: string): Option<string> {
    match Get(fields, name, JString(""))
    case JString(s) => Some(s)
    case JNull => Some("")
    case _ => None
  }

  function Decoded(rt: Runtime, name: string, wire: Bytes): Meaning {
    var short := RemovePrefix(name, TYPE_PREFIX);
    if short == "google.rpc.BadRequest" then
      (match rt.badRequest(wire) case Some(fields) => Violations(fields) case None => Noise)
    else if short == "google.rpc.ErrorInfo" then
      (match rt.errorInfo(wire) case Some(info) => Info(info) case None => Noise)
    else if short == "google.rpc.RetryInfo" then
      (match rt.retryInfo(wire) case Some(delay) => Retry(delay) case None => Noise)
    else Noise
  }

  /** The base64 text is checked before the type is looked at. */
  function MeaningOf(rt: Runtime, detail: Json): Meaning {
    match detail
    case JNull => Noise
    case JObject(fields) =>
      (match (StringField(fields, "type"), StringField(fields, "value"))
       case (Some(name), Some(value)) =>
         (match rt.base64(value) case Some(wire) => Decoded(rt, name, wire) case None => Malformed)
       case _ => Malformed)
    case _ => Malformed
  }

  lemma PrefixRemoved(name: string, short: string)
    requires !("type.googleapis.com/" <= short)
    ensures RemovePrefix(name, TYPE_PREFIX) == short <==> name == short || name == "type.googleapis.com/" + short
  {
    if TYPE_PREFIX <= name {
      assert name == TYPE_PREFIX + name[|TYPE_PREFIX|..];
    }
  }

  ghost predicate Names(name: string, short: string) {
    name == short || name == "type.googleapis.com/" + short
  }

  /** The three detail types, each under its short and its full name; a wire value that does not decode says nothing. */
  lemma DecodedExactly(rt: Runtime, name: string, wire: Bytes)
    ensures Decoded(rt, name, wire) ==
            if Names(name, "google.rpc.BadRequest") then
              if rt.badRequest(wire).Some? then Violations(rt.badRequest(wire).value) else Noise
            else if Names(name, "google.rpc.ErrorInfo") then
              if rt.errorInfo(wire).Some? then Info(rt.errorInfo(wire).value) else Noise
            else if Names(name, "google.rpc.RetryInfo") then
              if rt.retryInfo(wire).Some? then Retry(rt.retryInfo(wire).value) else Noise
            else Noise
  {
    NoPrefix("google.rpc.BadRequest");
    NoPrefix("google.rpc.ErrorInfo");
    NoPrefix("google.rpc.RetryInfo");
    PrefixRemoved(name, "google.rpc.BadRequest");
    PrefixRemoved(name, "google.rpc.ErrorInfo");
    PrefixRemoved(name, "google.rpc.RetryInfo");
  }

  lemma NoPrefix(short: string)
    requires short != "" && short[0] == 'g'
    ensures !("type.googleapis.com/" <= short)
  {
  }

  /** A member holds this text, where null and absence stand for the empty one. */
  ghost predicate Holds(fields: map<string, Json>, name: string, text: string) {
    if name in fields then fields[name] == JString(text) || (fields[name] == JNull && text == "") else text == ""
  }

  lemma HoldsExactly(fields: map<string, Json>, name: string, text: string)
    ensures Holds(fields, name, text) <==> StringField(fields, name) == Some(text)
  {
  }

  /** Which elements are details at all: null, or an object of two texts of which the second is base64. */
  lemma WellFormedExactly(rt: Runtime, detail: Json)
    ensures !MeaningOf(rt, detail).Malformed? <==>
            || detail.JNull?
            || (detail.JObject? && exists name, value ::
                  Holds(detail.fields, "type", name) && Holds(detail.fields, "value", value) && rt.base64(value).Some?)
    ensures detail.JNull? ==> MeaningOf(rt, detail) == Noise
  {
    if detail.JObject? {
      forall name: string { HoldsExactly(detail.fields, "type", name); }
      forall value: string { HoldsExactly(detail.fields, "value", value); }
    }
  }

  lemma MeaningExactly(rt: Runtime, fields: map<string, Json>, name: string, value: string, wire: Bytes)
    requires Holds(fields, "type", name) && Holds(fields, "value", value) && rt.base64(value) == Some(wire)
    ensures MeaningOf(rt, JObject(fields)) == Decoded(rt, name, wire)
  {
  }

  /** A missing `info` or `retry` stands for the empty message. */
  datatype Details = Details(violations: seq<string>, info: Option<ErrorInfo>, retry: Option<Option<Delay>>) {
    function Reason(): string {
      if info.Some? then info.value.reason else ""
    }

    function Metadata(name: string): string {
      if info.Some? && name in info.value.metadata then info.value.metadata[name] else ""
    }

    function Pointer(): string {
      if violations != [] then violations[0] else ""
    }
  }

  /** Reason and metadata are those of the info, and empty without one. */
  lemma InfoExactly(d: Details, name: string)
    ensures d.info.None? ==> d.Reason() == d.Metadata(name) == ""
    ensures d.info.Some? ==>
              && d.Reason() == d.info.value.reason
              && (name in d.info.value.metadata ==> d.Metadata(name) == d.info.value.metadata[name])
              && (name !in d.info.value.metadata ==> d.Metadata(name) == "")
  {
  }

  // ----- The list as a whole -----

  ghost predicate WellFormed(rt: Runtime, details: seq<Json>) {
    forall i | 0 <= i < |details| :: !MeaningOf(rt, details[i]).Malformed?
  }

  function AllViolations(rt: Runtime, details: seq<Json>): seq<string> {
    if details == [] then []
    else
      var m := MeaningOf(rt, details[0]);
      (if m.Violations? then m.fields else []) + AllViolations(rt, details[1..])
  }

  function LastInfo(rt: Runtime, details: seq<Json>): Option<ErrorInfo> {
    if details == [] then None
    else
      var m := MeaningOf(rt, details[|details| - 1]);
      if m.Info? then Some(m.info) else LastInfo(rt, details[..|details| - 1])
  }

  function LastRetry(rt: Runtime, details: seq<Json>): Option<Option<Delay>> {
    if details == [] then None
    else
      var m := MeaningOf(rt, details[|details| - 1]);
      if m.Retry? then Some(m.delay) else LastRetry(rt, details[..|details| - 1])
  }

  /** One malformed element spoils the list; otherwise all violations, the last info and the last retry count. */
  ghost function Summary(rt: Runtime, details: seq<Json>): Option<Details> {
    if WellFormed(rt, details) then
      Some(Details(AllViolations(rt, details), LastInfo(rt, details), LastRetry(rt, details)))
    else None
  }

  lemma SummaryOfOne(rt: Runtime, d: Json)
    ensures Summary(rt, [d]) ==
            match MeaningOf(rt, d)
            case Malformed => None
            case Noise => Some(Details([], None, None))
            case Violations(fields) => Some(Details(fields, None, None))
            case Info(info) => Some(Details([], Some(info), None))
            case Retry(delay) => Some(Details([], None, Some(delay)))
  {
    var one := [d];
    assert one[1..] == [] && one[..0] == [];
    assert AllViolations(rt, one) == if MeaningOf(rt, d).Violations? then MeaningOf(rt, d).fields else [];
    assert one[|one| - 1] == d;
    assert LastInfo(rt, one) == if MeaningOf(rt, d).Info? then Some(MeaningOf(rt, d).info) else None;
    assert LastRetry(rt, one) == if MeaningOf(rt, d).Retry? then Some(MeaningOf(rt, d).delay) else None;
    assert one[0] == d;
  }

  lemma MalformedAt(rt: Runtime, details: seq<Json>, i: nat)
    requires i < |details|
    ensures MeaningOf(rt, details[i]).Malformed? ==> Summary(rt, details) == None
  {
  }

  method ReadDetails(rt: Runtime, details: seq<Json>) returns (result: Option<Details>)
    ensures result == Summary(rt, details)
  {
    var badRequest: seq<string> := [];
    var info: Option<ErrorInfo> := None;
    var retry: Option<Option<Delay>> := None;
    for i := 0 to |details|
      invariant Some(Details(badRequest, info, retry)) == Summary(rt, details[..i])
    {
      SummaryOfConcat(rt, details[..i], [details[i]]);
      SummaryOfOne(rt, details[i]);
      MalformedAt(rt, details, i);
      CombineWithNothing(Some(Details(badRequest, info, retry)));
      assert details[..i + 1] == details[..i] + [details[i]];
      var detail := details[i];
      if detail.JNull? {
        continue;
      }
      if !detail.JObject? {
        return None;
      }
      var name, value := StringField(detail.fields, "type"), StringField(detail.fields, "value");
      if name.None? || value.None? {
        return None;
      }
      var wire := rt.base64(value.value);
      if wire.None? {
        return None;
      }
      match Decoded(rt, name.value, wire.value) {
        case Violations(fields) => badRequest := badRequest + fields;
        case Info(decoded) => info := Some(decoded);
        case Retry(decoded) => retry := Some(decoded);
        case _ =>
      }
    }
    assert details[..|details|] == details;
    return Some(Details(badRequest, info, retry));
  }

  /** Reading two lists one after the other: violations accumulate, a later message replaces an earlier one. */
  function Combine(a: Option<Details>, b: Option<Details>): Option<Details> {
    match (a, b)
    case (Some(x), Some(y)) =>
      Some(Details(x.violations + y.violations,
                   if y.info.Some? then y.info else x.info,
                   if y.retry.Some? then y.retry else x.retry))
    case _ => None
  }

  lemma CombineWithNothing(a: Option<Details>)
    ensures Combine(a, Some(Details([], None, None))) == a
    ensures a.Some? ==> a.value.violations + [] == a.value.violations
  {
    assert a.Some? ==> a.value.violations + [] == a.value.violations;
  }

  lemma {:induction false} ViolationsOfConcat(rt: Runtime, a: seq<Json>, b: seq<Json>)
    ensures AllViolations(rt, a + b) == AllViolations(rt, a) + AllViolations(rt, b)
  {
    if a == [] {
      assert a + b == b;
    } else {
      assert (a + b)[1..] == a[1..] + b;
      ViolationsOfConcat(rt, a[1..], b);
    }
  }

  lemma {:induction false} LastOfConcat(rt: Runtime, a: seq<Json>, b: seq<Json>)
    ensures LastInfo(rt, a + b) == if LastInfo(rt, b).Some? then LastInfo(rt, b) else LastInfo(rt, a)
    ensures LastRetry(rt, a + b) == if LastRetry(rt, b).Some? then LastRetry(rt, b) else LastRetry(rt, a)
  {
    if b == [] {
      assert a + b == a;
    } else {
      var shorter := b[..|b| - 1];
      assert (a + b)[..|a + b| - 1] == a + shorter;
      LastOfConcat(rt, a, shorter);
    }
  }

  /** The fold is a homomorphism from concatenation. */
  lemma SummaryOfConcat(rt: Runtime, a: seq<Json>, b: seq<Json>)
    ensures Summary(rt, a + b) == Combine(Summary(rt, a), Summary(rt, b))
  {
    ViolationsOfConcat(rt, a, b);
    LastOfConcat(rt, a, b);
    assert WellFormed(rt, a + b) <==> WellFormed(rt, a) && WellFormed(rt, b) by {
      assert forall i | 0 <= i < |a| :: (a + b)[i] == a[i];
      assert forall i | 0 <= i < |b| :: (a + b)[|a| + i] == b[i];
    }
  }

  /** Null, unknown and undecodable elements can be inserted anywhere without effect. */
  lemma NoiseHasNoEffect(rt: Runtime, a: seq<Json>, noise: Json, b: seq<Json>)
    requires MeaningOf(rt, noise).Noise?
    ensures Summary(rt, a + [noise] + b) == Summary(rt, a + b)
  {
    SummaryOfConcat(rt, a + [noise], b);
    SummaryOfConcat(rt, a, [noise]);
    SummaryOfConcat(rt, a, b);
    SummaryOfOne(rt, noise);
    CombineWithNothing(Summary(rt, a));
  }

  /** One element that is no detail, or whose value is no base64, spoils the list wherever it stands. */
  lemma MalformedSpoilsAll(rt: Runtime, a: seq<Json>, bad: Json, b: seq<Json>)
    requires MeaningOf(rt, bad).Malformed?
    ensures Summary(rt, a + [bad] + b) == None
  {
    assert (a + [bad] + b)[|a|] == bad;
  }

  /** Bad base64 counts even under a type nobody reads. */
  lemma BadBase64IsMalformed(rt: Runtime, fields: map<string, Json>, value: string)
    requires StringField(fields, "value") == Some(value) && rt.base64(value).None?
    ensures MeaningOf(rt, JObject(fields)).Malformed?
  {
  }

  /** The pointer is the first violation of the first element that carries any. */
  lemma {:induction false} PointerIsFirstViolation(rt: Runtime, a: seq<Json>, first: Json, b: seq<Json>)
    requires forall i | 0 <= i < |a| :: MeaningOf(rt, a[i]).Violations? ==> MeaningOf(rt, a[i]).fields == []
    requires MeaningOf(rt, first).Violations? && MeaningOf(rt, first).fields != []
    requires WellFormed(rt, a + [first] + b)
    ensures Summary(rt, a + [first] + b).value.Pointer() == MeaningOf(rt, first).fields[0]
  {
    ViolationsOfConcat(rt, a + [first], b);
    ViolationsOfConcat(rt, a, [first]);
    NoViolations(rt, a);
    assert AllViolations(rt, [first]) == MeaningOf(rt, first).fields + [];
  }

  lemma {:induction false} NoViolations(rt: Runtime, a: seq<Json>)
    requires forall i | 0 <= i < |a| :: MeaningOf(rt, a[i]).Violations? ==> MeaningOf(rt, a[i]).fields == []
    ensures AllViolations(rt, a) == []
  {
    if a != [] {
      NoViolations(rt, a[1..]);
    }
  }

  /** The reason comes from the last decodable ErrorInfo, even an empty one. */
  lemma ReasonIsFromLastInfo(rt: Runtime, a: seq<Json>, last: Json, b: seq<Json>)
    requires MeaningOf(rt, last).Info?
    requires forall i | 0 <= i < |b| :: !MeaningOf(rt, b[i]).Info?
    requires WellFormed(rt, a + [last] + b)
    ensures Summary(rt, a + [last] + b).value.info == Some(MeaningOf(rt, last).info)
  {
    LastOfConcat(rt, a + [last], b);
    NoInfo(rt, b);
    assert (a + [last])[..|a|] == a;
  }

  lemma {:induction false} NoInfo(rt: Runtime, b: seq<Json>)
    requires forall i | 0 <= i < |b| :: !MeaningOf(rt, b[i]).Info?
    ensures LastInfo(rt, b) == None
  {
    if b != [] {
      NoInfo(rt, b[..|b| - 1]);
    }
  }
}
