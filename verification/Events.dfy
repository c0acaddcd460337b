/** Errors, events, and the last gate of both verifiers: reading the event
    identity out of the verified body. */
module Events {
  import opened Machine
  import opened Outcomes

  datatype Provider = Stripe | Paypal

  datatype InputProblem =
    | EmptySecret
    | UnusableKey
    | UnsupportedAlgorithm(name: string)
    | NotPaypalHost(url: string)
    | EmptyWebhookId
    | BadCertificate

  datatype EventProblem = NotJson | MissingId | MissingType

  datatype VerifyError =
    | MissingSignature
    | MalformedSignature
    | TimestampOutOfTolerance(skewSecs: I64, toleranceSecs: U64)
    | SignatureMismatch
    | InvalidInput(input: InputProblem)
    | MalformedEvent(event: EventProblem)

  datatype VerifiedEvent = VerifiedEvent(provider: Provider, id: string, eventType: string, payload: Bytes)

  datatype Json =
    | Null
    | Boolean(truth: bool)
    | Number(digits: string)
    | String(text: string)
    | Array(items: seq<Json>)
    | Object(members: map<string, Json>)
  {
    /** Member of an object; nothing for any other kind of value. */
    function Get(key: string): Option<Json> {
      if Object? && key in members then Some(members[key]) else None
    }

    function AsStr(): Option<string> {
      if String? then Some(text) else None
    }
  }

  type JsonParser = Bytes -> Option<Json>

  function StringAt(value: Option<Json>): Option<string> {
    if value.Some? then value.value.AsStr() else None
  }

  function FromBody(provider: Provider, payload: Bytes, parse: JsonParser): Result<VerifiedEvent, VerifyError> {
    match parse(payload)
    case None => Err(MalformedEvent(NotJson))
    case Some(value) =>
      var id := StringAt(value.Get("id"));
      if id == None then Err(MalformedEvent(MissingId))
      else
        var typeValue := if value.Get("type").Some? then value.Get("type") else value.Get("event_type");
        var eventType := StringAt(typeValue);
        if eventType == None then Err(MalformedEvent(MissingType))
        else Ok(VerifiedEvent(provider, id.value, eventType.value, payload))
  }

  predicate HasString(value: Json, key: string, text: string) {
    value.Object? && key in value.members && value.members[key] == String(text)
  }

  predicate HasMember(value: Json, key: string) {
    value.Object? && key in value.members
  }

  /** `type` speaks when it is there at all, `event_type` only in its absence. */
  function DecidingKey(value: Json): string {
    if HasMember(value, "type") then "type" else "event_type"
  }

  predicate Identifies(value: Json, id: string, eventType: string) {
    HasString(value, "id", id) && HasString(value, DecidingKey(value), eventType)
  }

  ghost predicate HasSomeString(value: Json, key: string) {
    exists text :: HasString(value, key, text)
  }

  /** What is wrong with a body that identifies no event: a missing id is noticed
      before a missing type. */
  ghost predicate HasProblem(parsed: Option<Json>, problem: EventProblem) {
    match problem
    case NotJson => parsed == None
    case MissingId => parsed.Some? && !HasSomeString(parsed.value, "id")
    case MissingType =>
      && parsed.Some?
      && HasSomeString(parsed.value, "id")
      && !HasSomeString(parsed.value, DecidingKey(parsed.value))
  }

  lemma FromBodyRejects(provider: Provider, payload: Bytes, parse: JsonParser, e: VerifyError)
    ensures FromBody(provider, payload, parse) == Err(e) <==>
            e.MalformedEvent? && HasProblem(parse(payload), e.event)
  {
    if parse(payload).Some? {
      var value := parse(payload).value;
      StringAtExact(value, "id");
      StringAtExact(value, DecidingKey(value));
    }
  }

  lemma StringAtExact(value: Json, key: string)
    ensures HasSomeString(value, key) <==> StringAt(value.Get(key)).Some?
  {
    if StringAt(value.Get(key)).Some? {
      assert HasString(value, key, StringAt(value.Get(key)).value);
    }
  }

  lemma FromBodyExact(provider: Provider, payload: Bytes, parse: JsonParser, e: VerifiedEvent)
    ensures FromBody(provider, payload, parse) == Ok(e) <==>
            && e.provider == provider
            && e.payload == payload
            && parse(payload).Some?
            && Identifies(parse(payload).value, e.id, e.eventType)
  {
  }

  /** What the gate is documented to need: a string `id`, and a string under
      `type` or under `event_type`. */
  ghost predicate DocumentedShape(value: Json) {
    && (exists id :: HasString(value, "id", id))
    && ((exists t :: HasString(value, "type", t)) || (exists t :: HasString(value, "event_type", t)))
  }

  predicate TypeIsNotString(value: Json) {
    HasMember(value, "type") && !value.members["type"].String?
  }

  /** The documented shape is enough exactly when no `type` of another kind
      stands in front of `event_type`. */
  lemma DocumentedShapeSuffices(provider: Provider, payload: Bytes, parse: JsonParser)
    requires parse(payload).Some?
    ensures var value := parse(payload).value;
            FromBody(provider, payload, parse).Ok? <==> DocumentedShape(value) && !TypeIsNotString(value)
  {
    var value := parse(payload).value;
    if FromBody(provider, payload, parse).Ok? {
      var e := FromBody(provider, payload, parse).value;
      FromBodyExact(provider, payload, parse, e);
      assert HasString(value, "id", e.id);
    }
  }

  /** A body of the documented shape that is rejected. */
  lemma NumericTypeHidesEventType(provider: Provider, payload: Bytes)
    ensures var value := Object(map["id" := String("WH-1"), "type" := Number("7"), "event_type" := String("PAID")]);
            && DocumentedShape(value)
            && FromBody(provider, payload, (_: Bytes) => Some(value)) == Err(MalformedEvent(MissingType))
  {
    var value := Object(map["id" := String("WH-1"), "type" := Number("7"), "event_type" := String("PAID")]);
    assert HasString(value, "id", "WH-1") && HasString(value, "event_type", "PAID");
  }

  /** What the gate is documented to need of Stripe: a string `id` and a string
      `type`. */
  ghost predicate StripeShape(value: Json) {
    (exists id :: HasString(value, "id", id)) && (exists t :: HasString(value, "type", t))
  }

  /** A string `id`, no `type` at all, and a string `event_type`. */
  ghost predicate OnlyEventType(value: Json) {
    && (exists id :: HasString(value, "id", id))
    && !HasMember(value, "type")
    && (exists t :: HasString(value, "event_type", t))
  }

  /** For Stripe too, the gate is the documented one exactly when the body is not
      of the shape meant for PayPal; that shape it lets through. */
  lemma StripeShapeExact(payload: Bytes, parse: JsonParser)
    requires parse(payload).Some?
    ensures var value := parse(payload).value;
            && (FromBody(Stripe, payload, parse).Ok? <==> StripeShape(value) || OnlyEventType(value))
            && ((FromBody(Stripe, payload, parse).Ok? <==> StripeShape(value)) <==> !OnlyEventType(value))
  {
    var value := parse(payload).value;
    if FromBody(Stripe, payload, parse).Ok? {
      var e := FromBody(Stripe, payload, parse).value;
      FromBodyExact(Stripe, payload, parse, e);
      assert HasString(value, "id", e.id);
      assert HasString(value, "type", e.eventType) || HasString(value, "event_type", e.eventType);
    }
  }

  /** A Stripe body without `type` that is accepted. */
  lemma StripeReadsEventType(payload: Bytes)
    ensures var value := Object(map["id" := String("evt_1"), "event_type" := String("PAID")]);
            && !StripeShape(value)
            && FromBody(Stripe, payload, (_: Bytes) => Some(value)) ==
               Ok(VerifiedEvent(Stripe, "evt_1", "PAID", payload))
  {
  }
}
