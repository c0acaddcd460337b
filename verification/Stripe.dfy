/** Stripe webhook verification: replay window, signed payload, candidate
    match, and the verdict they add up to. HMAC-SHA256 and the JSON parser are
    parameters about which nothing is assumed. */
module Stripe {
  import opened Machine
  import opened Outcomes
  import opened Text
  import opened Decimal
  import opened Events
  import opened Gates
  import opened StripeHeader
  import Hex
  import Counting

  /** The foreign code verification calls. */
  datatype Library = Library(
    acceptsKey: string -> bool,
    hmac: (string, Bytes) -> Bytes,
    parseJson: JsonParser
  )

  /** The incremental MAC: feeding pieces is feeding their concatenation. */
  class HmacSha256 {
    const hmac: (string, Bytes) -> Bytes
    const secret: string
    var fed: Bytes

    constructor (hmac: (string, Bytes) -> Bytes, secret: string)
      ensures this.hmac == hmac && this.secret == secret && fed == []
    {
      this.hmac := hmac;
      this.secret := secret;
      fed := [];
    }

    method Update(data: Bytes)
      modifies this
      ensures fed == old(fed) + data
    {
      fed := fed + data;
    }

    method Finalize() returns (tag: Bytes)
      ensures tag == hmac(secret, fed)
    {
      tag := hmac(secret, fed);
    }
  }

  // ---------------------------------------------------------------------
  // The replay window.
  // ---------------------------------------------------------------------

  /** Widened before subtracting, so that no pair of timestamps overflows. */
  function Skew(now: I64, t: I64): I128 {
    now as I128 - t as I128
  }

  function UnsignedAbs(x: I128): U128 {
    if x < 0 then -(x as int) as U128 else x as U128
  }

  predicate OutOfTolerance(now: I64, t: I64, tolerance: U64) {
    UnsignedAbs(Skew(now, t)) > tolerance as U128
  }

  /** The skew as the error reports it. */
  function ReportedSkew(now: I64, t: I64): I64 {
    var skew := Skew(now, t);
    if I64_MIN <= skew as int <= I64_MAX then skew as I64
    else if skew < 0 then I64_MIN as I64
    else I64_MAX as I64
  }

  function Distance(x: int, y: int): nat {
    if x <= y then y - x else x - y
  }

  /** The decision is the mathematical |now - t| > tolerance; the report clamps
      now - t to 64 bits and keeps its direction. */
  lemma ReplayWindowExact(now: I64, t: I64, tolerance: U64)
    ensures OutOfTolerance(now, t, tolerance) <==> Distance(now as int, t as int) > tolerance as int
    ensures var difference, reported := now as int - t as int, ReportedSkew(now, t) as int;
            && (difference < I64_MIN ==> reported == I64_MIN)
            && (difference > I64_MAX ==> reported == I64_MAX)
            && (I64_MIN <= difference <= I64_MAX ==> reported == difference)
            && (reported < 0 <==> now < t) && (reported > 0 <==> t < now)
  {
  }

  /** Widening the tolerance never turns a timestamp away. */
  lemma ToleranceIsMonotone(now: I64, t: I64, tolerance: U64, wider: U64)
    requires tolerance <= wider && OutOfTolerance(now, t, wider)
    ensures OutOfTolerance(now, t, tolerance)
  {
  }

  /** Only the widest tolerance admits every pair of timestamps. */
  lemma EveryTimestampAdmitted(tolerance: U64)
    ensures (forall now, t :: !OutOfTolerance(now, t, tolerance)) <==> tolerance == 0xFFFF_FFFF_FFFF_FFFF
  {
    if tolerance < 0xFFFF_FFFF_FFFF_FFFF {
      assert OutOfTolerance(I64_MAX as I64, I64_MIN as I64, tolerance);
    }
  }

  // ---------------------------------------------------------------------
  // The signed payload.
  // ---------------------------------------------------------------------

  const DOT: Byte := 0x2E

  predicate IsAscii(s: string) {
    forall i :: 0 <= i < |s| ==> s[i] < '\U{80}'
  }

  function AsciiBytes(s: string): (b: Bytes)
    requires IsAscii(s)
    ensures |b| == |s|
    ensures forall i :: 0 <= i < |s| ==> b[i] == s[i] as int as Byte
  {
    seq(|s|, i requires 0 <= i < |s| => s[i] as int as Byte)
  }

  function TimestampBytes(t: I64): Bytes {
    ShowIntChars(t as int);
    AsciiBytes(ShowInt(t as int))
  }

  /** "{t}.{body}" */
  function SignedPayload(t: I64, body: Bytes): Bytes {
    TimestampBytes(t) + [DOT] + body
  }

  function FirstDot(b: Bytes): (k: nat)
    ensures k <= |b|
    ensures forall i :: 0 <= i < k ==> b[i] != DOT
    ensures k < |b| ==> b[k] == DOT
  {
    if b == [] || b[0] == DOT then 0 else 1 + FirstDot(b[1..])
  }

  function TextOf(b: Bytes): (s: string)
    ensures |s| == |b|
    ensures forall i :: 0 <= i < |b| ==> s[i] == b[i] as char
  {
    seq(|b|, i requires 0 <= i < |b| => b[i] as char)
  }

  /** Reading a signed payload back: the text before the first dot, the bytes
      after it. */
  function DecodePayload(b: Bytes): Option<(I64, Bytes)> {
    var k := FirstDot(b);
    if k == |b| then None
    else
      var t :- ParseI64(TextOf(b[..k]));
      Some((t, b[k + 1..]))
  }

  lemma FirstDotIs(b: Bytes, k: nat)
    requires k < |b| && b[k] == DOT
    requires forall i :: 0 <= i < k ==> b[i] != DOT
    ensures FirstDot(b) == k
  {
  }

  /** Every timestamp and every body, dots and digits included, can be read
      back; so no two pairs share a signed payload. */
  lemma PayloadDecodes(t: I64, body: Bytes)
    ensures DecodePayload(SignedPayload(t, body)) == Some((t, body))
  {
    hide ShowInt, ParseI64;
    ShowIntChars(t as int);
    var text, b := ShowInt(t as int), SignedPayload(t, body);
    forall i | 0 <= i < |text|
      ensures b[i] != DOT
    {
      assert IsNumberChar(text[i]);
    }
    FirstDotIs(b, |text|);
    assert TextOf(b[..|text|]) == text;
    ParseShow(t);
  }

  /** For a body of ASCII text the signed payload is the text "{t}.{body}". */
  lemma PayloadText(t: I64, body: string)
    requires IsAscii(body)
    ensures IsAscii(ShowInt(t as int) + "." + body)
    ensures SignedPayload(t, AsciiBytes(body)) == AsciiBytes(ShowInt(t as int) + "." + body)
  {
    ShowIntChars(t as int);
  }

  lemma PayloadInjective(t: I64, body: Bytes, t': I64, body': Bytes)
    ensures SignedPayload(t, body) == SignedPayload(t', body') <==> t == t' && body == body'
  {
    PayloadDecodes(t, body);
    PayloadDecodes(t', body');
  }

  // ---------------------------------------------------------------------
  // The verdict.
  // ---------------------------------------------------------------------

  datatype Call = Call(payload: Bytes, header: string, secret: string, now: I64, tolerance: U64)

  type Verdict = Result<VerifiedEvent, VerifyError>

  function Tag(lib: Library, call: Call, t: I64): Bytes {
    lib.hmac(call.secret, SignedPayload(t, call.payload))
  }

  /** Of an ASCII body, the tag is the MAC under the secret of "{t}.{body}". */
  lemma TagOfText(lib: Library, call: Call, t: I64, body: string)
    requires IsAscii(body) && call.payload == AsciiBytes(body)
    ensures IsAscii(ShowInt(t as int) + "." + body)
    ensures Tag(lib, call, t) == lib.hmac(call.secret, AsciiBytes(ShowInt(t as int) + "." + body))
  {
    PayloadText(t, body);
  }

  predicate AnyMatches(candidates: seq<string>, tag: Bytes) {
    exists i :: 0 <= i < |candidates| && Hex.Matches(candidates[i], tag)
  }

  function EventOf(lib: Library, call: Call): Verdict {
    FromBody(Events.Stripe, call.payload, lib.parseJson)
  }

  /** The checks in code order. A check that needs the parsed header speaks of
      an empty one when there is none; it is then not the first to fail. */
  function Checks(lib: Library, call: Call): (gates: seq<Gate<VerifyError>>)
    ensures |gates| == 6
  {
    var parsed := Parsed(call.header);
    var (t, candidates) := if parsed.Ok? then parsed.value else (0, []);
    var event := EventOf(lib, call);
    [ Gate(call.secret != "", InvalidInput(EmptySecret)),
      Gate(parsed.Ok?, if parsed.Err? then parsed.error else MalformedSignature),
      Gate(!OutOfTolerance(call.now, t, call.tolerance),
           TimestampOutOfTolerance(ReportedSkew(call.now, t), call.tolerance)),
      Gate(lib.acceptsKey(call.secret), InvalidInput(UnusableKey)),
      Gate(AnyMatches(candidates, Tag(lib, call, t)), SignatureMismatch),
      Gate(event.Ok?, if event.Err? then event.error else MalformedEvent(NotJson)) ]
  }

  function VerdictOf(lib: Library, call: Call): Verdict {
    match FirstFailure(Checks(lib, call))
    case Some(e) => Err(e)
    case None => EventOf(lib, call)
  }

  lemma FirstFailureOfSix(g: seq<Gate<VerifyError>>)
    requires |g| == 6
    ensures FirstFailure(g) ==
            if !g[0].holds then Some(g[0].error)
            else if !g[1].holds then Some(g[1].error)
            else if !g[2].holds then Some(g[2].error)
            else if !g[3].holds then Some(g[3].error)
            else if !g[4].holds then Some(g[4].error)
            else if !g[5].holds then Some(g[5].error)
            else None
  {
    NoFailure(g);
    if FirstFailure(g).Some? {
      var k := SomeFailureIsFirst(g);
      FirstFailureAt(g, k);
    }
  }

  method Verify(lib: Library, payload: Bytes, sigHeader: string, secret: string, nowUnix: I64, toleranceSecs: U64)
    returns (r: Verdict)
    ensures r == VerdictOf(lib, Call(payload, sigHeader, secret, nowUnix, toleranceSecs))
  {
    ghost var call := Call(payload, sigHeader, secret, nowUnix, toleranceSecs);
    FirstFailureOfSix(Checks(lib, call));
    hide FirstFailure, Parsed, OutOfTolerance, ReportedSkew, TimestampBytes, FromBody;
    if secret == "" {
      return Err(InvalidInput(EmptySecret));
    }
    var parsed := ParseSignatureHeader(sigHeader);
    if parsed.Err? {
      return Err(parsed.error);
    }
    var (timestamp, v1Signatures) := parsed.value;
    if OutOfTolerance(nowUnix, timestamp, toleranceSecs) {
      return Err(TimestampOutOfTolerance(ReportedSkew(nowUnix, timestamp), toleranceSecs));
    }
    if !lib.acceptsKey(secret) {
      return Err(InvalidInput(UnusableKey));
    }
    var mac := new HmacSha256(lib.hmac, secret);
    mac.Update(TimestampBytes(timestamp));
    mac.Update([DOT]);
    mac.Update(payload);
    var expected := mac.Finalize();
    assert [] + TimestampBytes(timestamp) == TimestampBytes(timestamp);
    if !AnyMatches(v1Signatures, expected) {
      return Err(SignatureMismatch);
    }
    return FromBody(Events.Stripe, payload, lib.parseJson);
  }

  // ---------------------------------------------------------------------
  // What acceptance means.
  // ---------------------------------------------------------------------

  /** Some signature of the header is, ignoring case, the hex text of the MAC of
      this timestamp and this payload under this secret. */
  ghost predicate CarriesSignature(lib: Library, call: Call, t: I64, signatures: seq<string>) {
    exists v :: v in signatures && Lower(v) == Hex.Encode(Tag(lib, call, t))
  }

  ghost predicate Authentic(lib: Library, call: Call, t: I64, signatures: seq<string>) {
    && WellFormed(Split(call.header, ','), t, signatures)
    && Distance(call.now as int, t as int) <= call.tolerance as int
    && CarriesSignature(lib, call, t, signatures)
  }

  lemma AnyMatchesExactly(lib: Library, call: Call, t: I64, candidates: seq<string>)
    ensures AnyMatches(candidates, Tag(lib, call, t)) <==> CarriesSignature(lib, call, t, candidates)
  {
    forall v | v in candidates
      ensures Hex.Matches(v, Tag(lib, call, t)) <==> Lower(v) == Hex.Encode(Tag(lib, call, t))
    {
      Hex.MatchesExactly(v, Tag(lib, call, t));
    }
    hide Tag, Lower;
    if CarriesSignature(lib, call, t, candidates) {
      var v :| v in candidates && Lower(v) == Hex.Encode(Tag(lib, call, t));
      var i :| 0 <= i < |candidates| && candidates[i] == v;
      assert Hex.Matches(candidates[i], Tag(lib, call, t));
    }
  }

  /** Accepted exactly when every gate holds; the event is then the payload's
      own identity with the exact payload bytes. */
  lemma AcceptedExactly(lib: Library, call: Call, e: VerifiedEvent)
    ensures VerdictOf(lib, call) == Ok(e) <==>
            && call.secret != ""
            && lib.acceptsKey(call.secret)
            && (exists t, signatures :: Authentic(lib, call, t, signatures))
            && e.provider == Events.Stripe
            && e.payload == call.payload
            && lib.parseJson(call.payload).Some?
            && Identifies(lib.parseJson(call.payload).value, e.id, e.eventType)
  {
    FirstFailureOfSix(Checks(lib, call));
    FromBodyExact(Events.Stripe, call.payload, lib.parseJson, e);
    hide FirstFailure, FromBody, Identifies;
    AuthenticExactly(lib, call);
  }

  /** The middle gates, all three, in terms of the header's meaning. */
  lemma AuthenticExactly(lib: Library, call: Call)
    ensures (exists t, signatures :: Authentic(lib, call, t, signatures)) <==>
            var parsed := Parsed(call.header);
            && parsed.Ok?
            && !OutOfTolerance(call.now, parsed.value.0, call.tolerance)
            && AnyMatches(parsed.value.1, Tag(lib, call, parsed.value.0))
  {
    hide Parsed, WellFormed, OutOfTolerance, AnyMatches, CarriesSignature, Tag;
    forall t, signatures | Authentic(lib, call, t, signatures)
      ensures Parsed(call.header) == Ok((t, signatures))
      ensures !OutOfTolerance(call.now, t, call.tolerance)
      ensures AnyMatches(signatures, Tag(lib, call, t))
    {
      ParsedExact(call.header, t, signatures);
      ReplayWindowExact(call.now, t, call.tolerance);
      AnyMatchesExactly(lib, call, t, signatures);
    }
    var parsed := Parsed(call.header);
    if parsed.Ok? {
      var (t, signatures) := parsed.value;
      ParsedExact(call.header, t, signatures);
      ReplayWindowExact(call.now, t, call.tolerance);
      AnyMatchesExactly(lib, call, t, signatures);
      if !OutOfTolerance(call.now, t, call.tolerance) && AnyMatches(signatures, Tag(lib, call, t)) {
        assert Authentic(lib, call, t, signatures);
      }
    }
  }

  // ---------------------------------------------------------------------
  // What each rejection means. With acceptance these cover every verdict.
  // ---------------------------------------------------------------------

  /** The verdict by the header's parse, check by check. */
  lemma VerdictUnfolded(lib: Library, call: Call)
    ensures VerdictOf(lib, call) ==
            var parsed := Parsed(call.header);
            if call.secret == "" then Err(InvalidInput(EmptySecret))
            else if parsed.Err? then Err(parsed.error)
            else
              var (t, signatures) := parsed.value;
              if OutOfTolerance(call.now, t, call.tolerance) then
                Err(TimestampOutOfTolerance(ReportedSkew(call.now, t), call.tolerance))
              else if !lib.acceptsKey(call.secret) then Err(InvalidInput(UnusableKey))
              else if !AnyMatches(signatures, Tag(lib, call, t)) then Err(SignatureMismatch)
              else EventOf(lib, call)
  {
    FirstFailureOfSix(Checks(lib, call));
    hide FirstFailure, Parsed, OutOfTolerance, ReportedSkew, AnyMatches, Tag, FromBody;
  }

  ghost predicate Carries(header: string, t: I64, signatures: seq<string>) {
    WellFormed(Split(header, ','), t, signatures)
  }

  /** The header carries a time and signatures exactly when it parses to them. */
  lemma CarriesExactly(header: string)
    ensures forall t, signatures :: Carries(header, t, signatures) <==> Parsed(header) == Ok((t, signatures))
  {
    forall t, signatures
      ensures Carries(header, t, signatures) <==> Parsed(header) == Ok((t, signatures))
    {
      ParsedExact(header, t, signatures);
    }
  }

  lemma RejectedForInput(lib: Library, call: Call)
    ensures VerdictOf(lib, call) == Err(InvalidInput(EmptySecret)) <==> call.secret == ""
    ensures VerdictOf(lib, call) == Err(MissingSignature) <==> call.secret != "" && IsBlank(call.header)
    ensures VerdictOf(lib, call) == Err(MalformedSignature) <==>
            && call.secret != ""
            && !IsBlank(call.header)
            && !exists t, signatures :: Carries(call.header, t, signatures)
  {
    VerdictUnfolded(lib, call);
    CarriesExactly(call.header);
    ErrorsOf(call.header);
    EventErrors(lib, call);
    hide VerdictOf, Parsed, Carries, IsBlank, OutOfTolerance, ReportedSkew, AnyMatches, Tag, EventOf;
    if Parsed(call.header).Ok? {
      var (t, signatures) := Parsed(call.header).value;
      assert Carries(call.header, t, signatures);
    }
  }

  /** The event gate's only error. */
  lemma EventErrors(lib: Library, call: Call)
    ensures EventOf(lib, call).Err? ==> EventOf(lib, call).error.MalformedEvent?
  {
  }

  function Clamp(x: int): I64 {
    (if x < I64_MIN then I64_MIN else if x > I64_MAX then I64_MAX else x) as I64
  }

  /** Turned away as stale exactly when the header's time is further from now
      than the tolerance, in either direction; the error carries now minus that
      time, clamped, and the tolerance of the call. */
  lemma RejectedAsStale(lib: Library, call: Call, skew: I64, tolerance: U64)
    ensures VerdictOf(lib, call) == Err(TimestampOutOfTolerance(skew, tolerance)) <==>
            && call.secret != ""
            && tolerance == call.tolerance
            && exists t, signatures ::
                 && Carries(call.header, t, signatures)
                 && Distance(call.now as int, t as int) > call.tolerance as int
                 && skew == Clamp(call.now as int - t as int)
  {
    VerdictUnfolded(lib, call);
    CarriesExactly(call.header);
    ErrorsOf(call.header);
    EventErrors(lib, call);
    hide VerdictOf, Parsed, Carries, IsBlank, OutOfTolerance, ReportedSkew, AnyMatches, Tag, EventOf;
    if Parsed(call.header).Ok? {
      var (t, signatures) := Parsed(call.header).value;
      ReplayWindowExact(call.now, t, call.tolerance);
      assert Carries(call.header, t, signatures);
    }
  }

  /** The key is looked at once the time is known to be near. */
  lemma RejectedForKey(lib: Library, call: Call)
    ensures VerdictOf(lib, call) == Err(InvalidInput(UnusableKey)) <==>
            && call.secret != ""
            && !lib.acceptsKey(call.secret)
            && exists t, signatures ::
                 && Carries(call.header, t, signatures)
                 && Distance(call.now as int, t as int) <= call.tolerance as int
  {
    VerdictUnfolded(lib, call);
    CarriesExactly(call.header);
    ErrorsOf(call.header);
    EventErrors(lib, call);
    hide VerdictOf, Parsed, Carries, IsBlank, OutOfTolerance, ReportedSkew, AnyMatches, Tag, EventOf;
    if Parsed(call.header).Ok? {
      var (t, signatures) := Parsed(call.header).value;
      ReplayWindowExact(call.now, t, call.tolerance);
      assert Carries(call.header, t, signatures);
    }
  }

  lemma RejectedAsMismatch(lib: Library, call: Call)
    ensures VerdictOf(lib, call) == Err(SignatureMismatch) <==>
            && call.secret != ""
            && lib.acceptsKey(call.secret)
            && exists t, signatures ::
                 && Carries(call.header, t, signatures)
                 && Distance(call.now as int, t as int) <= call.tolerance as int
                 && !CarriesSignature(lib, call, t, signatures)
  {
    VerdictUnfolded(lib, call);
    CarriesExactly(call.header);
    ErrorsOf(call.header);
    EventErrors(lib, call);
    hide VerdictOf, Parsed, Carries, IsBlank, OutOfTolerance, ReportedSkew, AnyMatches, CarriesSignature, Tag,
      EventOf;
    if Parsed(call.header).Ok? {
      var (t, signatures) := Parsed(call.header).value;
      ReplayWindowExact(call.now, t, call.tolerance);
      AnyMatchesExactly(lib, call, t, signatures);
      assert Carries(call.header, t, signatures);
    }
  }

  /** The body is read only once it is known to be authentic. */
  lemma RejectedForEvent(lib: Library, call: Call, problem: EventProblem)
    ensures VerdictOf(lib, call) == Err(MalformedEvent(problem)) <==>
            && call.secret != ""
            && lib.acceptsKey(call.secret)
            && (exists t, signatures :: Authentic(lib, call, t, signatures))
            && HasProblem(lib.parseJson(call.payload), problem)
  {
    VerdictUnfolded(lib, call);
    ErrorsOf(call.header);
    AuthenticExactly(lib, call);
    FromBodyRejects(Events.Stripe, call.payload, lib.parseJson, MalformedEvent(problem));
    hide VerdictOf, Parsed, Authentic, IsBlank, OutOfTolerance, ReportedSkew, AnyMatches, Tag, FromBody, HasProblem;
  }

  /** Of several failing checks the first in code order gives the error. */
  lemma RejectedExactly(lib: Library, call: Call, e: VerifyError)
    ensures VerdictOf(lib, call) == Err(e) <==>
            exists k: nat :: FailsFirstAt(Checks(lib, call), k) && Checks(lib, call)[k].error == e
  {
    var checks := Checks(lib, call);
    assert checks[5].holds ==> EventOf(lib, call).Ok?;
    hide Checks, FailsFirstAt, FirstFailure;
    FirstFailureExact(checks, e);
  }

  // ---------------------------------------------------------------------
  // What a call may change without changing its verdict.
  // ---------------------------------------------------------------------

  /** The verdict, rejections included, depends on a parsed header only through
      its timestamp and the set of its signatures. */
  lemma SignatureSetDecides(lib: Library, call: Call, header': string)
    requires Parsed(call.header).Ok? && Parsed(header').Ok?
    requires Parsed(header').value.0 == Parsed(call.header).value.0
    requires forall v :: v in Parsed(call.header).value.1 <==> v in Parsed(header').value.1
    ensures VerdictOf(lib, call.(header := header')) == VerdictOf(lib, call)
  {
    hide Parsed, OutOfTolerance, ReportedSkew, AnyMatches, Tag, FromBody, FirstFailure;
    var call' := call.(header := header');
    var t := Parsed(call.header).value.0;
    SameTag(lib, call, header', t);
    MatchesSubset(Parsed(call.header).value.1, Parsed(header').value.1, Tag(lib, call, t));
    MatchesSubset(Parsed(header').value.1, Parsed(call.header).value.1, Tag(lib, call, t));
    assert Checks(lib, call') == Checks(lib, call);
  }

  lemma SameTag(lib: Library, call: Call, header': string, t: I64)
    ensures Tag(lib, call.(header := header'), t) == Tag(lib, call, t)
  {
  }

  lemma MatchesSubset(candidates: seq<string>, more: seq<string>, tag: Bytes)
    requires forall v :: v in candidates ==> v in more
    ensures AnyMatches(candidates, tag) ==> AnyMatches(more, tag)
  {
    hide Hex.Matches;
    if i :| 0 <= i < |candidates| && Hex.Matches(candidates[i], tag) {
      assert candidates[i] in more;
      var j :| 0 <= j < |more| && more[j] == candidates[i];
    }
  }

  /** An accepted verdict survives any further signatures. */
  lemma MoreSignaturesKeepAcceptance(lib: Library, call: Call, header': string)
    requires Parsed(call.header).Ok? && Parsed(header').Ok?
    requires Parsed(header').value.0 == Parsed(call.header).value.0
    requires forall v :: v in Parsed(call.header).value.1 ==> v in Parsed(header').value.1
    requires VerdictOf(lib, call).Ok?
    ensures VerdictOf(lib, call.(header := header')) == VerdictOf(lib, call)
  {
    hide Parsed, OutOfTolerance, ReportedSkew, AnyMatches, Tag, FromBody, FirstFailure;
    var call' := call.(header := header');
    var t := Parsed(call.header).value.0;
    FirstFailureOfSix(Checks(lib, call));
    FirstFailureOfSix(Checks(lib, call'));
    SameTag(lib, call, header', t);
    MatchesSubset(Parsed(call.header).value.1, Parsed(header').value.1, Tag(lib, call, t));
  }

  /** A header that does not parse is judged by its error alone. */
  lemma UnparsedDecides(lib: Library, call: Call, header': string)
    requires Parsed(call.header).Err? && Parsed(header') == Parsed(call.header)
    ensures VerdictOf(lib, call.(header := header')) == VerdictOf(lib, call)
  {
    hide Parsed, OutOfTolerance, ReportedSkew, AnyMatches, Tag, FromBody, FirstFailure;
    FirstFailureOfSix(Checks(lib, call));
    FirstFailureOfSix(Checks(lib, call.(header := header')));
  }

  /** Any reordering of the comma-separated parts gets the same verdict: the same
      event, or the same error. */
  lemma PermutationKeepsVerdict(lib: Library, call: Call, header': string)
    requires multiset(Split(call.header, ',')) == multiset(Split(header', ','))
    ensures VerdictOf(lib, call.(header := header')) == VerdictOf(lib, call)
  {
    hide VerdictOf, Parsed, Split;
    if Parsed(call.header).Err? {
      PermutedPartsFail(call.header, header');
      UnparsedDecides(lib, call, header');
    } else {
      var (t, v1) := Parsed(call.header).value;
      PermutedPartsParse(call.header, header', t, v1);
      forall v
        ensures v in v1 <==> v in Parsed(header').value.1
      {
        assert v in v1 <==> v in multiset(v1);
        assert v in Parsed(header').value.1 <==> v in multiset(Parsed(header').value.1);
      }
      SignatureSetDecides(lib, call, header');
    }
  }

  lemma AcceptedHeaderParses(lib: Library, call: Call)
    requires VerdictOf(lib, call).Ok?
    ensures Parsed(call.header).Ok?
  {
    FirstFailureOfSix(Checks(lib, call));
  }

  /** Adding a part with an unknown scheme, or another signature during a secret
      rotation, keeps an accepted call accepted with the same event. */
  lemma AppendingKeepsVerdict(lib: Library, call: Call, part: string)
    requires ',' !in part && HasEquals(part) && Key(part) != "t"
    requires VerdictOf(lib, call).Ok?
    ensures VerdictOf(lib, call.(header := call.header + [','] + part)) == VerdictOf(lib, call)
  {
    AcceptedHeaderParses(lib, call);
    hide VerdictOf, Parsed;
    var (t, v1) := Parsed(call.header).value;
    AppendedPartParses(call.header, part, t, v1);
    MoreSignaturesKeepAcceptance(lib, call, call.header + [','] + part);
  }

  /** A wider tolerance keeps an accepted call accepted with the same event. */
  lemma WiderToleranceKeepsVerdict(lib: Library, call: Call, wider: U64)
    requires call.tolerance <= wider && VerdictOf(lib, call).Ok?
    ensures VerdictOf(lib, call.(tolerance := wider)) == VerdictOf(lib, call)
  {
    AcceptedHeaderParses(lib, call);
    hide Parsed, OutOfTolerance, ReportedSkew, AnyMatches, FromBody, FirstFailure;
    var t := Parsed(call.header).value.0;
    FirstFailureOfSix(Checks(lib, call));
    FirstFailureOfSix(Checks(lib, call.(tolerance := wider)));
    if OutOfTolerance(call.now, t, wider) {
      ToleranceIsMonotone(call.now, t, call.tolerance, wider);
    }
  }

  /** Every spelling of the same timestamp gets the same verdict, accepted or
      not: the MAC is over the canonical decimal, not over the header's text. */
  lemma SpellingKeepsVerdict(lib: Library, call: Call, parts: seq<string>, i: nat, part': string)
    requires i < |parts| && AllHaveEquals(parts)
    requires forall k :: 0 <= k < |parts| ==> ',' !in parts[k]
    requires ',' !in part' && HasKey(parts[i], "t") && HasKey(part', "t")
    requires IsNumeral(FieldValue(parts[i])) && IsNumeral(FieldValue(part'))
    requires NumeralValue(FieldValue(parts[i])) == NumeralValue(FieldValue(part'))
    ensures VerdictOf(lib, call.(header := Join(parts[i := part'], ','))) ==
            VerdictOf(lib, call.(header := Join(parts, ',')))
  {
    SpellingIrrelevant(parts, i, part');
    hide Parsed;
    var call1 := call.(header := Join(parts[i := part'], ','));
    var call2 := call.(header := Join(parts, ','));
    assert forall t :: Tag(lib, call1, t) == Tag(lib, call2, t);
    assert Checks(lib, call1) == Checks(lib, call2);
  }

  // ---------------------------------------------------------------------
  // What a signature binds.
  // ---------------------------------------------------------------------

  /** One signature text that two accepted calls under one secret both match
      binds one timestamp and one payload, unless the two signed payloads are a
      collision of the MAC. */
  lemma SignatureBindsMessage(lib: Library, call1: Call, call2: Call, t1: I64, t2: I64, v: string)
    requires call1.secret == call2.secret
    requires Hex.Matches(v, Tag(lib, call1, t1)) && Hex.Matches(v, Tag(lib, call2, t2))
    ensures var m1, m2 := SignedPayload(t1, call1.payload), SignedPayload(t2, call2.payload);
            || (t1 == t2 && call1.payload == call2.payload)
            || (m1 != m2 && lib.hmac(call1.secret, m1) == lib.hmac(call1.secret, m2))
  {
    hide Hex.Matches;
    Hex.MatchDeterminesTag(v, Tag(lib, call1, t1), Tag(lib, call2, t2));
    PayloadInjective(t1, call1.payload, t2, call2.payload);
  }

  /** Two payloads whose signed payloads differ but share their MAC. */
  predicate Collide(lib: Library, secret: string, t: I64, payload1: Bytes, payload2: Bytes) {
    var m1, m2 := SignedPayload(t, payload1), SignedPayload(t, payload2);
    m1 != m2 && lib.hmac(secret, m1) == lib.hmac(secret, m2)
  }

  lemma AcceptedSignatureMatches(lib: Library, call: Call, t: I64, signatures: seq<string>) returns (k: nat)
    requires Parsed(call.header) == Ok((t, signatures))
    requires VerdictOf(lib, call).Ok?
    ensures k < |signatures| && Hex.Matches(signatures[k], Tag(lib, call, t))
  {
    FirstFailureOfSix(Checks(lib, call));
    hide FirstFailure, Parsed, SignedPayload, Hex.Matches, OutOfTolerance, FromBody;
    k :| k < |signatures| && Hex.Matches(signatures[k], Tag(lib, call, t));
  }

  /** A header with n signatures is accepted under one secret for at most n
      payloads, at any times and tolerances: among any n + 1 accepted calls two
      have one payload, or are a collision of the MAC. */
  lemma AcceptedHeaderBindsPayloads(lib: Library, header: string, secret: string, calls: seq<Call>,
                                    t: I64, signatures: seq<string>)
    requires Parsed(header) == Ok((t, signatures)) && |calls| > |signatures|
    requires forall i :: 0 <= i < |calls| ==>
               calls[i].header == header && calls[i].secret == secret && VerdictOf(lib, calls[i]).Ok?
    ensures exists i, j :: 0 <= i < j < |calls| &&
              (calls[i].payload == calls[j].payload || Collide(lib, secret, t, calls[i].payload, calls[j].payload))
  {
    hide Parsed, VerdictOf, SignedPayload, Hex.Matches;
    var used: seq<int> := [];
    for n := 0 to |calls|
      invariant |used| == n
      invariant forall i :: 0 <= i < n ==>
                  0 <= used[i] < |signatures| && Hex.Matches(signatures[used[i]], Tag(lib, calls[i], t))
    {
      var k := AcceptedSignatureMatches(lib, calls[n], t, signatures);
      used := used + [k];
    }
    Counting.Pigeonhole(used, |signatures|);
    var i, j :| 0 <= i < j < |used| && used[i] == used[j];
    SignatureBindsMessage(lib, calls[i], calls[j], t, t, signatures[used[i]]);
    assert calls[i].payload == calls[j].payload || Collide(lib, secret, t, calls[i].payload, calls[j].payload);
  }
}
