/** PayPal webhook verification: the CRC-bound signed message, the certificate
    host gate, and the verdict. URL, certificate and RSA code are parameters
    about which nothing is assumed. */
module Paypal {
  import opened Machine
  import opened Outcomes
  import opened Text
  import opened Decimal
  import opened Events
  import opened Gates
  import Crc32
  import Words
  import Base64

  // ---------------------------------------------------------------------
  // The signed message.
  // ---------------------------------------------------------------------

  function ChecksumText(body: Bytes): string {
    ShowNat(Words.Number(Crc32.Checksum(body)))
  }

  /** "{transmission_id}|{transmission_time}|{webhook_id}|{crc}" */
  function SignedMessage(id: string, time: string, webhookId: string, body: Bytes): string {
    id + "|" + time + "|" + webhookId + "|" + ChecksumText(body)
  }

  datatype Fields = Fields(id: string, time: string, webhookId: string, checksum: string)

  /** Reading a message back from the right: the last three pipes separate. */
  function DecodeMessage(message: string): (r: Option<Fields>)
    ensures r.Some? ==>
              && message == r.value.id + "|" + r.value.time + "|" + r.value.webhookId + "|" + r.value.checksum
              && '|' !in r.value.time && '|' !in r.value.webhookId && '|' !in r.value.checksum
  {
    var (front, checksum) :- SplitLast(message, '|');
    var (front', webhookId) :- SplitLast(front, '|');
    var (id, time) :- SplitLast(front', '|');
    Some(Fields(id, time, webhookId, checksum))
  }

  lemma DigitsHaveNoPipe(s: string)
    requires AllDigits(s)
    ensures '|' !in s
  {
  }

  /** The message can be read back, for any transmission id whatever, exactly
      when neither the time nor the webhook id contains a pipe. */
  lemma MessageDecodes(id: string, time: string, webhookId: string, body: Bytes)
    ensures DecodeMessage(SignedMessage(id, time, webhookId, body)) ==
            Some(Fields(id, time, webhookId, ChecksumText(body)))
            <==> '|' !in time && '|' !in webhookId
  {
    var checksum := ChecksumText(body);
    DigitsHaveNoPipe(checksum);
    hide ChecksumText;
    if '|' !in time && '|' !in webhookId {
      SplitLastOf(id + "|" + time + "|" + webhookId, checksum, '|');
      SplitLastOf(id + "|" + time, webhookId, '|');
      SplitLastOf(id, time, '|');
    }
  }

  /** The last field is the plain decimal, without sign or leading zeros, of the
      sum of the powers of two at the checksum's one bits. */
  lemma ChecksumTextValue(body: Bytes)
    ensures AllDigits(ChecksumText(body))
    ensures ChecksumText(body)[0] == '0' ==> ChecksumText(body) == "0"
    ensures DigitsValue(ChecksumText(body)) == Crc32.Value(Crc32.RegisterBits(Crc32.Checksum(body), 32))
  {
    hide Crc32.Checksum, Words.Number, Crc32.RegisterBits;
    var crc := Crc32.Checksum(body);
    ShowNatValue(Words.Number(crc));
    NoLeadingZero(Words.Number(crc));
    Words.HalvedThroughout(crc);
    Crc32.NumberOfBits(crc, 32);
  }

  /** The published check value at the end of a message. */
  lemma MessageLiteral()
    ensures SignedMessage("id", "time", "wh", Crc32.CHECK_MESSAGE) == "id|time|wh|3421780262"
  {
    hide ShowNat, Crc32.Checksum, Words.Number;
    Crc32.CheckValue();
    CheckNumber();
    ShowNatStep(0, 3);
    ShowNatStep(3, 4);
    ShowNatStep(34, 2);
    ShowNatStep(342, 1);
    ShowNatStep(3421, 7);
    ShowNatStep(34217, 8);
    ShowNatStep(342178, 0);
    ShowNatStep(3421780, 2);
    ShowNatStep(34217802, 6);
    ShowNatStep(342178026, 2);
  }

  lemma CheckNumber()
    ensures Words.Number(Words.Register(0xCBF4_3926)) == 3421780262
  {
  }

  lemma ChecksumTextExact(body: Bytes, body': Bytes)
    ensures ChecksumText(body) == ChecksumText(body') <==> Crc32.Checksum(body) == Crc32.Checksum(body')
  {
    hide Crc32.Checksum, Words.Number;
    ShowNatInjective(Words.Number(Crc32.Checksum(body)), Words.Number(Crc32.Checksum(body')));
    Words.NumberInjective(Crc32.Checksum(body), Crc32.Checksum(body'));
  }

  /** Without pipes in time and webhook id, the message determines all four
      components: the three texts and the checksum. */
  lemma MessageInjective(id: string, time: string, webhookId: string, body: Bytes,
                         id': string, time': string, webhookId': string, body': Bytes)
    requires '|' !in time && '|' !in webhookId && '|' !in time' && '|' !in webhookId'
    ensures SignedMessage(id, time, webhookId, body) == SignedMessage(id', time', webhookId', body') <==>
            id == id' && time == time' && webhookId == webhookId' && Crc32.Checksum(body) == Crc32.Checksum(body')
  {
    MessageDecodes(id, time, webhookId, body);
    MessageDecodes(id', time', webhookId', body');
    ChecksumTextExact(body, body');
    hide ChecksumText, DecodeMessage, Crc32.Checksum;
    if SignedMessage(id, time, webhookId, body) == SignedMessage(id', time', webhookId', body') {
      assert Fields(id, time, webhookId, ChecksumText(body)) == Fields(id', time', webhookId', ChecksumText(body'));
    }
  }

  lemma CommonEnds(front: string, x: string, y: string, back: string)
    ensures front + x + back == front + y + back <==> x == y
  {
    if front + x + back == front + y + back {
      assert |x| == |y|;
      assert x == (front + x + back)[|front|..|front| + |x|];
      assert y == (front + y + back)[|front|..|front| + |y|];
    }
  }

  /** Changing one text alone always changes the message, pipes or not; changing
      the body alone changes it exactly when the checksum changes. */
  lemma SingleChangeVisible(id: string, time: string, webhookId: string, body: Bytes,
                            text': string, body': Bytes)
    ensures SignedMessage(id, time, webhookId, body) == SignedMessage(text', time, webhookId, body) <==> id == text'
    ensures SignedMessage(id, time, webhookId, body) == SignedMessage(id, text', webhookId, body) <==> time == text'
    ensures SignedMessage(id, time, webhookId, body) == SignedMessage(id, time, text', body) <==> webhookId == text'
    ensures SignedMessage(id, time, webhookId, body) == SignedMessage(id, time, webhookId, body') <==>
            Crc32.Checksum(body) == Crc32.Checksum(body')
  {
    var crc, crc' := ChecksumText(body), ChecksumText(body');
    ChecksumTextExact(body, body');
    hide ChecksumText, Crc32.Checksum;
    MessageAround(id, time, webhookId, crc);
    MessageAround(text', time, webhookId, crc);
    MessageAround(id, text', webhookId, crc);
    MessageAround(id, time, text', crc);
    MessageAround(id, time, webhookId, crc');
    CommonEnds("", id, text', "|" + time + "|" + webhookId + "|" + crc);
    CommonEnds(id + "|", time, text', "|" + webhookId + "|" + crc);
    CommonEnds(id + "|" + time + "|", webhookId, text', "|" + crc);
    CommonEnds(id + "|" + time + "|" + webhookId + "|", crc, crc', "");
  }

  lemma MessageAround(id: string, time: string, webhookId: string, crc: string)
    ensures var m := id + "|" + time + "|" + webhookId + "|" + crc;
            && m == "" + id + ("|" + time + "|" + webhookId + "|" + crc)
            && m == (id + "|") + time + ("|" + webhookId + "|" + crc)
            && m == (id + "|" + time + "|") + webhookId + ("|" + crc)
            && m == (id + "|" + time + "|" + webhookId + "|") + crc + ""
  {
  }

  ghost predicate Unambiguous(id: string, time: string, webhookId: string, body: Bytes) {
    forall id', time', webhookId' ::
      SignedMessage(id', time', webhookId', body) == SignedMessage(id, time, webhookId, body) ==>
      id' == id && time' == time && webhookId' == webhookId
  }

  function Pipes(s: string): nat {
    if s == "" then 0 else (if s[0] == '|' then 1 else 0) + Pipes(s[1..])
  }

  lemma {:induction false} PipesConcat(x: string, y: string)
    ensures Pipes(x + y) == Pipes(x) + Pipes(y)
  {
    if x == "" {
      assert x + y == y;
    } else {
      assert (x + y)[1..] == x[1..] + y;
      PipesConcat(x[1..], y);
    }
  }

  lemma {:induction false} NoPipes(s: string)
    ensures Pipes(s) == 0 <==> '|' !in s
  {
    if s != "" {
      NoPipes(s[1..]);
      assert s == [s[0]] + s[1..];
    }
  }

  lemma PipesOfMessage(id: string, time: string, webhookId: string, body: Bytes)
    ensures Pipes(SignedMessage(id, time, webhookId, body)) ==
            Pipes(id) + Pipes(time) + Pipes(webhookId) + Pipes(ChecksumText(body)) + 3
  {
    hide ChecksumText;
    var crc := ChecksumText(body);
    assert Pipes("|") == 1;
    hide Pipes;
    PipesConcat(id + "|" + time + "|" + webhookId + "|", crc);
    PipesConcat(id + "|" + time + "|" + webhookId, "|");
    PipesConcat(id + "|" + time + "|", webhookId);
    PipesConcat(id + "|" + time, "|");
    PipesConcat(id + "|", time);
    PipesConcat(id, "|");
  }

  /** No other three texts give the same message with the same body exactly when
      none of the three contains a pipe. */
  lemma UnambiguousExactly(id: string, time: string, webhookId: string, body: Bytes)
    ensures Unambiguous(id, time, webhookId, body) <==> '|' !in id && '|' !in time && '|' !in webhookId
  {
    if '|' !in id && '|' !in time && '|' !in webhookId {
      forall id', time', webhookId' |
        SignedMessage(id', time', webhookId', body) == SignedMessage(id, time, webhookId, body)
        ensures id' == id && time' == time && webhookId' == webhookId
      {
        SamePipes(id, time, webhookId, id', time', webhookId', body);
        MessageInjective(id, time, webhookId, body, id', time', webhookId', body);
      }
    } else {
      var id', time', webhookId' := OtherReading(id, time, webhookId, body);
    }
  }

  lemma SamePipes(id: string, time: string, webhookId: string,
                  id': string, time': string, webhookId': string, body: Bytes)
    requires '|' !in id && '|' !in time && '|' !in webhookId
    requires SignedMessage(id', time', webhookId', body) == SignedMessage(id, time, webhookId, body)
    ensures '|' !in time' && '|' !in webhookId'
  {
    PipesOfMessage(id, time, webhookId, body);
    PipesOfMessage(id', time', webhookId', body);
    NoPipes(id);
    NoPipes(time);
    NoPipes(webhookId);
    NoPipes(time');
    NoPipes(webhookId');
  }

  /** A pipe inside a field moves the boundary to the next one. */
  lemma OtherReading(id: string, time: string, webhookId: string, body: Bytes)
    returns (id': string, time': string, webhookId': string)
    requires '|' in id || '|' in time || '|' in webhookId
    ensures SignedMessage(id', time', webhookId', body) == SignedMessage(id, time, webhookId, body)
    ensures id' != id || time' != time || webhookId' != webhookId
  {
    hide ChecksumText;
    var crc := ChecksumText(body);
    if '|' in time {
      var (a, b) := SplitLast(time, '|').value;
      id', time', webhookId' := id + "|" + a, b, webhookId;
    } else if '|' in webhookId {
      var (a, b) := SplitLast(webhookId, '|').value;
      id', time', webhookId' := id + "|" + time, a, b;
    } else {
      var (a, b) := SplitLast(id, '|').value;
      id', time', webhookId' := a, b, time + "|" + webhookId;
    }
    assert id' + "|" + time' + "|" + webhookId' == id + "|" + time + "|" + webhookId;
  }

  /** A body changed within 32 consecutive bits always changes the message. */
  lemma BurstChangesMessage(id: string, time: string, webhookId: string, body: Bytes, body': Bytes, start: nat)
    requires body != body'
    requires Crc32.EqualOutside(Crc32.BodyBits(body), Crc32.BodyBits(body'), start, 32)
    ensures SignedMessage(id, time, webhookId, body) != SignedMessage(id, time, webhookId, body')
  {
    hide SignedMessage, Crc32.BodyBits, Crc32.Checksum;
    Crc32.BurstDetected(body, body', start);
    SingleChangeVisible(id, time, webhookId, body, "", body');
  }

  ghost predicate DeterminesBody(id: string, time: string, webhookId: string, body: Bytes) {
    forall b: Bytes ::
      |b| == |body| && SignedMessage(id, time, webhookId, b) == SignedMessage(id, time, webhookId, body) ==> b == body
  }

  /** Among bodies of its length, a body is determined by its message exactly
      when it has at most four bytes. */
  lemma BodyDeterminedExactly(id: string, time: string, webhookId: string, body: Bytes)
    ensures DeterminesBody(id, time, webhookId, body) <==> |body| <= 4
  {
    hide SignedMessage, Crc32.Checksum;
    forall b: Bytes
      ensures SignedMessage(id, time, webhookId, b) == SignedMessage(id, time, webhookId, body) <==>
              Crc32.Checksum(b) == Crc32.Checksum(body)
    {
      SingleChangeVisible(id, time, webhookId, b, "", body);
    }
    Crc32.DeterminedExactly(body);
    assert DeterminesBody(id, time, webhookId, body) <==> Crc32.DeterminesAtLength(body);
  }

  /** Any beginning ends in the given body's message for exactly one choice of
      its last four bytes. */
  lemma EveryBeginningCompletes(id: string, time: string, webhookId: string, body: Bytes, prefix: Bytes, last: Bytes)
    ensures |last| == 4 &&
            SignedMessage(id, time, webhookId, prefix + last) == SignedMessage(id, time, webhookId, body)
            <==> last == Crc32.Completion(prefix, Crc32.Checksum(body))
  {
    hide SignedMessage, Crc32.Checksum, Crc32.Completion;
    SingleChangeVisible(id, time, webhookId, prefix + last, "", body);
    Crc32.CompletionExact(prefix, last, Crc32.Checksum(body));
  }

  /** So no message determines its body: every body, the empty one included,
      shares its message with another body of each length from five bytes on. */
  lemma BodyNotDetermined(id: string, time: string, webhookId: string, body: Bytes, length: nat)
    requires length >= 5
    ensures exists body' ::
              && |body'| == length && body' != body
              && SignedMessage(id, time, webhookId, body') == SignedMessage(id, time, webhookId, body)
  {
    hide SignedMessage, Crc32.Checksum, Crc32.Completion;
    if length == |body| {
      BodyDeterminedExactly(id, time, webhookId, body);
    } else {
      var prefix: Bytes := seq(length - 4, _ => 0);
      var last := Crc32.Completion(prefix, Crc32.Checksum(body));
      EveryBeginningCompletes(id, time, webhookId, body, prefix, last);
      assert |prefix + last| == length;
    }
  }

  /** The message as it is computed, with the checksum taken by table lookups. */
  method ComputeSignedMessage(id: string, time: string, webhookId: string, body: Bytes) returns (message: string)
    ensures message == SignedMessage(id, time, webhookId, body)
  {
    var crc := Crc32.ChecksumByTable(body);
    message := id + "|" + time + "|" + webhookId + "|" + ShowNat(Words.Number(crc));
  }

  // ---------------------------------------------------------------------
  // The certificate host gate.
  // ---------------------------------------------------------------------

  datatype Url = Url(scheme: string, username: string, password: Option<string>, host: Option<string>)

  predicate EndsWith(s: string, suffix: string) {
    |suffix| <= |s| && s[|s| - |suffix|..] == suffix
  }

  predicate HostIsPaypal(host: string) {
    var h := Lower(host);
    h == "paypal.com" || EndsWith(h, ".paypal.com")
  }

  predicate CertUrlIsPaypal(parsed: Option<Url>) {
    && parsed.Some?
    && var url := parsed.value;
       && url.scheme == "https" && url.username == "" && url.password == None
       && url.host.Some? && HostIsPaypal(url.host.value)
  }

  const PAYPAL_LABELS: seq<string> := ["paypal", "com"]

  ghost predicate EndsInPaypalLabels(labels: seq<string>) {
    |labels| >= 2 && labels[|labels| - 2..] == PAYPAL_LABELS
  }

  lemma PaypalLabels()
    ensures Join(PAYPAL_LABELS, '.') == "paypal.com"
    ensures forall i :: 0 <= i < 2 ==> '.' !in PAYPAL_LABELS[i]
  {
  }

  /** The suffix test is the label test: the lower-cased host, split at dots,
      ends in the labels paypal, com. */
  lemma HostGateExact(host: string)
    ensures HostIsPaypal(host) <==> EndsInPaypalLabels(Split(Lower(host), '.'))
  {
    var h := Lower(host);
    var labels := Split(h, '.');
    PaypalLabels();
    hide Join, Lower, Split;
    if HostIsPaypal(host) {
      if h == "paypal.com" {
        SplitJoin(PAYPAL_LABELS, '.');
      } else {
        var front := h[..|h| - 11];
        assert h == front + ['.'] + "paypal.com";
        var all := Split(front, '.') + PAYPAL_LABELS;
        JoinAppend(Split(front, '.'), PAYPAL_LABELS, '.');
        SplitJoin(all, '.');
      }
    }
    if EndsInPaypalLabels(labels) {
      var front := labels[..|labels| - 2];
      assert labels == front + PAYPAL_LABELS;
      if front == [] {
        assert labels == PAYPAL_LABELS;
      } else {
        JoinAppend(front, PAYPAL_LABELS, '.');
        assert h == Join(front, '.') + ".paypal.com";
      }
    }
  }

  /** A prefix is harmless exactly when it is empty or ends in a dot. */
  lemma PrefixedHost(prefix: string)
    ensures HostIsPaypal(prefix + "paypal.com") <==> prefix == "" || prefix[|prefix| - 1] == '.'
  {
    var h := Lower(prefix + "paypal.com");
    assert h == Lower(prefix) + "paypal.com" by {
      assert Lower("paypal.com") == "paypal.com";
    }
    if prefix == "" {
      assert h == "paypal.com";
    } else {
      var n := |prefix| - 1;
      var last := LowerChar(prefix[n]);
      assert last == '.' <==> prefix[n] == '.';
      assert h[|h| - 11..] == [last] + "paypal.com";
      assert ".paypal.com"[0] == '.' && ([last] + "paypal.com")[0] == last;
      if last == '.' {
        assert [last] + "paypal.com" == ".paypal.com";
      }
    }
  }

  function LowerAll(labels: seq<string>): (lowered: seq<string>)
    ensures |lowered| == |labels|
    ensures forall i :: 0 <= i < |labels| ==> lowered[i] == Lower(labels[i])
  {
    seq(|labels|, i requires 0 <= i < |labels| => Lower(labels[i]))
  }

  /** Labels after paypal.com make another host, accepted only when, case aside,
      the last two labels are paypal, com again. */
  lemma SuffixedHost(more: seq<string>)
    requires more != [] && forall i :: 0 <= i < |more| ==> '.' !in more[i]
    ensures HostIsPaypal("paypal.com." + Join(more, '.')) <==>
            EndsInPaypalLabels(PAYPAL_LABELS + LowerAll(more))
  {
    hide Join, Lower, LowerAll, Split, HostIsPaypal;
    var all := PAYPAL_LABELS + LowerAll(more);
    LoweredHost(more);
    LoweredLabels(more);
    SplitJoin(all, '.');
    HostGateExact("paypal.com." + Join(more, '.'));
  }

  lemma LoweredHost(more: seq<string>)
    requires more != []
    ensures Lower("paypal.com." + Join(more, '.')) == Join(PAYPAL_LABELS + LowerAll(more), '.')
  {
    LowerPaypal();
    PaypalLabels();
    hide Join, Lower;
    JoinAppend(PAYPAL_LABELS, more, '.');
    assert "paypal.com." == "paypal.com" + ['.'];
    LowerJoin(PAYPAL_LABELS + more);
    assert LowerAll(PAYPAL_LABELS + more) == LowerAll(PAYPAL_LABELS) + LowerAll(more);
  }

  lemma LoweredLabels(more: seq<string>)
    requires forall i :: 0 <= i < |more| ==> '.' !in more[i]
    ensures var all := PAYPAL_LABELS + LowerAll(more); forall i :: 0 <= i < |all| ==> '.' !in all[i]
  {
  }

  lemma LowerPaypal()
    ensures LowerAll(PAYPAL_LABELS) == PAYPAL_LABELS
  {
    assert Lower("paypal") == "paypal" && Lower("com") == "com";
  }

  lemma {:induction false} LowerJoin(parts: seq<string>)
    ensures Lower(Join(parts, '.')) == Join(LowerAll(parts), '.')
  {
    if |parts| > 1 {
      LowerJoin(parts[1..]);
      assert LowerAll(parts)[1..] == LowerAll(parts[1..]);
      var rest := Join(parts[1..], '.');
      assert Lower(parts[0] + ['.'] + rest) == Lower(parts[0]) + ['.'] + Lower(rest);
    }
  }

  // ---------------------------------------------------------------------
  // The verdict.
  // ---------------------------------------------------------------------

  datatype Transmission = Transmission(
    transmissionId: string,
    transmissionTime: string,
    signatureB64: string,
    certUrl: string,
    authAlgo: string
  )

  /** The foreign code verification calls. */
  datatype Library<!Signature, !PublicKey> = Library(
    parseUrl: string -> Option<Url>,
    signatureFromBytes: Bytes -> Option<Signature>,
    keyFromCertificate: string -> Option<PublicKey>,
    rsaVerifies: (PublicKey, string, Signature) -> bool,
    parseJson: JsonParser
  )

  datatype Call = Call(t: Transmission, webhookId: string, body: Bytes, certPem: string)

  type Verdict = Result<VerifiedEvent, VerifyError>

  function DecodedSignature<S, K>(lib: Library<S, K>, call: Call): Option<S> {
    var bytes :- Base64.Decode(Trim(call.t.signatureB64));
    lib.signatureFromBytes(bytes)
  }

  function MessageOf(call: Call): string {
    SignedMessage(call.t.transmissionId, call.t.transmissionTime, call.webhookId, call.body)
  }

  function EventOf<S, K>(lib: Library<S, K>, call: Call): Verdict {
    FromBody(Events.Paypal, call.body, lib.parseJson)
  }

  /** The source's early returns, in order. */
  function Verify<S, K>(lib: Library<S, K>, call: Call): Verdict {
    if !EqualIgnoringCase(call.t.authAlgo, "SHA256withRSA") then
      Err(InvalidInput(UnsupportedAlgorithm(call.t.authAlgo)))
    else if !CertUrlIsPaypal(lib.parseUrl(call.t.certUrl)) then
      Err(InvalidInput(NotPaypalHost(call.t.certUrl)))
    else if call.webhookId == "" then
      Err(InvalidInput(EmptyWebhookId))
    else
      match Base64.Decode(Trim(call.t.signatureB64))
      case None => Err(MalformedSignature)
      case Some(bytes) =>
        match lib.signatureFromBytes(bytes)
        case None => Err(MalformedSignature)
        case Some(signature) =>
          match lib.keyFromCertificate(call.certPem)
          case None => Err(InvalidInput(BadCertificate))
          case Some(key) =>
            if !lib.rsaVerifies(key, MessageOf(call), signature) then Err(SignatureMismatch)
            else EventOf(lib, call)
  }

  predicate SignatureHolds<S, K>(lib: Library<S, K>, call: Call) {
    var signature, key := DecodedSignature(lib, call), lib.keyFromCertificate(call.certPem);
    signature.Some? && key.Some? && lib.rsaVerifies(key.value, MessageOf(call), signature.value)
  }

  /** The gates in code order, each standing on its own. */
  function Checks<S, K>(lib: Library<S, K>, call: Call): (gates: seq<Gate<VerifyError>>)
    ensures |gates| == 7
  {
    var event := EventOf(lib, call);
    [ Gate(EqualIgnoringCase(call.t.authAlgo, "SHA256withRSA"), InvalidInput(UnsupportedAlgorithm(call.t.authAlgo))),
      Gate(CertUrlIsPaypal(lib.parseUrl(call.t.certUrl)), InvalidInput(NotPaypalHost(call.t.certUrl))),
      Gate(call.webhookId != "", InvalidInput(EmptyWebhookId)),
      Gate(DecodedSignature(lib, call).Some?, MalformedSignature),
      Gate(lib.keyFromCertificate(call.certPem).Some?, InvalidInput(BadCertificate)),
      Gate(SignatureHolds(lib, call), SignatureMismatch),
      Gate(event.Ok?, if event.Err? then event.error else MalformedEvent(NotJson)) ]
  }

  /** The early returns report the first failing gate, whichever gates fail
      after it, and otherwise the event. */
  lemma VerifyIsFirstFailure<S, K>(lib: Library<S, K>, call: Call, e: VerifyError)
    ensures Verify(lib, call).Ok? <==> forall k :: 0 <= k < 7 ==> Checks(lib, call)[k].holds
    ensures Verify(lib, call) == Err(e) <==>
            exists k: nat :: FailsFirstAt(Checks(lib, call), k) && Checks(lib, call)[k].error == e
  {
    var g := Checks(lib, call);
    FirstFailureExact(g, e);
    assert FirstFailure(g) == if Verify(lib, call).Ok? then None else Some(Verify(lib, call).error) by {
      hide FailsFirstAt, CertUrlIsPaypal, EqualIgnoringCase, MessageOf, FromBody, Trim, Base64.Decode;
      if Verify(lib, call).Ok? {
        NoFailure(g);
      } else {
        var k := SomeFailing(lib, call);
        FirstFailureAt(g, k);
      }
    }
  }

  lemma SomeFailing<S, K>(lib: Library<S, K>, call: Call) returns (k: nat)
    requires Verify(lib, call).Err?
    ensures FailsFirstAt(Checks(lib, call), k)
    ensures Checks(lib, call)[k].error == Verify(lib, call).error
  {
    hide CertUrlIsPaypal, EqualIgnoringCase, MessageOf, FromBody, Trim, Base64.Decode;
    var g := Checks(lib, call);
    k := if !g[0].holds then 0 else if !g[1].holds then 1 else if !g[2].holds then 2
         else if !g[3].holds then 3 else if !g[4].holds then 4 else if !g[5].holds then 5 else 6;
  }

  /** Accepted exactly when: the algorithm is SHA256withRSA in any case; the URL
      is https without credentials on a host whose last labels are paypal, com;
      the webhook id is configured; the trimmed header is the canonical Base64 of
      a signature that the certificate's key verifies over this message; and the
      body identifies an event, which then carries the exact body. */
  lemma AcceptedExactly<S, K>(lib: Library<S, K>, call: Call, e: VerifiedEvent)
    ensures Verify(lib, call) == Ok(e) <==>
            && Lower(call.t.authAlgo) == "sha256withrsa"
            && SafeUrl(lib.parseUrl(call.t.certUrl))
            && call.webhookId != ""
            && (exists bytes :: Genuine(lib, call, bytes))
            && e.provider == Events.Paypal
            && e.payload == call.body
            && lib.parseJson(call.body).Some?
            && Identifies(lib.parseJson(call.body).value, e.id, e.eventType)
  {
    hide Verify, EqualIgnoringCase, CertUrlIsPaypal, SafeUrl, SignatureHolds, Genuine, EventOf, Identifies, Lower;
    PassesExactly(lib, call);
    AlgorithmExactly(call.t.authAlgo);
    SafeUrlExact(lib.parseUrl(call.t.certUrl));
    GenuineExactly(lib, call);
    EventExactly(lib, call, e);
  }

  lemma AlgorithmExactly(name: string)
    ensures EqualIgnoringCase(name, "SHA256withRSA") <==> Lower(name) == "sha256withrsa"
  {
    assert Lower("SHA256withRSA") == "sha256withrsa";
  }

  lemma EventExactly<S, K>(lib: Library<S, K>, call: Call, e: VerifiedEvent)
    ensures EventOf(lib, call) == Ok(e) <==>
            && e.provider == Events.Paypal
            && e.payload == call.body
            && lib.parseJson(call.body).Some?
            && Identifies(lib.parseJson(call.body).value, e.id, e.eventType)
  {
    FromBodyExact(Events.Paypal, call.body, lib.parseJson, e);
  }

  lemma PassesExactly<S, K>(lib: Library<S, K>, call: Call)
    ensures Verify(lib, call).Ok? <==>
            && EqualIgnoringCase(call.t.authAlgo, "SHA256withRSA")
            && CertUrlIsPaypal(lib.parseUrl(call.t.certUrl))
            && call.webhookId != ""
            && SignatureHolds(lib, call)
            && EventOf(lib, call).Ok?
    ensures Verify(lib, call).Ok? ==> Verify(lib, call) == EventOf(lib, call)
  {
  }

  ghost predicate SafeUrl(parsed: Option<Url>) {
    && parsed.Some?
    && parsed.value.scheme == "https"
    && parsed.value.username == "" && parsed.value.password == None
    && parsed.value.host.Some?
    && EndsInPaypalLabels(Split(Lower(parsed.value.host.value), '.'))
  }

  lemma SafeUrlExact(parsed: Option<Url>)
    ensures CertUrlIsPaypal(parsed) <==> SafeUrl(parsed)
  {
    if parsed.Some? && parsed.value.host.Some? {
      HostGateExact(parsed.value.host.value);
    }
  }

  ghost predicate Genuine<S, K>(lib: Library<S, K>, call: Call, bytes: Bytes) {
    && Trim(call.t.signatureB64) == Base64.Encode(bytes)
    && lib.signatureFromBytes(bytes).Some?
    && lib.keyFromCertificate(call.certPem).Some?
    && lib.rsaVerifies(lib.keyFromCertificate(call.certPem).value, MessageOf(call), lib.signatureFromBytes(bytes).value)
  }

  lemma GenuineExactly<S, K>(lib: Library<S, K>, call: Call)
    ensures (exists bytes :: Genuine(lib, call, bytes)) <==> SignatureHolds(lib, call)
  {
    var text := Trim(call.t.signatureB64);
    hide Trim, MessageOf, Base64.Decode, Base64.Encode;
    forall bytes | Genuine(lib, call, bytes)
      ensures SignatureHolds(lib, call)
    {
      Base64.DecodeExact(text, bytes);
    }
    if SignatureHolds(lib, call) {
      var bytes := Base64.Decode(text).value;
      Base64.DecodeExact(text, bytes);
      assert Genuine(lib, call, bytes);
    }
  }

  // ---------------------------------------------------------------------
  // What each rejection means. With acceptance these cover every verdict.
  // ---------------------------------------------------------------------

  /** The algorithm, the certificate's URL and the webhook id are in order. */
  ghost predicate Reaches<S, K>(lib: Library<S, K>, call: Call) {
    && Lower(call.t.authAlgo) == "sha256withrsa"
    && SafeUrl(lib.parseUrl(call.t.certUrl))
    && call.webhookId != ""
  }

  lemma RejectedForInput<S, K>(lib: Library<S, K>, call: Call, text: string)
    ensures Verify(lib, call) == Err(InvalidInput(UnsupportedAlgorithm(text))) <==>
            text == call.t.authAlgo && Lower(text) != "sha256withrsa"
    ensures Verify(lib, call) == Err(InvalidInput(NotPaypalHost(text))) <==>
            && text == call.t.certUrl
            && Lower(call.t.authAlgo) == "sha256withrsa"
            && !SafeUrl(lib.parseUrl(text))
    ensures Verify(lib, call) == Err(InvalidInput(EmptyWebhookId)) <==>
            && Lower(call.t.authAlgo) == "sha256withrsa"
            && SafeUrl(lib.parseUrl(call.t.certUrl))
            && call.webhookId == ""
  {
    AlgorithmExactly(call.t.authAlgo);
    SafeUrlExact(lib.parseUrl(call.t.certUrl));
    EventErrors(lib, call);
    hide EqualIgnoringCase, CertUrlIsPaypal, SafeUrl, Lower, MessageOf, EventOf, Trim, Base64.Decode;
  }

  /** The event gate's only error. */
  lemma EventErrors<S, K>(lib: Library<S, K>, call: Call)
    ensures EventOf(lib, call).Err? ==> EventOf(lib, call).error.MalformedEvent?
  {
  }

  /** The trimmed header is the canonical Base64 of these bytes, and they are a
      signature. */
  ghost predicate CarriesSignature<S, K>(lib: Library<S, K>, call: Call, bytes: Bytes) {
    Trim(call.t.signatureB64) == Base64.Encode(bytes) && lib.signatureFromBytes(bytes).Some?
  }

  /** The signature's text is read before the certificate, and both before the
      signature is checked. */
  lemma RejectedForSignature<S, K>(lib: Library<S, K>, call: Call)
    ensures Verify(lib, call) == Err(MalformedSignature) <==>
            Reaches(lib, call) && !exists bytes :: CarriesSignature(lib, call, bytes)
    ensures Verify(lib, call) == Err(InvalidInput(BadCertificate)) <==>
            && Reaches(lib, call)
            && (exists bytes :: CarriesSignature(lib, call, bytes))
            && lib.keyFromCertificate(call.certPem) == None
    ensures Verify(lib, call) == Err(SignatureMismatch) <==>
            && Reaches(lib, call)
            && lib.keyFromCertificate(call.certPem).Some?
            && exists bytes ::
                 && CarriesSignature(lib, call, bytes)
                 && !Genuine(lib, call, bytes)
  {
    AlgorithmExactly(call.t.authAlgo);
    SafeUrlExact(lib.parseUrl(call.t.certUrl));
    EventErrors(lib, call);
    CarriedExactly(lib, call);
    hide EqualIgnoringCase, CertUrlIsPaypal, SafeUrl, Lower, MessageOf, EventOf, Trim, Base64.Decode, Base64.Encode;
    var text := Trim(call.t.signatureB64);
    if DecodedSignature(lib, call).Some? {
      assert CarriesSignature(lib, call, Base64.Decode(text).value);
    }
  }

  lemma CarriedExactly<S, K>(lib: Library<S, K>, call: Call)
    ensures forall bytes :: CarriesSignature(lib, call, bytes) <==>
              Base64.Decode(Trim(call.t.signatureB64)) == Some(bytes) && lib.signatureFromBytes(bytes).Some?
  {
    hide Trim, Base64.Decode, Base64.Encode;
    forall bytes
      ensures Base64.Decode(Trim(call.t.signatureB64)) == Some(bytes) <==>
              Trim(call.t.signatureB64) == Base64.Encode(bytes)
    {
      Base64.DecodeExact(Trim(call.t.signatureB64), bytes);
    }
  }

  /** The body is read only once the signature over its checksum is verified. */
  lemma RejectedForEvent<S, K>(lib: Library<S, K>, call: Call, problem: EventProblem)
    ensures Verify(lib, call) == Err(MalformedEvent(problem)) <==>
            && Reaches(lib, call)
            && (exists bytes :: Genuine(lib, call, bytes))
            && HasProblem(lib.parseJson(call.body), problem)
  {
    AlgorithmExactly(call.t.authAlgo);
    SafeUrlExact(lib.parseUrl(call.t.certUrl));
    GenuineExactly(lib, call);
    FromBodyRejects(Events.Paypal, call.body, lib.parseJson, MalformedEvent(problem));
    hide EqualIgnoringCase, CertUrlIsPaypal, SafeUrl, Lower, MessageOf, FromBody, Trim, Base64.Decode, Genuine,
      HasProblem;
  }

  // ---------------------------------------------------------------------
  // What a signature binds.
  // ---------------------------------------------------------------------

  /** One signature text and one certificate accepted on two calls: the calls
      have one message, or one decoded signature verifies over two messages. */
  lemma SignatureBindsMessage<S, K>(lib: Library<S, K>, call1: Call, call2: Call)
    requires call1.t.signatureB64 == call2.t.signatureB64 && call1.certPem == call2.certPem
    requires Verify(lib, call1).Ok? && Verify(lib, call2).Ok?
    ensures var signature, key := DecodedSignature(lib, call1), lib.keyFromCertificate(call1.certPem);
            || MessageOf(call1) == MessageOf(call2)
            || (&& signature.Some? && key.Some?
                && lib.rsaVerifies(key.value, MessageOf(call1), signature.value)
                && lib.rsaVerifies(key.value, MessageOf(call2), signature.value))
  {
    hide Verify, MessageOf, CertUrlIsPaypal, EqualIgnoringCase, EventOf;
    PassesExactly(lib, call1);
    PassesExactly(lib, call2);
  }

  /** Where times and webhook ids hold no pipe, one message is one transmission
      id, time, webhook id and checksum. */
  lemma OneMessageOneTransmission(call1: Call, call2: Call)
    requires '|' !in call1.t.transmissionTime && '|' !in call1.webhookId
    requires '|' !in call2.t.transmissionTime && '|' !in call2.webhookId
    ensures MessageOf(call1) == MessageOf(call2) <==>
            && call1.t.transmissionId == call2.t.transmissionId
            && call1.t.transmissionTime == call2.t.transmissionTime
            && call1.webhookId == call2.webhookId
            && Crc32.Checksum(call1.body) == Crc32.Checksum(call2.body)
  {
    MessageInjective(call1.t.transmissionId, call1.t.transmissionTime, call1.webhookId, call1.body,
                     call2.t.transmissionId, call2.t.transmissionTime, call2.webhookId, call2.body);
  }

  /** The signature gate sees a body only through its checksum. */
  lemma SignatureSeesChecksumOnly<S, K>(lib: Library<S, K>, call: Call, body': Bytes)
    requires Crc32.Checksum(body') == Crc32.Checksum(call.body)
    ensures SignatureHolds(lib, call.(body := body')) <==> SignatureHolds(lib, call)
  {
    hide SignedMessage, Crc32.Checksum;
    SingleChangeVisible(call.t.transmissionId, call.t.transmissionTime, call.webhookId, body', "", call.body);
    assert DecodedSignature(lib, call.(body := body')) == DecodedSignature(lib, call);
    assert MessageOf(call.(body := body')) == MessageOf(call);
  }
}
