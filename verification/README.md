# Provider webhook verification: a Dafny model

This project models the authentication boundary of `fiducia-payments`: the two
webhook verifiers (Stripe and PayPal), the verification lifecycle they are meant
to follow, the payment-lifecycle explorer, and the discovery of agent
instruction files. It proves what each promises, for every input and every run.

| file | what it holds |
|---|---|
| `Machine.dfy`, `Outcomes.dfy` | fixed-width integers, options and results |
| `Text.dfy`, `Decimal.dfy` | trimming, splitting, joining, ASCII case; decimal text and the checked i64 parse |
| `Hex.dfy`, `Base64.dfy` | the two text encodings, each decoder exact against its encoder |
| `Words.dfy`, `Crc32.dfy` | the CRC register, its linearity, what the checksum detects |
| `Events.dfy`, `Gates.dfy` | errors, events, the event gate; ordered chains of checks |
| `StripeHeader.dfy`, `Stripe.dfy` | the header grammar and its parsing loop; the Stripe verdict |
| `Paypal.dfy` | the signed message, the certificate host gate, the PayPal verdict |
| `Lifecycle.dfy`, `Refinement.dfy` | the verification lifecycle; both verifiers as runs of it |
| `Explorer.dfy`, `PaymentLifecycle.dfy` | the queue-and-seen worklist; the payment lifecycle explored by it |
| `AgentFiles.dfy`, `InstructionChain.dfy` | the file tree and the tool pointers; the leaf-to-root walk, its reversal, the self-test, the repository check |
| `Counting.dfy` | the pigeonhole principle |

HMAC-SHA256, RSA, certificate, URL and JSON code are function-valued fields of a
`Library` record. Nothing is assumed about them, not even that the MAC is
injective: binding results end in "or here is a collision of the MAC".
Characters are Unicode scalar values, bytes are integers below 256.

## What holds, and what does not

- A signed PayPal message does not determine the body. Among bodies of one length
  it does exactly up to four bytes (`Paypal.BodyDeterminedExactly`); every body,
  of any length, shares its message with another body of each length from five
  bytes on (`Paypal.BodyNotDetermined`), because any beginning reaches any
  checksum with exactly one choice of four last bytes
  (`Crc32.CompletionExact`, `Paypal.EveryBeginningCompletes`). What the checksum
  does see is every change confined to 32 consecutive bits, and 32 is the largest
  such width (`Crc32.BurstWidthIsSharp`). The remark that changing any field
  changes the message (tests/adversarial.rs:168) and the test message at
  src/paypal.rs:197 hold for such changes, not for all bodies.
- The message determines its texts only where they hold no pipe: the exact
  conditions are `Paypal.MessageDecodes` and `Paypal.UnambiguousExactly`.
- `formal/README.md` gives the Stripe event gate as a string `id` and `type`, and
  PayPal's as `id` and `type` or `event_type`. The code runs one extractor for
  both. For Stripe it is the documented gate exactly unless there is a string
  `id`, no `type` and a string `event_type`, which it accepts
  (`Events.StripeShapeExact`, an input in `Events.StripeReadsEventType`). For
  PayPal it is the documented gate exactly unless a `type` that is not a string
  hides `event_type` (`Events.DocumentedShapeSuffices`, an input in
  `Events.NumericTypeHidesEventType`).
- Code order differs from lifecycle order: Stripe reports an unusable HMAC key
  after the replay window, PayPal the certificate host before the webhook id and
  the certificate after the signature text. `Stripe.RejectedExactly` and
  `Paypal.VerifyIsFirstFailure` follow the code; the `Rejected...` lemmas of both
  modules say of each error exactly which calls get it.
- The count of canonical files at scripts/check-agent-instructions.py:200-205 can
  never fail once discovery has succeeded, provided a resolved path resolves to
  itself (`FileTree.Valid`, `InstructionChain.ValidateRepository`).
  The self-test at lines 132-164 depends on what lies above the temporary
  directory: it passes exactly when every instruction file on the way up is
  usable and none above is a third file
  (`InstructionChain.ValidateDiscoveryFixture`). A dangling link or a file of the
  same name at the filesystem root makes it fail
  (`InstructionChain.FixtureDependsOnAbove`).

## Model

| member | source | states |
|---|---|---|
| Text.WhiteSpace | src/stripe.rs:106-123 | the spaces are the twenty-five White_Space code points |
| Text.TrimParts | src/stripe.rs:115-123 | every string is blank padding, its trimmed core, blank padding |
| Text.TrimPadded | src/stripe.rs:115-123 | trimming finds a space-free-ended core inside any padding |
| Text.SplitJoin | src/stripe.rs:111 | splitting at a separator undoes joining separator-free pieces |
| Text.SplitOnce | src/stripe.rs:112-114 | the first separator divides the string; none means no separator occurs |
| Text.SplitLast | src/paypal.rs:70 | the last separator divides the string; none means no separator occurs |
| Text.LowerLetters | src/paypal.rs:99 | each of the twenty-six capitals is lowered to its letter |
| Text.OtherCharsKept | src/paypal.rs:99 | exactly the capitals change |
| Decimal.Digits | src/stripe.rs:123 | the digit d of "0123456789" is printed for d and is worth d |
| Decimal.FirstDigitWeighs | src/stripe.rs:123 | the first digit of a numeral weighs a power of ten by the digits after it |
| Decimal.NoLeadingZero | src/paypal.rs:70 | only zero is printed with a leading zero |
| Decimal.ShowNatStep | src/stripe.rs:79 | printing adds one decimal digit at the end |
| Decimal.TimestampLiteral | src/stripe.rs:157 | "1680000000" parses to 1680000000 and is its text |
| Decimal.SmallLiterals | src/stripe.rs:79 | "-12" and "0" parse to their numbers and are their texts |
| Decimal.ParseExact | src/stripe.rs:120-125 | the checked digit loop accepts exactly the optionally signed numerals whose value fits 64 bits, and returns that value |
| Decimal.AccumulateExact | src/stripe.rs:120-125 | an overflow part way is an overflow of the final value, in both directions of growth |
| Decimal.ParseShow | src/stripe.rs:79 | parsing inverts printing on all of i64, both extremes included |
| Decimal.ShowNatInjective | src/paypal.rs:69-70 | decimal text of a checksum determines the checksum |
| Hex.Alphabet | src/stripe.rs:88 | the sixteen digits are those of section 8 of RFC 4648 in lower case |
| Hex.EncodeAt | src/stripe.rs:88 | each byte is written as the digit of its high four bits, then that of its low four |
| Hex.DecodeExact | src/stripe.rs:88 | decoding accepts the hex text of a byte string in any mixture of cases, and nothing else as it |
| Hex.CompareAllIsEquality | src/stripe.rs:91 | the comparison that never stops early is equality |
| Hex.MatchesExactly | src/stripe.rs:87-92 | a candidate matches exactly when, case aside, it is the expected tag's hex text |
| Hex.MatchDeterminesTag | src/stripe.rs:87-92 | one candidate text matches at most one tag |
| StripeHeader.ParseSignatureHeader | src/stripe.rs:105-136 | the loop with its early exits computes the grammar's reading of the header |
| StripeHeader.ParsedExact | src/stripe.rs:105-136 | sound and complete: exactly the headers whose every part is key=value, with one i64 timestamp and some v1 values, parse to that timestamp and those values; blank headers alone report a missing signature |
| StripeHeader.HeaderLiteral | src/stripe.rs:111-129 | "t = 1 , v1 = ab" parses to time 1 and signature ab |
| StripeHeader.RenderedHeaderParses | src/stripe.rs:100-136 | any rendering, unknown schemes and padding interleaved, parses back to its timestamp and signatures in order |
| StripeHeader.PermutedPartsParse | src/stripe.rs:111-130 | reordering parts keeps the timestamp and permutes the signatures |
| StripeHeader.PermutedPartsFail | src/stripe.rs:106-135 | reordering the parts of a rejected header keeps its error |
| StripeHeader.AppendedPartParses | src/stripe.rs:111-130 | one more part with another key than t only ever adds signatures |
| StripeHeader.SpellingIrrelevant | src/stripe.rs:116-126 | leading zeros, a plus sign or padding of the timestamp change nothing |
| Stripe.HmacSha256.constructor | src/stripe.rs:77-78 | a fresh MAC has been fed nothing |
| Stripe.HmacSha256.Update | src/stripe.rs:79-81 | feeding appends |
| Stripe.HmacSha256.Finalize | src/stripe.rs:82 | the tag is the MAC of everything fed |
| Stripe.ReplayWindowExact | src/stripe.rs:53-74 | the decision is the mathematical distance against the tolerance; the report clamps the skew and keeps its direction; the widened types rule out overflow |
| Stripe.ToleranceIsMonotone | src/stripe.rs:58-59 | widening the tolerance never turns a timestamp away |
| Stripe.EveryTimestampAdmitted | src/stripe.rs:58-59 | only the tolerance u64::MAX admits every pair of timestamps |
| Stripe.PayloadText | src/stripe.rs:76-82 | for ASCII bodies the signed payload is the text "{t}.{body}" |
| Stripe.TagOfText | src/stripe.rs:76-82 | for ASCII bodies the tag is the MAC under the secret of the text "{t}.{body}" |
| Stripe.PayloadDecodes | src/stripe.rs:76-82 | timestamp and body can be read back from any signed payload |
| Stripe.PayloadInjective | src/stripe.rs:76-82 | two pairs never share a signed payload |
| Stripe.Verify | src/stripe.rs:40-98 | the early returns and the incrementally fed MAC give the verdict of the ordered checks |
| Stripe.AcceptedExactly | src/stripe.rs:40-98 | accepted exactly when secret, grammar, window, a hex signature of this MAC and event identity all hold; the event carries the exact payload |
| Stripe.RejectedForInput | src/stripe.rs:47-51 | an empty secret is reported exactly when there is one, a missing signature exactly for a blank header after that, a malformed one exactly when no time and signatures can be read from it |
| Stripe.RejectedAsStale | src/stripe.rs:58-74 | stale exactly when the header's time is further from now than the tolerance; the error carries now minus that time, clamped to 64 bits, and the tolerance of the call |
| Stripe.RejectedForKey | src/stripe.rs:77-78 | an unusable key is reported exactly once the header is read and its time is near |
| Stripe.RejectedAsMismatch | src/stripe.rs:84-95 | a mismatch exactly when header, time and key are good and no signature is the hex text of the MAC |
| Stripe.RejectedForEvent | src/stripe.rs:97 | the event problem of the body is reported exactly when everything before holds |
| Stripe.RejectedExactly | src/stripe.rs:47-97 | of several failing checks the first in code order gives the error |
| Stripe.SignatureSetDecides | src/stripe.rs:84-95 | equal timestamps and equal signature sets get equal verdicts, rejections included |
| Stripe.MoreSignaturesKeepAcceptance | src/stripe.rs:84-95 | an accepted verdict survives further signatures |
| Stripe.PermutationKeepsVerdict | src/stripe.rs:84-130 | any reordering of the parts gets the same verdict: the same event or the same error |
| Stripe.WiderToleranceKeepsVerdict | src/stripe.rs:58-59 | a wider tolerance keeps an accepted call accepted with the same event |
| Stripe.AppendingKeepsVerdict | src/stripe.rs:84-130 | adding an unknown scheme or another signature keeps the same event |
| Stripe.SpellingKeepsVerdict | src/stripe.rs:79-126 | every spelling of one timestamp gets one verdict |
| Stripe.SignatureBindsMessage | src/stripe.rs:76-95 | one signature text under one secret binds one timestamp and one payload, or exhibits a MAC collision |
| Stripe.AcceptedHeaderBindsPayloads | src/stripe.rs:76-95 | a header with n signatures is accepted under one secret for at most n payloads, at any times, short of a MAC collision |
| Events.FromBodyExact | src/event.rs:38-60 | exactly which parsed bodies yield which event, payload preserved |
| Events.FromBodyRejects | src/event.rs:42-53 | not JSON, no string id, no string under the deciding key: exactly which body gets which error, and no other error |
| Events.DocumentedShapeSuffices | formal/README.md:19 | PayPal's documented shape suffices exactly when no non-string type stands before event_type |
| Events.StripeShapeExact | formal/README.md:19 | Stripe's documented shape is the gate exactly unless a string id comes with a string event_type and no type at all |
| Events.StripeReadsEventType | src/event.rs:48-53 | a Stripe body without type that is accepted |
| Events.NumericTypeHidesEventType | src/event.rs:48-53 | a body of the documented shape that is rejected |
| Gates.FirstFailureExact | src/paypal.rs:120-149 | a chain of checks passes when all hold and otherwise reports the one failing check with none failing before it |
| Words.ShiftIsLinear | src/paypal.rs:69 | a register step is linear over XOR |
| Words.ShiftIsBijective | src/paypal.rs:69 | every register is shifted to, from exactly one register |
| Words.ShiftKeepsReach | src/paypal.rs:69 | a difference reaching bit k still reaches bit k - 1 after a step on any input bit |
| Words.NumberHalves | src/paypal.rs:69-70 | a register as a number is twice its upper half, and one more if odd |
| Crc32.NumberOfBits | src/paypal.rs:69-70 | it is the sum of the powers of two at its one bits |
| Crc32.CheckValue | src/paypal.rs:69 | the checksum of the digits 1 to 9 is the published 0xCBF43926 |
| Crc32.BytesAreSerial | src/paypal.rs:69 | byte-wise and bit-serial absorption agree |
| Crc32.MakeTable | src/paypal.rs:69 | the 256 stored words are eight shifts of their index |
| Crc32.LookupIsByteStep | src/paypal.rs:69 | one lookup and one XOR absorb a byte |
| Crc32.ChecksumByTable | src/paypal.rs:69 | the loop with one lookup a byte computes the bit-by-bit definition on every body |
| Crc32.Incremental | src/paypal.rs:69 | absorbing a concatenation is absorbing its pieces in turn |
| Crc32.ChecksumIsAffine | src/paypal.rs:69 | the XOR of three bodies of one length has the XOR of their checksums |
| Crc32.ChecksumDifference | src/paypal.rs:69 | two bodies of one length share a checksum exactly when their XOR leaves a zeroed register at zero |
| Crc32.CommonSuffixKeepsDifference | src/paypal.rs:69 | a common suffix neither creates nor hides a difference |
| Crc32.BurstDetected | src/paypal.rs:69-70 | bodies of one length differing only inside 32 consecutive bits have different checksums |
| Crc32.FourByteChangeDetected | src/paypal.rs:69-70 | so do bodies differing only inside four consecutive bytes |
| Crc32.CollidingTwin | src/paypal.rs:69-70 | every body of five bytes or more has a twin differing in 33 consecutive bits with the same checksum |
| Crc32.BurstWidthIsSharp | src/paypal.rs:69-70 | every change within w consecutive bits is seen exactly when w is at most 32 |
| Crc32.DeterminedExactly | src/paypal.rs:69-70 | among bodies of its length a body is determined by its checksum exactly when it has at most four bytes |
| Crc32.CompletionExact | src/paypal.rs:69-70 | after any beginning exactly one choice of four last bytes gives a target checksum |
| Paypal.ChecksumTextValue | src/paypal.rs:69-70 | the last field is the plain decimal of the number whose bits are the checksum's |
| Paypal.MessageLiteral | src/paypal.rs:63-71 | for the body 123456789 the last field is 3421780262 |
| Paypal.MessageDecodes | src/paypal.rs:63-71 | for any id, the message reads back to its components exactly when time and webhook id hold no pipe |
| Paypal.MessageInjective | src/paypal.rs:63-71 | without those pipes the message determines the three texts and the checksum |
| Paypal.SingleChangeVisible | tests/adversarial.rs:167-177 | changing one text alone always changes the message; changing the body alone does exactly when the checksum changes |
| Paypal.UnambiguousExactly | src/paypal.rs:63-71 | no other three texts give the message exactly when none of the three holds a pipe |
| Paypal.BurstChangesMessage | src/paypal.rs:69-70 | a body changed within 32 consecutive bits changes the message |
| Paypal.BodyDeterminedExactly | src/paypal.rs:69-70 | among bodies of its length a body is determined by its message exactly when it has at most four bytes |
| Paypal.EveryBeginningCompletes | src/paypal.rs:69-70 | any beginning ends in a given body's message for exactly one choice of four last bytes |
| Paypal.BodyNotDetermined | src/paypal.rs:69-70 | every body, the empty one included, shares its message with another body of each length from five bytes on |
| Paypal.ComputeSignedMessage | src/paypal.rs:63-71 | with the checksum taken by table lookups the message is the same text |
| Paypal.HostGateExact | src/paypal.rs:97-103 | the suffix test accepts exactly the hosts whose lower-cased labels end in paypal, com |
| Paypal.PrefixedHost | src/paypal.rs:97-103 | text before paypal.com is accepted exactly when empty or ending in a dot |
| Paypal.SuffixedHost | src/paypal.rs:97-103 | labels after paypal.com are accepted exactly when the last two are paypal, com again |
| Base64.Alphabet | src/paypal.rs:136 | the sixty-four characters are those of section 4 of RFC 4648 |
| Base64.SextetsKeepNumber | src/paypal.rs:136 | the sextets of a group read in base 64 are its bytes read in base 256, zero bits after an incomplete group |
| Base64.EncodeAt | src/paypal.rs:136 | each full group of three bytes is written in its place as its four characters |
| Base64.EncodeEnds | src/paypal.rs:136 | an incomplete last group is padded to four characters |
| Base64.DecodeExact | src/paypal.rs:136-138 | the decoder accepts the canonical padded text of a byte string and nothing else as it |
| Paypal.AcceptedExactly | src/paypal.rs:114-152 | accepted exactly when algorithm, safe URL, webhook id, a canonical genuine signature over this message and event identity all hold; the event carries the exact body |
| Paypal.RejectedForInput | src/paypal.rs:120-134 | exactly when each of unsupported algorithm, foreign certificate URL and empty webhook id is reported, with the offending text |
| Paypal.RejectedForSignature | src/paypal.rs:136-149 | exactly when the signature text is malformed, the certificate bad, or the signature no genuine one of this message, in that order |
| Paypal.RejectedForEvent | src/paypal.rs:151 | the event problem of the body is reported exactly when everything before holds |
| Paypal.VerifyIsFirstFailure | src/paypal.rs:120-151 | the error is that of the first failing gate in code order |
| Paypal.SignatureBindsMessage | src/paypal.rs:136-149 | one signature text and certificate accepted on two calls: one message, or one signature verifying over two |
| Paypal.OneMessageOneTransmission | src/paypal.rs:145 | pipe-free times and webhook ids: one message is one id, time, webhook id and checksum |
| Paypal.SignatureSeesChecksumOnly | src/paypal.rs:145-149 | the signature gate sees a body only through its checksum |
| Lifecycle.Lifecycle.constructor | formal/provider_verification.qnt:63-76 | a received input with all gates open and nothing produced |
| Lifecycle.Lifecycle.Invalidate | formal/provider_verification.qnt:83-99 | closes one gate while received, otherwise is refused and changes nothing |
| Lifecycle.Lifecycle.Verify | formal/provider_verification.qnt:101-109 | enabled exactly when received with all gates open; then one output |
| Lifecycle.Lifecycle.Reject | formal/provider_verification.qnt:111-118 | enabled exactly when received with a closed gate |
| Lifecycle.Lifecycle.Consume | formal/provider_verification.qnt:120-129 | enabled exactly on an unconsumed verified output |
| Lifecycle.Lifecycle.Retry | formal/provider_verification.qnt:134-137 | a retry after a decision changes nothing |
| Lifecycle.Lifecycle.Close | formal/provider_verification.qnt:139-145 | closes whatever is not closed |
| Lifecycle.SafetyIsInductive | formal/provider_verification.qnt:162-191 | every enabled step keeps authentication_safety |
| Lifecycle.SafetyOfRuns | formal/provider_verification.qnt:149-191 | safety after any run, and the counters equal the numbers of verify and consume steps |
| Lifecycle.RunsAreSafe | formal/provider_verification.qnt:149-191 | any run from receipt: at most one verify, no more consumes than verifies, never both a verify and a reject |
| Lifecycle.ConsumeNeedsVerify | formal/provider_verification.qnt:120-129 | a consume has exactly one verify before it and no other consume around it |
| Lifecycle.HistoryDecides | formal/provider_verification.qnt:63-145 | phase, gates and counters after a run are told by which actions it has taken |
| Lifecycle.NextExactly | formal/provider_verification.qnt:83-147 | a run can go on with an action exactly when its past actions allow it: a verified unconsumed one can consume, a decided one retry, an unclosed one close |
| Lifecycle.FrozenAfterDecision | formal/provider_verification.qnt:83-145 | once the phase leaves received, gates, provider and output never change |
| Lifecycle.CloseCreatesNothing | formal/provider_verification.qnt:139-145 | closing creates no output, then or later |
| Refinement.StripeAcceptsWhenAllHold | tests/formal_verifier_refinement.rs:53-104 | Stripe accepts exactly when its five gates hold, for every input |
| Refinement.PaypalAcceptsWhenAllHold | tests/formal_verifier_refinement.rs:106-165 | PayPal accepts exactly when its five gates hold, for every input |
| Refinement.SessionIsRun | formal/provider_verification.qnt:101-137 | a decided and n times repeated input is a run exactly when the decision is the gates' |
| Refinement.StripeRefinesLifecycle | formal/provider_verification.qnt:1-10 | every Stripe call, repeated any number of times, is a safe run ending in its verdict; the opposite decision is no run |
| Refinement.PaypalRefinesLifecycle | formal/provider_verification.qnt:1-10 | the same for every PayPal call |
| Explorer.Explore | conformance/payment_lifecycle_model.rs:46-75 | on any finite state space it terminates, fails an assertion exactly when a reachable state fails a check, and otherwise has taken up each reachable state once and counted each transition |
| Explorer.OutDegreesCountSlots | conformance/payment_lifecycle_model.rs:55-56 | adding up successor counts over distinct states counts the transitions of their set |
| PaymentLifecycle.PassedExplorationHoldsOnRuns | conformance/payment_lifecycle_model.rs:52-69 | for any successor function, a passed exploration makes phases and captures monotone, captures at most one, and every entered captured state exactly one, on runs of every length |
| PaymentLifecycle.InitialStateIsExempt | conformance/payment_lifecycle_model.rs:52-69 | the checks say nothing of captures in a captured initial state |
| PaymentLifecycle.LifecyclePasses | conformance/payment_lifecycle_model.rs:26-81 | the lifecycle passes every check and reaches exactly its four states |
| PaymentLifecycle.ExploreLifecycle | conformance/payment_lifecycle_model.rs:46-89 | the program passes with four states and four transitions |
| PaymentLifecycle.RunsAreDetermined | conformance/payment_lifecycle_model.rs:26-44 | every run of three or more steps from creation is refunded with one capture |
| PaymentLifecycle.RunsOfEveryLength | conformance/payment_lifecycle_model.rs:26-44 | there are runs of every length |
| InstructionChain.StartExactly | scripts/check-agent-instructions.py:36-43 | a start leading to a directory gives it, one leading to a file gives the directory holding the file; each error exactly otherwise |
| InstructionChain.DefectExact | scripts/check-agent-instructions.py:47-60 | a dangling link cannot be resolved, a directory is no file, an unreadable file cannot be read; nothing else is complained of |
| InstructionChain.DiscoverInstructionChain | scripts/check-agent-instructions.py:33-67 | succeeds exactly when every ancestor's file is usable, with the chain; otherwise complains of the deepest unusable one |
| InstructionChain.WalkAdds | scripts/check-agent-instructions.py:61-64 | a newly met real file extends the walk and is its deepest occurrence |
| InstructionChain.WalkReversed | scripts/check-agent-instructions.py:66-67 | the finished walk reversed is the root-to-leaf chain |
| InstructionChain.ChainUnique | scripts/check-agent-instructions.py:33-67 | order, distinctness, coverage and deepest occurrence leave one possible chain |
| InstructionChain.ValidateDiscoveryFixture | scripts/check-agent-instructions.py:132-164 | the self-test passes exactly when every instruction file on the way up is usable and no directory above brings in a third file |
| InstructionChain.FixtureChainExact | scripts/check-agent-instructions.py:118-164 | where discovery succeeds the expected chain results exactly when no directory above brings in a third file |
| InstructionChain.FixtureUsableAbove | scripts/check-agent-instructions.py:47-60 | usability is a matter of the directories above the fixture |
| InstructionChain.FixtureDependsOnAbove | scripts/check-agent-instructions.py:132-164 | with nothing above the self-test passes; a dangling link, or another file, at the filesystem root breaks one half of the condition each |
| AgentFiles.PointerExact | scripts/check-agent-instructions.py:77-115 | the ordered checks pass exactly a link to the canonical file or a small regular file with a pointer's text |
| AgentFiles.ControlCharacters | scripts/check-agent-instructions.py:110-114 | the code points that end a line and those that strip removes |
| AgentFiles.StripParts | scripts/check-agent-instructions.py:114 | every text is its core between characters that strip removes |
| AgentFiles.LinesCounted | scripts/check-agent-instructions.py:110 | lines ended by any breaks, and an unended rest, are counted as their number |
| InstructionChain.CanonicalOnce | scripts/check-agent-instructions.py:199-205 | the chain of any directory in the repository has the canonical file exactly once |
| InstructionChain.ValidateRepository | scripts/check-agent-instructions.py:167-208 | succeeds exactly when repository, canonical file, pointers and probe are in order, every ancestor's file is usable and the self-test passes; the occurrence check never fires |

## Left out

- Internals of HMAC-SHA256, RSA PKCS#1 v1.5, X.509, PEM, DER and SPKI: foreign code, taken as unconstrained functions; the three certificate failures of src/paypal.rs:155-165 are one error.
- The JSON and URL parsers: foreign code; a parsed value and a parsed URL are inputs.
- UTF-8: texts are sequences of Unicode scalar values, so the signed PayPal message is compared as text; only the ASCII decimal timestamp is turned into bytes.
- The timing of the constant-time comparison: only its result is modelled.
- Texts inside errors: replaced by an enumeration of their causes.
- `Provider` names and error display: conversions with no branching of interest.
- PayPal freshness, certificate fetching, caching and chain validation, downstream idempotency: outside the crate.
- Explorer.Explore: counts transitions in unbounded naturals, the source in u64; on the actual lifecycle the count is four.
- Explorer.Explore: the state space is given as a finite set closed under successors, which the source's two-field state always has.
- InstructionChain.ValidateRepository: the tree with the temporary directory in it is an input; creating and deleting that directory is not modelled.
- InstructionChain.DiscoverInstructionChain: the file system is a fixed tree with a resolution map; files that change during the walk are not modelled.
- Command-line arguments and printing of the two programs.
- env, just, Nix, shell and workflow files: no logic of the crate.
