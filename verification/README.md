# SDP offer/answer negotiation of a SIP call peer's media handler

This project models, in Dafny, the negotiation engine of Jitsi's
`CallPeerMediaHandlerSipImpl`: the handler that builds SDP offers, answers
remote offers and applies remote answers for one SIP call peer, following the
offer/answer model of RFC 3264 (section 5 for the initial offer, section 6
for the answer, section 8 for updates and hold) and negotiating RTP header
extensions as in section 6 of RFC 5285.

The handler is an immutable record (`Session.Handler`): the last local
description `localSess`, the last remote description `remoteSess`, the
call-info URL, the stream table (one stream per media type), the cache of
ZRTP controls, and a count of the ZRTP controls created so far. The media
service's `createZrtpControl()` returns a new control on every call; the
model gives each new control the current count as its handle, so it differs
from every control created before it. Every operation is a pure function from an environment and a
handler to a `Step`: the handler as the operation leaves it, and either a
result or an error code (`GeneralError` or `IllegalArgument`, the two codes
of `OperationFailedException` the code raises). As in the code, a failure
does not undo what was done before it: the remote description, the call-info
URL and the stream calls already made stay in place.

What the call supplies is an `Env`: the default device per media type, the
user's direction preference, the hold flag, whether the call uses the ZRTP
attribute, what hello hash a ZRTP control reports, and
the format-matching predicate `AbstractMediaStream.matches`, which is not part
of this model and so is a parameter.

Modules, leaves first:

- `Wrappers` — `Option`, `Result`, and the two error codes.
- `Seqs` — first-match search and filter-map over sequences, with the
  positions a filter keeps (`Kept`) as the reference for order and completeness.
- `MediaDirection` — a direction is a (send, receive) pair; `And` is the
  componentwise meet and `ForAnswer` is the answer rule of section 6.1 of
  RFC 3264. `MediaDirection` is not part of this model, so both are
  definitions here; the lemmas are facts about these definitions.
- `Media` — media types (`Audio`, `Video`, in enumeration order), formats,
  URIs, RTP extensions, devices, parsed remote media lines, the environment,
  and the local direction of a type (`DeviceDirection`).
  `GetExtensionsForType` models `getExtensionsForType` (lines 623-628); it
  requires the device to exist, as the code dereferences it.
- `FormatMatching` — `findMediaFormat` and `getAdvancedFormatParameters`.
- `Extensions` — `findExtension` and `intersectRTPExtensions`.
- `StreamTable` — the stream table and the `closeStream` / `initStream`
  calls that change it; `ApplyAll` performs a sequence of calls.
- `Session` — media descriptions, fresh/update session descriptions, parsed
  remote descriptions, the handler, and `get`/`setCallInfoURL`.
- `OfferGeneration` — `createOffer`, `createFirstOffer`, `createUpdateOffer`,
  `createMediaDescriptions`.
- `OfferProcessing` — `processOffer`, `processFirstOffer`,
  `processUpdateOffer`, `createMediaDescriptionsForAnswer`.
- `AnswerProcessing` — `processAnswer`.

The loops of the code read nothing from the stream table, so the model
collects each loop's stream calls in order and then performs them with
`ApplyAll`; the outcome is the same as performing each call in the loop.

The model states what the code does, including these behaviours:

- The code does no rollback. It sets `remoteSess` (lines 317, 353, 669) and
  the call-info URL (lines 451, 674) first. It also closes and initialises
  streams line by line (lines 485, 514, 685, 695, 736) before a later failure
  (lines 525-528, 707-713). All of these effects stay in place after the
  failure.
- `processAnswer` looks the device up (lines 691-697) before it checks for
  an empty format list (lines 707-713). A line with no device and no format
  therefore closes its stream and does not fail
  (`AnswerProcessing.AnswerLineCall`).
- The stream of an accepted offered line gets the first remote format,
  `supportedFormats.get(0)`, whether or not any local format matches it
  (lines 514, 736). The answer line advertises only the matching local
  formats, so it may advertise none
  (`OfferProcessing.AcceptedLineMayAdvertiseNoFormats`).
- `processAnswer` initialises the stream even when the local direction is
  INACTIVE (lines 699-737). The null test at line 700 is dead code, because
  for a missing device line 696 has already moved on to the next media line
  with `continue`.

## Model

All paths are in `src/net/java/sip/communicator/impl/protocol/sip/`; the
table gives them in full.

| member | source | states |
|---|---|---|
| MediaDirection.AndIsMeet | src/net/java/sip/communicator/impl/protocol/sip/CallPeerMediaHandlerSipImpl.java:178-182 | the direction meet used to narrow a device direction by preference and hold is commutative, associative and idempotent; INACTIVE absorbs and SENDRECV is neutral |
| MediaDirection.ForAnswerIsMeetWithReverse | src/net/java/sip/communicator/impl/protocol/sip/CallPeerMediaHandlerSipImpl.java:496-500 | the answer direction is the local direction met with the reverse of the offered one, so it never exceeds either |
| MediaDirection.ForAnswerTable | src/net/java/sip/communicator/impl/protocol/sip/CallPeerMediaHandlerSipImpl.java:533-545 | section 6.1 of RFC 3264 row by row: a SENDONLY offer is answered RECVONLY or INACTIVE, RECVONLY by SENDONLY or INACTIVE, INACTIVE by INACTIVE, SENDRECV by the local direction |
| Media.DeviceDirection | src/net/java/sip/communicator/impl/protocol/sip/CallPeerMediaHandlerSipImpl.java:462-469 | the local direction of a type is INACTIVE without a device; with one it is the meet of the device direction and the user preference: within both, and at least every direction within both |
| Media.GetExtensionsForType | src/net/java/sip/communicator/impl/protocol/sip/CallPeerMediaHandlerSipImpl.java:623-628 | the extensions of a type are exactly those of its default device, which must exist (the code dereferences it) |
| FormatMatching.FindMediaFormat | src/net/java/sip/communicator/impl/protocol/sip/CallPeerMediaHandlerSipImpl.java:403-422 | returns the first format of the list that matches the target on media type, encoding, clock rate and channels (unspecified for non-audio targets); none exactly when nothing matches |
| FormatMatching.GetAdvancedFormatParameters | src/net/java/sip/communicator/impl/protocol/sip/CallPeerMediaHandlerSipImpl.java:376-390 | at most one local format per remote format, in remote order, each the first local match of its remote format; every remote format with a local match contributes; every result element is a local format |
| FormatMatching.ExactOrWildcardMatchingIsReflexive | src/net/java/sip/communicator/impl/protocol/sip/CallPeerMediaHandlerSipImpl.java:403-422 | under the rule "equal type, encoding, clock rate, and equal channels unless one is unspecified", a format finds itself and an unspecified channel count matches any |
| Extensions.FindExtension | src/net/java/sip/communicator/impl/protocol/sip/CallPeerMediaHandlerSipImpl.java:602-609 | returns the first extension whose ASCII URI equals the given string; none exactly when no URI equals it |
| Extensions.IntersectRTPExtensions | src/net/java/sip/communicator/impl/protocol/sip/CallPeerMediaHandlerSipImpl.java:556-587 | empty when either list is missing; otherwise one entry per remote extension that a local one matches by URI, in remote order, none for the others; each entry has the first matching local URI, the answer direction of local over remote, and the remote attributes |
| Extensions.IntersectionComesFromBothSides | src/net/java/sip/communicator/impl/protocol/sip/CallPeerMediaHandlerSipImpl.java:556-587 | every negotiated extension carries a supported URI equal to a remote one, that remote extension's attributes, and a direction within both the local one and the reverse of the remote one |
| Extensions.NoSupportedExtensionsNegotiatesNone | src/net/java/sip/communicator/impl/protocol/sip/CallPeerMediaHandlerSipImpl.java:560-586 | a device that supports no extension negotiates none, whatever the remote side offers |
| Extensions.SendOnlyOfferIsReceived | src/net/java/sip/communicator/impl/protocol/sip/CallPeerMediaHandlerSipImpl.java:540-545 | any remote SENDONLY extension whose URI the device supports SENDRECV is answered, at its place in remote order, RECVONLY with the local URI and the remote attributes |
| StreamTable.Apply | src/net/java/sip/communicator/impl/protocol/sip/CallPeerMediaHandlerSipImpl.java:484-485 | closing removes the type's stream (a no-op when absent), initialising replaces it, and no other type's stream changes |
| StreamTable.ApplyAll | src/net/java/sip/communicator/impl/protocol/sip/CallPeerMediaHandlerSipImpl.java:455-523 | after a sequence of stream calls, the last call for each type decides its stream and types no call concerns keep theirs |
| StreamTable.ApplyAllFollowsLines | src/net/java/sip/communicator/impl/protocol/sip/CallPeerMediaHandlerSipImpl.java:676-738 | with one call per remote line, the last line of each type decides its stream and types without a line keep theirs |
| Session.SetCallInfoURL | src/net/java/sip/communicator/impl/protocol/sip/CallPeerMediaHandlerSipImpl.java:797-813 | after setting, `getCallInfoURL` returns the new URL (overwritten, not merged) and nothing else in the handler changes |
| OfferGeneration.OfferDirection | src/net/java/sip/communicator/impl/protocol/sip/CallPeerMediaHandlerSipImpl.java:178-182 | the offered direction is the meet of the device direction, the preference and, while on hold, SENDONLY: within all of them, and at least every direction within all of them |
| OfferGeneration.OfferedTypes | src/net/java/sip/communicator/impl/protocol/sip/CallPeerMediaHandlerSipImpl.java:172-184 | a type is offered exactly when it has a device and its narrowed direction is not INACTIVE |
| OfferGeneration.ZrtpHashOf | src/net/java/sip/communicator/impl/protocol/sip/CallPeerMediaHandlerSipImpl.java:206-208 | the `zrtp-hash` attribute is the control's hello hash exactly when that hash is present and non-empty, and absent otherwise |
| OfferGeneration.OfferLine | src/net/java/sip/communicator/impl/protocol/sip/CallPeerMediaHandlerSipImpl.java:174-217 | a type yields exactly one line when it is offered, and none (leaving the ZRTP cache and creation count alone) otherwise; with the ZRTP attribute an offered type without a cached control gets a newly created one, cached controls are never replaced, and the line carries the hash of the control cached for its type |
| OfferGeneration.OfferLines | src/net/java/sip/communicator/impl/protocol/sip/CallPeerMediaHandlerSipImpl.java:170-219 | one line per offered type in the order walked, each with the device's formats and extensions, the offered direction and the hash of the control the loop leaves cached for its type; the cache keeps its entries and gains exactly the offered types lacking one (when the attribute is used), each with a distinct newly created control, and nothing is created otherwise |
| OfferGeneration.OfferedTypesInEnumerationOrder | src/net/java/sip/communicator/impl/protocol/sip/CallPeerMediaHandlerSipImpl.java:172 | offered lines follow the enumeration order: audio before video |
| OfferGeneration.HoldNarrowsEveryLine | src/net/java/sip/communicator/impl/protocol/sip/CallPeerMediaHandlerSipImpl.java:181-182 | while on hold every offered line is at most SENDONLY |
| OfferGeneration.OfferFailsExactlyWhenNothingContributes | src/net/java/sip/communicator/impl/protocol/sip/CallPeerMediaHandlerSipImpl.java:221-231 | an offer has no line exactly when no media type is offered |
| OfferGeneration.CreateMediaDescriptions | src/net/java/sip/communicator/impl/protocol/sip/CallPeerMediaHandlerSipImpl.java:166-234 | the lines of an offer, one per offered type in enumeration order, at most SENDONLY on hold, with the hash of each type's cached control; the cache grows only by new, distinct controls for offered types; fails with GENERAL_ERROR exactly when no type is offered, and then the handler is unchanged |
| OfferGeneration.CreateFirstOffer | src/net/java/sip/communicator/impl/protocol/sip/CallPeerMediaHandlerSipImpl.java:137-151 | a successful first offer is a fresh description and becomes `localSess` |
| OfferGeneration.CreateUpdateOffer | src/net/java/sip/communicator/impl/protocol/sip/CallPeerMediaHandlerSipImpl.java:251-264 | a successful update offer updates the given description and becomes `localSess` |
| OfferGeneration.CreateOffer | src/net/java/sip/communicator/impl/protocol/sip/CallPeerMediaHandlerSipImpl.java:118-125 | fresh when `localSess` is absent, an update of it otherwise; on success `localSess` is the returned description, its lines described against the cache the offer leaves, cached controls kept and new distinct ones added exactly for offered types lacking one; fails with GENERAL_ERROR, handler unchanged, exactly when no type is offered; remote state and streams untouched |
| OfferGeneration.RebuildingMediaIsStable | src/net/java/sip/communicator/impl/protocol/sip/CallPeerMediaHandlerSipImpl.java:193-208 | building the media lines a second time gives the same lines, hashes included, and leaves the handler as the first build did: every offered type already has its cached control, so no control is created (a new one would have a different handle) |
| OfferGeneration.CreateOfferIsIdempotent | src/net/java/sip/communicator/impl/protocol/sip/CallPeerMediaHandlerSipImpl.java:193-204 | offering twice with nothing changed gives the same media lines, the second as an update of the first, reusing the cached ZRTP controls without creating any |
| OfferGeneration.OfferKeepsControlsDistinct | src/net/java/sip/communicator/impl/protocol/sip/CallPeerMediaHandlerSipImpl.java:197-203 | if the cached ZRTP controls are pairwise distinct and older than the creation count, they still are after an offer: a newly created control is never one already cached |
| OfferProcessing.MissingDeviceDeclines | src/net/java/sip/communicator/impl/protocol/sip/CallPeerMediaHandlerSipImpl.java:462-479 | a line whose type has no device is declined |
| OfferProcessing.AnswerFor | src/net/java/sip/communicator/impl/protocol/sip/CallPeerMediaHandlerSipImpl.java:455-523 | a line is declined exactly when it has no format, the local direction is INACTIVE or its port is 0; a declined line gets the disabling answer and closes its type's stream, an accepted one initialises it |
| OfferProcessing.AcceptedLineAnswer | src/net/java/sip/communicator/impl/protocol/sip/CallPeerMediaHandlerSipImpl.java:489-520 | an accepted line has a device; its stream gets the first remote format, the remote target, the answer direction (within device, preference and reversed offer) and the negotiated extensions; its answer advertises the matching local formats with that direction and those extensions |
| OfferProcessing.AcceptedLineMayAdvertiseNoFormats | src/net/java/sip/communicator/impl/protocol/sip/CallPeerMediaHandlerSipImpl.java:489-520 | an accepted line none of whose formats matches locally advertises no format yet still initialises its stream with the first remote format |
| OfferProcessing.AnswerLines | src/net/java/sip/communicator/impl/protocol/sip/CallPeerMediaHandlerSipImpl.java:453-523 | one answer line and one stream call per offered line, in order; some line is accepted exactly when some call initialises a stream |
| OfferProcessing.CreateMediaDescriptionsForAnswer | src/net/java/sip/communicator/impl/protocol/sip/CallPeerMediaHandlerSipImpl.java:439-531 | records the offer's call-info URL; answers every line in order; fails with ILLEGAL_ARGUMENT exactly when every line is declined, keeping the stream effects; the last line of each type decides its stream |
| OfferProcessing.ProcessFirstOffer | src/net/java/sip/communicator/impl/protocol/sip/CallPeerMediaHandlerSipImpl.java:313-328 | stores the offer as `remoteSess` first; on success a fresh answer becomes `localSess`; on failure `localSess` is unchanged |
| OfferProcessing.ProcessUpdateOffer | src/net/java/sip/communicator/impl/protocol/sip/CallPeerMediaHandlerSipImpl.java:347-364 | stores the offer as `remoteSess` first; on success an update of the previous answer becomes `localSess`; on failure `localSess` is unchanged |
| OfferProcessing.ProcessOffer | src/net/java/sip/communicator/impl/protocol/sip/CallPeerMediaHandlerSipImpl.java:285-294 | `remoteSess` and call-info URL come from the offer even on failure; one answer line per offered line in order; fresh answer if `localSess` was absent, else an update of it; ILLEGAL_ARGUMENT exactly when every line is declined, `localSess` then unchanged; the last line of each type decides its stream, other types keep theirs |
| AnswerProcessing.AnswerLineCall | src/net/java/sip/communicator/impl/protocol/sip/CallPeerMediaHandlerSipImpl.java:676-738 | port 0 or no device closes the stream; otherwise an empty format list fails with ILLEGAL_ARGUMENT; otherwise the stream is initialised with the first remote format and the answer direction, even when INACTIVE |
| AnswerProcessing.AnswerCalls | src/net/java/sip/communicator/impl/protocol/sip/CallPeerMediaHandlerSipImpl.java:676-738 | the lines before the first failing one make their calls in order; the loop stops at the first failing line and otherwise runs to the end |
| AnswerProcessing.Processed | src/net/java/sip/communicator/impl/protocol/sip/CallPeerMediaHandlerSipImpl.java:707-713 | the index of the first failing line, or the number of lines when none fails |
| AnswerProcessing.AnswerCallsStopAtFirstFailure | src/net/java/sip/communicator/impl/protocol/sip/CallPeerMediaHandlerSipImpl.java:707-713 | the loop makes exactly the calls of the lines before the first failing one, and fails exactly when such a line exists |
| AnswerProcessing.ProcessAnswer | src/net/java/sip/communicator/impl/protocol/sip/CallPeerMediaHandlerSipImpl.java:643-739 | `remoteSess` and call-info URL come from the answer even on failure; fails with ILLEGAL_ARGUMENT exactly when some line fails; among the lines before the first failure the last of each type decides its stream; no accepted line is required; `localSess` untouched |
| AnswerProcessing.FullyDeclinedAnswerSucceeds | src/net/java/sip/communicator/impl/protocol/sip/CallPeerMediaHandlerSipImpl.java:676-687 | an answer whose every port is 0 succeeds and leaves no stream for any answered type |

## Left out

- SDP parsing and rendering (`SdpUtils.parseSdpString`, `toString`): the
  engine receives parsed lines (`Media.RemoteLine`).
- Failures while reading a media line. The code extracts media type, formats,
  target, direction and extensions line by line inside its loops (lines
  457-474, 497-508, 678-689, 718-730). That happens after `remoteSess` (lines
  317, 353, 669) and the call-info URL (line 451) are set, and after earlier
  lines' streams were closed or initialised. A failure there keeps those
  effects. The model cannot express it, because its lines arrive already
  parsed.
- Failures of `getStreamConnector` (lines 189, 494, 715) and
  `createMediaDescription` (lines 187, 518). Both may throw
  `OperationFailedException` partway through a loop. In `createMediaDescriptions`
  the ZRTP controls of earlier types are then already cached. The model never
  fails there.
- OfferGeneration.CreateOffer: "handler unchanged on failure" holds only
  because the connector and media-description failures above cannot happen
  in the model; in the code such a failure leaves earlier ZRTP controls cached.
- The `SdpUtils` builders: `createSessionDescription` and
  `createSessionUpdateDescription` become the `Fresh` and `Update`
  constructors, and `createDisablingAnswer` becomes `Disabling`. Version and
  origin arithmetic, the local host (`getLastUsedLocalHost`) and the user name
  are not modelled.
- `createMediaDescription` and its payload-type and extension registries:
  an answer or offer line records the formats, direction and extensions
  passed to it.
- Stream connectors, port allocation and ICE (`getStreamConnector`): the
  model does not represent connectors at all; neither a stream configuration
  nor a media line carries one.
- The internals of `initStream` and `closeStream`, including a failure of
  `initStream`: both are modelled as updates of the stream table, keyed by the
  line's media type, and always succeed.
- What a ZRTP control is beyond its identity: creation gives a fresh handle
  and `getHelloHash` is an environment function of the control; an `SdpException` while attaching the `zrtp-hash`
  attribute (logged, attribute omitted) is not modelled.
- `AbstractMediaStream.matches` is not part of this model: the matching
  predicate is an environment parameter. `MediaFormatFactory` is not part of
  this model either; `CHANNELS_NOT_SPECIFIED` is taken as -1.
- Clock rates are `double` in the code and integers here; they are only
  compared through the matching predicate.
- A URI's `toString()` and `toASCIIString()` are kept as two fields of
  `Media.Uri`, since `findExtension` compares one with the other; their
  relation (percent-encoding of non-ASCII characters) is not modelled.
- `getIntendedDestination`, the network-address, configuration and media
  service getters, and `getDefaultDevice`'s lookup through the call: they are
  service plumbing, and the device lookup is an environment function.
- The `synchronized` modifier of `processAnswer`: the model is sequential.
- Logging and `throwOperationFailedException`: a thrown exception is an `Err`.
