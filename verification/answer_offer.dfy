/**
 * Answering a remote offer (`processOffer`, `processFirstOffer`,
 * `processUpdateOffer`, `createMediaDescriptionsForAnswer`): one answer line
 * per offered line, in order, each either declined or accepted with
 * negotiated formats, direction and extensions.
 */
module OfferProcessing {
  import opened Wrappers
  import opened MediaDirection
  import opened Media
  import opened FormatMatching
  import opened Extensions
  import opened StreamTable
  import opened Session

  /**
   * The engine declines an offered line when it lists no recognised format,
   * when the local direction for its type is INACTIVE, or when its target
   * port is 0.
   */
  predicate Declines(env: Env, line: RemoteLine) {
    || |line.formats| == 0
    || DeviceDirection(env, line.mediaType) == Inactive
    || line.target.dataPort == 0
  }

  /** A type without a device counts as INACTIVE, so its lines are declined. */
  lemma MissingDeviceDeclines(env: Env, line: RemoteLine)
    requires env.device(line.mediaType).None?
    ensures Declines(env, line)
  {
  }

  /** The answer line for one offered line and the stream call it causes. */
  datatype LineAnswer = LineAnswer(description: MediaDescription, call: StreamCall)

  /**
   * One iteration of the loop of `createMediaDescriptionsForAnswer`: a
   * declined line gets a disabling answer and closes its type's stream; an
   * accepted one initialises it (see `AcceptedLineAnswer`).
   */
  function AnswerFor(env: Env, line: RemoteLine): (r: LineAnswer)
    ensures r.call.mediaType == line.mediaType
    ensures r.call.Init? <==> !Declines(env, line)
    ensures Declines(env, line) ==> r.description == Disabling(line) && r.call == Close(line.mediaType)
  {
    var t := line.mediaType;
    var devDirection := DeviceDirection(env, t);
    if |line.formats| == 0 || devDirection == Inactive || line.target.dataPort == 0 then
      // mark the line as dead and close any stream of its type
      LineAnswer(Disabling(line), Close(t))
    else
      var dev := env.device(t).value;
      var advanced := GetAdvancedFormatParameters(env.matches, line.formats, dev.formats);
      var direction := devDirection.ForAnswer(line.direction);
      var extensions := IntersectRTPExtensions(line.extensions, Some(GetExtensionsForType(env, t)));
      LineAnswer(Active(t, advanced, direction, extensions, None),
                 Init(t, StreamCfg(dev, line.formats[0], line.target, direction, extensions)))
  }

  /**
   * An accepted line has a device. Its stream is initialised with the first
   * remote format (whether or not it matches a local one), the answer
   * direction of the local direction over the offered one, and the
   * negotiated extensions. Its answer advertises the local formats matching
   * the offered ones, that same direction and those same extensions, and no
   * ZRTP hash.
   */
  lemma AcceptedLineAnswer(env: Env, line: RemoteLine)
    requires !Declines(env, line)
    ensures env.device(line.mediaType).Some?
    ensures var r := AnswerFor(env, line);
            var dev := env.device(line.mediaType).value;
            var cfg := r.call.cfg;
            && cfg.device == dev
            && cfg.format == line.formats[0]
            && cfg.target == line.target
            && cfg.direction == DeviceDirection(env, line.mediaType).ForAnswer(line.direction)
            && cfg.direction.AtMost(dev.direction)
            && cfg.direction.AtMost(env.preference(line.mediaType))
            && cfg.direction.AtMost(line.direction.Reverse())
            && cfg.extensions == IntersectRTPExtensions(line.extensions, Some(dev.extensions))
            && r.description == Active(line.mediaType, GetAdvancedFormatParameters(env.matches, line.formats, dev.formats),
                                       cfg.direction, cfg.extensions, None)
            && forall f :: f in r.description.formats ==> f in dev.formats
  {
    ForAnswerIsMeetWithReverse(DeviceDirection(env, line.mediaType), line.direction);
  }

  /**
   * An accepted line whose formats match none of the device's advertises no
   * format at all, while its stream is still initialised with the first
   * offered format.
   */
  lemma AcceptedLineMayAdvertiseNoFormats(env: Env, line: RemoteLine)
    requires !Declines(env, line)
    requires forall i :: 0 <= i < |line.formats| ==>
               FindMediaFormat(env.matches, env.device(line.mediaType).value.formats, line.formats[i]).None?
    ensures AnswerFor(env, line).description.formats == []
    ensures AnswerFor(env, line).call.cfg.format == line.formats[0]
  {
    var dev := env.device(line.mediaType).value;
    Seqs.KeptNothing(line.formats, LocalMatch(env.matches, dev.formats));
  }

  /** The answer lines and stream calls of the loop so far, and whether a line was accepted. */
  datatype AnswerFold = AnswerFold(media: seq<MediaDescription>, calls: seq<StreamCall>, accepted: bool)

  /**
   * The loop of `createMediaDescriptionsForAnswer`: one answer line and one
   * stream call per offered line, in order, and `accepted` exactly when some
   * line was not declined.
   */
  function AnswerLines(env: Env, lines: seq<RemoteLine>): (r: AnswerFold)
    ensures |r.media| == |lines| && |r.calls| == |lines|
    ensures forall i :: 0 <= i < |lines| ==>
              r.media[i] == AnswerFor(env, lines[i]).description && r.calls[i] == AnswerFor(env, lines[i]).call
    ensures r.accepted <==> exists i :: 0 <= i < |lines| && r.calls[i].Init?
  {
    if |lines| == 0 then AnswerFold([], [], false)
    else
      var prefix := lines[..|lines| - 1];
      var last := lines[|lines| - 1];
      var before := AnswerLines(env, prefix);
      var answer := AnswerFor(env, last);
      var r := AnswerFold(before.media + [answer.description], before.calls + [answer.call],
                          before.accepted || answer.call.Init?);
      assert forall i :: 0 <= i < |lines| ==>
               r.media[i] == AnswerFor(env, lines[i]).description && r.calls[i] == AnswerFor(env, lines[i]).call by {
        forall i | 0 <= i < |lines|
          ensures r.media[i] == AnswerFor(env, lines[i]).description && r.calls[i] == AnswerFor(env, lines[i]).call
        {
          if i < |prefix| {
            assert prefix[i] == lines[i];
            assert r.media[i] == before.media[i] && r.calls[i] == before.calls[i];
          } else {
            assert lines[i] == last;
          }
        }
      }
      assert r.accepted <==> exists i :: 0 <= i < |lines| && r.calls[i].Init? by {
        if before.accepted {
          var i :| 0 <= i < |prefix| && before.calls[i].Init?;
          assert r.calls[i] == before.calls[i];
        } else if answer.call.Init? {
          assert r.calls[|lines| - 1].Init?;
        } else {
          forall i | 0 <= i < |lines|
            ensures !r.calls[i].Init?
          {
            if i < |prefix| {
              assert r.calls[i] == before.calls[i];
            }
          }
        }
      }
      r
  }

  /**
   * `createMediaDescriptionsForAnswer`: records the offer's call-info URL,
   * performs the stream calls of every line, and returns the answer lines;
   * fails with ILLEGAL_ARGUMENT, without undoing those effects, when every
   * line was declined.
   */
  function CreateMediaDescriptionsForAnswer(env: Env, h: Handler, offer: RemoteDescription)
    : (s: Step<seq<MediaDescription>>)
    ensures s.handler.callInfoURL == offer.callInfoURL
    ensures s.handler.localSess == h.localSess && s.handler.remoteSess == h.remoteSess
    ensures s.handler.zrtpControls == h.zrtpControls && s.handler.zrtpCreated == h.zrtpCreated
    ensures s.result.Err? <==> forall i :: 0 <= i < |offer.media| ==> Declines(env, offer.media[i])
    ensures s.result.Err? ==> s.result.error == IllegalArgument
    ensures s.result.Ok? ==>
              && |s.result.value| == |offer.media|
              && forall i :: 0 <= i < |offer.media| ==> s.result.value[i] == AnswerFor(env, offer.media[i]).description
    ensures forall t :: (forall i :: 0 <= i < |offer.media| ==> offer.media[i].mediaType != t) ==>
              AgreesAt(s.handler.streams, h.streams, t)
    ensures forall t, i :: LastLineFor(offer.media, t, i) ==>
              Reflects(s.handler.streams, AnswerFor(env, offer.media[i]).call)
  {
    var h1 := SetCallInfoURL(h, offer.callInfoURL);
    var fold := AnswerLines(env, offer.media);
    ApplyAllFollowsLines(h1.streams, fold.calls, offer.media);
    var h2 := h1.(streams := ApplyAll(h1.streams, fold.calls));
    if !fold.accepted then Step(h2, Err(IllegalArgument))
    else Step(h2, Ok(fold.media))
  }

  /** `processFirstOffer`: remembers the offer and answers it with a fresh description. */
  function ProcessFirstOffer(env: Env, h: Handler, offer: RemoteDescription): (s: Step<SessionDescription>)
    ensures s.handler.remoteSess == Some(offer)
    ensures s.result.Ok? ==> s.result.value.Fresh? && s.handler.localSess == Some(s.result.value)
    ensures s.result.Err? ==> s.handler.localSess == h.localSess
  {
    var h1 := h.(remoteSess := Some(offer));
    var built := CreateMediaDescriptionsForAnswer(env, h1, offer);
    match built.result
    case Err(e) => Step(built.handler, Err(e))
    case Ok(media) =>
      var answer := Fresh(media);
      Step(built.handler.(localSess := Some(answer)), Ok(answer))
  }

  /** `processUpdateOffer`: remembers the offer and answers it with an update of `previousAnswer`. */
  function ProcessUpdateOffer(env: Env, h: Handler, offer: RemoteDescription, previousAnswer: SessionDescription)
    : (s: Step<SessionDescription>)
    ensures s.handler.remoteSess == Some(offer)
    ensures s.result.Ok? ==>
              s.result.value.Update? && s.result.value.previous == previousAnswer
              && s.handler.localSess == Some(s.result.value)
    ensures s.result.Err? ==> s.handler.localSess == h.localSess
  {
    var h1 := h.(remoteSess := Some(offer));
    var built := CreateMediaDescriptionsForAnswer(env, h1, offer);
    match built.result
    case Err(e) => Step(built.handler, Err(e))
    case Ok(media) =>
      var newAnswer := Update(previousAnswer, media);
      Step(built.handler.(localSess := Some(newAnswer)), Ok(newAnswer))
  }

  /**
   * `processOffer` on a parsed offer. The offer becomes the remote
   * description and its call-info URL the handler's, even on failure. The
   * answer has one line per offered line, in order; it is fresh when no
   * local description exists yet and otherwise updates the current one, and
   * becomes the local description. The operation fails with
   * ILLEGAL_ARGUMENT exactly when every line is declined, leaving the local
   * description as it was but the stream calls made. For each media type
   * the last offered line of that type decides its stream; other types keep theirs.
   */
  function ProcessOffer(env: Env, h: Handler, offer: RemoteDescription): (s: Step<SessionDescription>)
    ensures s.handler.remoteSess == Some(offer)
    ensures s.handler.callInfoURL == offer.callInfoURL
    ensures s.handler.zrtpControls == h.zrtpControls && s.handler.zrtpCreated == h.zrtpCreated
    ensures s.result.Err? <==> forall i :: 0 <= i < |offer.media| ==> Declines(env, offer.media[i])
    ensures s.result.Err? ==> s.result.error == IllegalArgument && s.handler.localSess == h.localSess
    ensures s.result.Ok? ==> s.handler.localSess == Some(s.result.value)
    ensures s.result.Ok? && h.localSess.None? ==> s.result.value.Fresh?
    ensures s.result.Ok? && h.localSess.Some? ==>
              s.result.value.Update? && s.result.value.previous == h.localSess.value
    ensures s.result.Ok? ==>
              && |s.result.value.media| == |offer.media|
              && forall i :: 0 <= i < |offer.media| ==>
                   s.result.value.media[i] == AnswerFor(env, offer.media[i]).description
    ensures forall t :: (forall i :: 0 <= i < |offer.media| ==> offer.media[i].mediaType != t) ==>
              AgreesAt(s.handler.streams, h.streams, t)
    ensures forall t, i :: LastLineFor(offer.media, t, i) ==>
              Reflects(s.handler.streams, AnswerFor(env, offer.media[i]).call)
    ensures h.localSess.Some? ==> s.handler.localSess.Some?
  {
    if h.localSess.None? then ProcessFirstOffer(env, h, offer)
    else ProcessUpdateOffer(env, h, offer, h.localSess.value)
  }
}
