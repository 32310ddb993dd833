/**
 * Handling the remote answer to a local offer (`processAnswer`): each line
 * closes, initialises, or (with no format) aborts; unlike answering an
 * offer, no accepted line is required.
 */
module AnswerProcessing {
  import opened Wrappers
  import opened Seqs
  import opened MediaDirection
  import opened Media
  import opened Extensions
  import opened StreamTable
  import opened Session

  /**
   * An answered line aborts the whole operation when it has a non-zero port
   * and a local device but no recognised format.
   */
  predicate AnswerLineFails(env: Env, line: RemoteLine) {
    line.target.dataPort != 0 && env.device(line.mediaType).Some? && |line.formats| == 0
  }

  /**
   * One iteration of the loop of `processAnswer`: a port of 0 or a missing
   * device closes the type's stream (these checks come before the format
   * check, so such a line never fails); an empty format list fails with
   * ILLEGAL_ARGUMENT; otherwise the stream is initialised with the first
   * remote format and the answer direction, even when that direction is INACTIVE.
   */
  function AnswerLineCall(env: Env, line: RemoteLine): (r: Result<StreamCall>)
    ensures r.Err? <==> AnswerLineFails(env, line)
    ensures r.Err? ==> r.error == IllegalArgument
    ensures r.Ok? ==> r.value.mediaType == line.mediaType
    ensures r.Ok? ==> (r.value.Close? <==> line.target.dataPort == 0 || env.device(line.mediaType).None?)
    ensures r.Ok? && r.value.Init? ==>
              var dev := env.device(line.mediaType).value;
              var cfg := r.value.cfg;
              && cfg.device == dev
              && cfg.format == line.formats[0]
              && cfg.target == line.target
              && cfg.direction == dev.direction.And(env.preference(line.mediaType)).ForAnswer(line.direction)
              && cfg.extensions == IntersectRTPExtensions(line.extensions, Some(dev.extensions))
  {
    var t := line.mediaType;
    if line.target.dataPort == 0 then Ok(Close(t))
    else match env.device(t)
      case None => Ok(Close(t))
      case Some(dev) =>
        // the device is present here, so the INACTIVE fallback of
        // `DeviceDirection` for a missing device is never taken
        var devDirection := DeviceDirection(env, t);
        if |line.formats| == 0 then Err(IllegalArgument)
        else
          var direction := devDirection.ForAnswer(line.direction);
          var extensions := IntersectRTPExtensions(line.extensions, Some(GetExtensionsForType(env, t)));
          Ok(Init(t, StreamCfg(dev, line.formats[0], line.target, direction, extensions)))
  }

  /** The stream calls made, in order, and whether a line aborted the loop. */
  datatype AnswerRun = AnswerRun(calls: seq<StreamCall>, failed: bool)

  /**
   * The loop of `processAnswer`: the lines before the first failing one
   * each make their call, in order; the loop stops at the first failing
   * line and otherwise runs to the end.
   */
  function AnswerCalls(env: Env, lines: seq<RemoteLine>): (r: AnswerRun)
    ensures |r.calls| <= |lines|
    ensures forall i :: 0 <= i < |r.calls| ==> AnswerLineCall(env, lines[i]) == Ok(r.calls[i])
    ensures r.failed ==> |r.calls| < |lines| && AnswerLineFails(env, lines[|r.calls|])
    ensures !r.failed ==> |r.calls| == |lines|
  {
    if |lines| == 0 then AnswerRun([], false)
    else
      var prefix := lines[..|lines| - 1];
      var before := AnswerCalls(env, prefix);
      assert forall i :: 0 <= i < |prefix| ==> prefix[i] == lines[i];
      if before.failed then before
      else match AnswerLineCall(env, lines[|lines| - 1])
        case Err(_) => AnswerRun(before.calls, true)
        case Ok(call) => AnswerRun(before.calls + [call], false)
  }

  /** The number of lines `processAnswer` gets through: up to the first failing line, or all. */
  function Processed(env: Env, lines: seq<RemoteLine>): (n: nat)
    ensures n <= |lines|
    ensures forall i :: 0 <= i < n ==> !AnswerLineFails(env, lines[i])
    ensures n < |lines| ==> AnswerLineFails(env, lines[n])
  {
    match FirstIndex(lines, (line: RemoteLine) => AnswerLineFails(env, line))
    case None => |lines|
    case Some(i) => i
  }

  /** The loop stops exactly at the first failing line. */
  lemma AnswerCallsStopAtFirstFailure(env: Env, lines: seq<RemoteLine>)
    ensures |AnswerCalls(env, lines).calls| == Processed(env, lines)
    ensures AnswerCalls(env, lines).failed <==> Processed(env, lines) < |lines|
  {
  }

  /**
   * `processAnswer` on a parsed answer. The answer becomes the remote
   * description and its call-info URL the handler's, even on failure. The
   * lines up to the first failing one make their stream calls: for each
   * media type the last of those lines of that type decides its stream, and
   * other types keep theirs. The operation fails with ILLEGAL_ARGUMENT
   * exactly when some line fails; nothing requires an accepted line. The
   * local description and the ZRTP cache are untouched.
   */
  function ProcessAnswer(env: Env, h: Handler, answer: RemoteDescription): (s: Step<()>)
    ensures s.handler.remoteSess == Some(answer)
    ensures s.handler.callInfoURL == answer.callInfoURL
    ensures s.handler.localSess == h.localSess && s.handler.zrtpControls == h.zrtpControls && s.handler.zrtpCreated == h.zrtpCreated
    ensures s.result.Err? <==> exists i :: 0 <= i < |answer.media| && AnswerLineFails(env, answer.media[i])
    ensures s.result.Err? ==> s.result.error == IllegalArgument
    ensures var n := Processed(env, answer.media);
            forall t :: (forall i :: 0 <= i < n ==> answer.media[i].mediaType != t) ==>
              AgreesAt(s.handler.streams, h.streams, t)
    ensures var n := Processed(env, answer.media);
            forall t, i :: LastLineFor(answer.media[..n], t, i) ==>
              Reflects(s.handler.streams, AnswerLineCall(env, answer.media[i]).value)
  {
    var h1 := h.(remoteSess := Some(answer));
    var h2 := SetCallInfoURL(h1, answer.callInfoURL);
    var run := AnswerCalls(env, answer.media);
    AnswerCallsStopAtFirstFailure(env, answer.media);
    var processed := answer.media[..|run.calls|];
    ApplyAllFollowsLines(h2.streams, run.calls, processed);
    assert forall i :: 0 <= i < |processed| ==> processed[i] == answer.media[i];
    var h3 := h2.(streams := ApplyAll(h2.streams, run.calls));
    if run.failed then Step(h3, Err(IllegalArgument))
    else Step(h3, Ok(()))
  }

  /**
   * An answer that declines every line (all ports 0) is accepted and closes
   * the stream of every answered media type.
   */
  lemma FullyDeclinedAnswerSucceeds(env: Env, h: Handler, answer: RemoteDescription)
    requires forall i :: 0 <= i < |answer.media| ==> answer.media[i].target.dataPort == 0
    ensures ProcessAnswer(env, h, answer).result.Ok?
    ensures forall i :: 0 <= i < |answer.media| ==> answer.media[i].mediaType !in ProcessAnswer(env, h, answer).handler.streams
  {
    var s := ProcessAnswer(env, h, answer);
    var n := Processed(env, answer.media);
    assert n == |answer.media|;
    assert answer.media[..n] == answer.media;
    forall i | 0 <= i < |answer.media|
      ensures answer.media[i].mediaType !in s.handler.streams
    {
      var t := answer.media[i].mediaType;
      var k := LastIndexOf(answer.media, t, i);
      assert LastLineFor(answer.media[..n], t, k);
      assert AnswerLineCall(env, answer.media[k]) == Ok(Close(t));
    }
  }

  /** The last line of type `t` at or after `i`, when `lines[i]` has type `t`. */
  ghost function LastIndexOf(lines: seq<RemoteLine>, t: MediaType, i: nat): (k: nat)
    requires i < |lines| && lines[i].mediaType == t
    ensures LastLineFor(lines, t, k)
    decreases |lines| - i
  {
    if exists j :: i < j < |lines| && lines[j].mediaType == t then
      var j :| i < j < |lines| && lines[j].mediaType == t;
      LastIndexOf(lines, t, j)
    else i
  }
}
