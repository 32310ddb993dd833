/**
 * The handler's table of media streams, one per media type, and the
 * stream-lifecycle calls (`closeStream`, `initStream`) that change it.
 */
module StreamTable {
  import opened MediaDirection
  import opened Media

  /** The arguments a stream was initialised with by `initStream`. */
  datatype StreamCfg = StreamCfg(
    device: Device,
    format: MediaFormat,
    target: StreamTarget,
    direction: Direction,
    extensions: seq<RTPExtension>)

  /** One stream-lifecycle call for a media type. */
  datatype StreamCall = Close(mediaType: MediaType) | Init(mediaType: MediaType, cfg: StreamCfg)

  /** At most one stream per media type. */
  type Streams = map<MediaType, StreamCfg>

  /** `a` and `b` hold the same stream (or none) for `t`. */
  predicate AgreesAt(a: Streams, b: Streams, t: MediaType) {
    (t in a <==> t in b) && (t in a ==> a[t] == b[t])
  }

  /** The table shows the effect of `call` for its media type. */
  predicate Reflects(m: Streams, call: StreamCall) {
    match call
    case Close(t) => t !in m
    case Init(t, cfg) => t in m && m[t] == cfg
  }

  /** Performs one call: closing removes the stream (a no-op when absent), initialising replaces it. */
  function Apply(m: Streams, call: StreamCall): (r: Streams)
    ensures Reflects(r, call)
    ensures forall t :: t != call.mediaType ==> AgreesAt(r, m, t)
  {
    match call
    case Close(t) => m - {t}
    case Init(t, cfg) => m[t := cfg]
  }

  /** `calls[i]` is the last call in `calls` that concerns `t`. */
  ghost predicate LastCallFor(calls: seq<StreamCall>, t: MediaType, i: int) {
    && 0 <= i < |calls|
    && calls[i].mediaType == t
    && forall j :: i < j < |calls| ==> calls[j].mediaType != t
  }

  /**
   * Performs `calls` in order. For every media type the last call that
   * concerns it decides its entry; types no call concerns keep theirs.
   */
  function ApplyAll(m: Streams, calls: seq<StreamCall>): (r: Streams)
    ensures forall t :: (forall i :: 0 <= i < |calls| ==> calls[i].mediaType != t) ==> AgreesAt(r, m, t)
    ensures forall t, i :: LastCallFor(calls, t, i) ==> Reflects(r, calls[i])
  {
    if |calls| == 0 then m
    else
      var prefix := calls[..|calls| - 1];
      var last := calls[|calls| - 1];
      var before := ApplyAll(m, prefix);
      assert forall t, i :: LastCallFor(calls, t, i) && i < |calls| - 1 ==> LastCallFor(prefix, t, i);
      assert forall t :: (forall i :: 0 <= i < |calls| ==> calls[i].mediaType != t) ==> AgreesAt(Apply(before, last), m, t) by {
        forall t | forall i :: 0 <= i < |calls| ==> calls[i].mediaType != t
          ensures AgreesAt(Apply(before, last), m, t)
        {
          assert last.mediaType != t;
          assert AgreesAt(Apply(before, last), before, t);
          assert forall i :: 0 <= i < |prefix| ==> prefix[i].mediaType != t by {
            forall i | 0 <= i < |prefix| ensures prefix[i].mediaType != t {
              assert prefix[i] == calls[i];
            }
          }
          assert AgreesAt(before, m, t);
        }
      }
      Apply(before, last)
  }

  /**
   * When the calls are made one per remote line, for the line's media type,
   * the last line of each type decides its stream and types without a line
   * keep theirs.
   */
  lemma ApplyAllFollowsLines(m: Streams, calls: seq<StreamCall>, lines: seq<RemoteLine>)
    requires |calls| == |lines|
    requires forall j :: 0 <= j < |calls| ==> calls[j].mediaType == lines[j].mediaType
    ensures forall t :: (forall i :: 0 <= i < |lines| ==> lines[i].mediaType != t) ==> AgreesAt(ApplyAll(m, calls), m, t)
    ensures forall t, i :: LastLineFor(lines, t, i) ==> Reflects(ApplyAll(m, calls), calls[i])
  {
    assert forall t, i :: LastLineFor(lines, t, i) ==> LastCallFor(calls, t, i);
  }
}
