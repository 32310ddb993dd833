/**
 * The entities the negotiation engine works on: media types, formats,
 * RTP header extensions, local devices, parsed remote media lines, and the
 * environment the call supplies (devices, preferences, hold state, ZRTP).
 */
module Media {
  import opened Wrappers
  import opened MediaDirection

  /** The media types, in the enumeration order of `MediaType.values()`. */
  datatype MediaType = Audio | Video

  const MediaTypes: seq<MediaType> := [Audio, Video]

  /** `MediaFormatFactory.CHANNELS_NOT_SPECIFIED`. */
  const ChannelsNotSpecified: int := -1

  /**
   * A codec instance. The clock rate is compared only for equality, so it is
   * an integer here; the channel count is meaningful for audio formats only.
   */
  datatype MediaFormat = MediaFormat(mediaType: MediaType, encoding: string, clockRate: int, channels: int)

  /** A URI through its two renderings: `toString()` and `toASCIIString()`. */
  datatype Uri = Uri(text: string, ascii: string)

  /** An RTP header extension: its URI, direction and opaque attribute string. */
  datatype RTPExtension = RTPExtension(uri: Uri, direction: Direction, attributes: string)

  /** A local capture/playback device as the engine sees it. */
  datatype Device = Device(direction: Direction, formats: seq<MediaFormat>, extensions: seq<RTPExtension>)

  /** Where a stream sends its data (`MediaStreamTarget`). */
  datatype StreamTarget = StreamTarget(host: string, dataPort: int)

  /**
   * One media line of a parsed remote description, with the pieces the
   * engine extracts from it: the recognised formats in remote order, the
   * default target, the announced direction and the RTP extensions (the
   * extractor may yield no list at all).
   */
  datatype RemoteLine = RemoteLine(
    mediaType: MediaType,
    formats: seq<MediaFormat>,
    target: StreamTarget,
    direction: Direction,
    extensions: Option<seq<RTPExtension>>)

  /** `lines[i]` is the last line of `lines` for media type `t`. */
  ghost predicate LastLineFor(lines: seq<RemoteLine>, t: MediaType, i: int) {
    && 0 <= i < |lines|
    && lines[i].mediaType == t
    && forall j :: i < j < |lines| ==> lines[j].mediaType != t
  }

  /** A handle on a ZRTP control; the engine only caches and queries it. */
  datatype ZrtpControl = ZrtpControl(handle: nat)

  /** `AbstractMediaStream.matches(format, mediaType, encoding, clockRate, channels)`. */
  type Matcher = (MediaFormat, MediaType, string, int, int) -> bool

  /** What the call and the media service supply to the handler. */
  datatype Env = Env(
    device: MediaType -> Option<Device>,
    preference: MediaType -> Direction,
    onHold: bool,
    zrtpAttribute: bool,
    helloHash: ZrtpControl -> Option<string>,
    matches: Matcher)

  /**
   * The direction the local side can use for `t`: the device's own direction
   * (INACTIVE when there is no device) narrowed by the user's preference.
   */
  function DeviceDirection(env: Env, t: MediaType): (d: Direction)
    ensures d.AtMost(env.preference(t))
    ensures env.device(t).None? ==> d == Inactive
    ensures env.device(t).Some? ==> d.AtMost(env.device(t).value.direction)
    ensures env.device(t).Some? ==>
              forall e: Direction :: e.AtMost(env.device(t).value.direction) && e.AtMost(env.preference(t)) ==> e.AtMost(d)
  {
    var own := match env.device(t) case None => Inactive case Some(dev) => dev.direction;
    own.And(env.preference(t))
  }

  /** The extensions the default device of `t` supports (`getExtensionsForType`). */
  function GetExtensionsForType(env: Env, t: MediaType): (r: seq<RTPExtension>)
    requires env.device(t).Some?
    ensures r == env.device(t).value.extensions
  {
    env.device(t).value.extensions
  }
}
