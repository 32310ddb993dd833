/**
 * The state of one call peer's media handler: the last local and remote
 * session descriptions, the call-info URL, the streams, the cached
 * ZRTP controls, and how many ZRTP controls the media service has created
 * for the handler (each new control gets that count as its handle, so it
 * differs from every control created before it).
 */
module Session {
  import opened Wrappers
  import opened MediaDirection
  import opened Media
  import opened StreamTable

  /**
   * A media line the engine emits: an accepted line (formats, direction,
   * extensions and an optional `zrtp-hash` attribute) or the disabling
   * answer to a declined remote line.
   */
  datatype MediaDescription =
    | Active(
        mediaType: MediaType,
        formats: seq<MediaFormat>,
        direction: Direction,
        extensions: seq<RTPExtension>,
        zrtpHash: Option<string>)
    | Disabling(declined: RemoteLine)

  /**
   * A local session description: a fresh one, or an update of a previous
   * one (which keeps the session identity and bumps its version).
   */
  datatype SessionDescription =
    | Fresh(media: seq<MediaDescription>)
    | Update(previous: SessionDescription, media: seq<MediaDescription>)

  /** A parsed remote session description: its media lines and call-info URL. */
  datatype RemoteDescription = RemoteDescription(media: seq<RemoteLine>, callInfoURL: Option<string>)

  /** The fields of `CallPeerMediaHandlerSipImpl` and its stream/ZRTP tables. */
  datatype Handler = Handler(
    localSess: Option<SessionDescription>,
    remoteSess: Option<RemoteDescription>,
    callInfoURL: Option<string>,
    streams: Streams,
    zrtpControls: map<MediaType, ZrtpControl>,
    zrtpCreated: nat)

  /** The handler before any negotiation. */
  const Initial := Handler(None, None, None, map[], map[], 0)

  /**
   * The outcome of an operation: the handler as the operation leaves it,
   * which a failure does not roll back, and the result or error.
   */
  datatype Step<+T> = Step(handler: Handler, result: Result<T>)

  function GetCallInfoURL(h: Handler): Option<string> {
    h.callInfoURL
  }

  /** Overwrites the call-info URL and nothing else. */
  function SetCallInfoURL(h: Handler, url: Option<string>): (h': Handler)
    ensures GetCallInfoURL(h') == url
    ensures h'.localSess == h.localSess && h'.remoteSess == h.remoteSess
    ensures h'.streams == h.streams && h'.zrtpControls == h.zrtpControls && h'.zrtpCreated == h.zrtpCreated
  {
    h.(callInfoURL := url)
  }
}
