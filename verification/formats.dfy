/** Matching remote media formats against the formats a local device supports. */
module FormatMatching {
  import opened Wrappers
  import opened Seqs
  import opened Media

  /** The channel count looked for: the format's own for audio, unspecified otherwise. */
  function TargetChannels(format: MediaFormat): int {
    if format.mediaType == Audio then format.channels else ChannelsNotSpecified
  }

  /** `candidate` matches `format` on media type, encoding, clock rate and channels. */
  predicate MatchesTarget(matches: Matcher, candidate: MediaFormat, format: MediaFormat) {
    matches(candidate, format.mediaType, format.encoding, format.clockRate, TargetChannels(format))
  }

  /** The first format of `formats` that matches `format` (`findMediaFormat`). */
  function FindMediaFormat(matches: Matcher, formats: seq<MediaFormat>, format: MediaFormat): (r: Option<MediaFormat>)
    ensures r.None? <==> forall i :: 0 <= i < |formats| ==> !MatchesTarget(matches, formats[i], format)
    ensures r.Some? ==> exists i :: 0 <= i < |formats| && formats[i] == r.value
                                   && MatchesTarget(matches, formats[i], format)
                                   && forall j :: 0 <= j < i ==> !MatchesTarget(matches, formats[j], format)
  {
    match FirstIndex(formats, (f: MediaFormat) => MatchesTarget(matches, f, format))
    case None => None
    case Some(i) => Some(formats[i])
  }

  /** Looking a remote format up among the local ones. */
  function LocalMatch(matches: Matcher, local: seq<MediaFormat>): MediaFormat -> Option<MediaFormat> {
    remoteFormat => FindMediaFormat(matches, local, remoteFormat)
  }

  /**
   * The local formats that match the remote ones (`getAdvancedFormatParameters`):
   * one entry per remote format that has a local match, in remote order, each
   * the first matching local format.
   */
  function GetAdvancedFormatParameters(matches: Matcher, remote: seq<MediaFormat>, local: seq<MediaFormat>)
    : (r: seq<MediaFormat>)
    ensures |r| <= |remote|
    ensures forall f :: f in r ==> f in local
    ensures var pos := Kept(remote, LocalMatch(matches, local));
            && |r| == |pos|
            && (forall j :: 0 <= j < |r| ==> FindMediaFormat(matches, local, remote[pos[j]]) == Some(r[j]))
            && (forall a, b :: 0 <= a < b < |pos| ==> pos[a] < pos[b])
            && (forall i :: 0 <= i < |remote| && FindMediaFormat(matches, local, remote[i]).Some? ==> i in pos)
  {
    var r := FilterMap(remote, LocalMatch(matches, local));
    assert forall j :: 0 <= j < |r| ==> r[j] in local by {
      forall j | 0 <= j < |r|
        ensures r[j] in local
      {
        var k := Kept(remote, LocalMatch(matches, local))[j];
        assert FindMediaFormat(matches, local, remote[k]) == Some(r[j]);
      }
    }
    r
  }

  /**
   * A concrete matching rule: equal media type, encoding and clock rate, and
   * equal channel counts unless either side leaves the count unspecified.
   */
  predicate ExactOrWildcardChannels(candidate: MediaFormat, t: MediaType, encoding: string, clockRate: int, channels: int) {
    && candidate.mediaType == t
    && candidate.encoding == encoding
    && candidate.clockRate == clockRate
    && (channels == ChannelsNotSpecified || candidate.channels == ChannelsNotSpecified || candidate.channels == channels)
  }

  /** Under that rule every format finds itself, and an unspecified channel count matches any. */
  lemma ExactOrWildcardMatchingIsReflexive(f: MediaFormat, g: MediaFormat)
    ensures FindMediaFormat(ExactOrWildcardChannels, [f], f) == Some(f)
    ensures (g.channels == ChannelsNotSpecified && g.mediaType == f.mediaType && g.encoding == f.encoding
             && g.clockRate == f.clockRate) ==> FindMediaFormat(ExactOrWildcardChannels, [g], f) == Some(g)
  {
    assert MatchesTarget(ExactOrWildcardChannels, f, f);
  }
}
