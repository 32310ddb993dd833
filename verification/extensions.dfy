/** Negotiating RTP header extensions (RFC 5285, section 6) between the remote offer and a local device. */
module Extensions {
  import opened Wrappers
  import opened Seqs
  import opened MediaDirection
  import opened Media

  /** The first extension of `extList` whose ASCII URI is `urn` (`findExtension`). */
  function FindExtension(extList: seq<RTPExtension>, urn: string): (r: Option<RTPExtension>)
    ensures r.None? <==> forall i :: 0 <= i < |extList| ==> extList[i].uri.ascii != urn
    ensures r.Some? ==> exists i :: 0 <= i < |extList| && extList[i] == r.value && r.value.uri.ascii == urn
                                   && forall j :: 0 <= j < i ==> extList[j].uri.ascii != urn
  {
    match FirstIndex(extList, (e: RTPExtension) => e.uri.ascii == urn)
    case None => None
    case Some(i) => Some(extList[i])
  }

  /**
   * `out` is what the engine answers to the remote extension `remote`: the
   * first supported extension with the same URI, carrying that local URI,
   * the answer direction of the local over the remote direction, and the
   * remote attributes.
   */
  predicate AnsweredBy(supported: seq<RTPExtension>, remote: RTPExtension, out: RTPExtension) {
    match FindExtension(supported, remote.uri.text)
    case None => false
    case Some(local) => out == Negotiated(local, remote)
  }

  /** The extension that answers `remote` with the matching `local` one. */
  function Negotiated(local: RTPExtension, remote: RTPExtension): RTPExtension {
    RTPExtension(local.uri, local.direction.ForAnswer(remote.direction), remote.attributes)
  }

  /** The answer to one remote extension, if the device supports it. */
  function AnswerTo(supported: seq<RTPExtension>): RTPExtension -> Option<RTPExtension> {
    (remote: RTPExtension) =>
      match FindExtension(supported, remote.uri.text)
      case None => None
      case Some(local) => Some(Negotiated(local, remote))
  }

  /**
   * The extensions both sides support (`intersectRTPExtensions`): nothing
   * when either list is missing; otherwise one answer per remote extension
   * the device supports, in remote order, and none for the others.
   */
  function IntersectRTPExtensions(remote: Option<seq<RTPExtension>>, supported: Option<seq<RTPExtension>>)
    : (r: seq<RTPExtension>)
    ensures remote.None? || supported.None? ==> r == []
    ensures remote.Some? && supported.Some? ==> |r| <= |remote.value|
    ensures remote.Some? && supported.Some? ==>
              var pos := Kept(remote.value, AnswerTo(supported.value));
              && |r| == |pos|
              && (forall j :: 0 <= j < |r| ==> AnsweredBy(supported.value, remote.value[pos[j]], r[j]))
              && (forall a, b :: 0 <= a < b < |pos| ==> pos[a] < pos[b])
              && (forall i :: 0 <= i < |remote.value| && FindExtension(supported.value, remote.value[i].uri.text).Some?
                    ==> i in pos)
  {
    if remote.None? || supported.None? then []
    else FilterMap(remote.value, AnswerTo(supported.value))
  }

  /**
   * A negotiated extension is a supported one answered on a remote one with
   * the same URI: its URI is local, its attributes remote, and its direction
   * allows no more than the local one and the reverse of the remote one.
   */
  predicate ComesFromBothSides(remote: RTPExtension, supported: seq<RTPExtension>, out: RTPExtension) {
    && out.uri.ascii == remote.uri.text
    && out.attributes == remote.attributes
    && out.direction.AtMost(remote.direction.Reverse())
    && exists l :: 0 <= l < |supported| && supported[l].uri == out.uri && out.direction.AtMost(supported[l].direction)
  }

  lemma AnsweredByComesFromBothSides(supported: seq<RTPExtension>, remote: RTPExtension, out: RTPExtension)
    requires AnsweredBy(supported, remote, out)
    ensures ComesFromBothSides(remote, supported, out)
  {
    var local := FindExtension(supported, remote.uri.text).value;
    var l :| 0 <= l < |supported| && supported[l] == local && local.uri.ascii == remote.uri.text;
    ForAnswerIsMeetWithReverse(local.direction, remote.direction);
    assert supported[l].uri == out.uri && out.direction.AtMost(supported[l].direction);
  }

  lemma {:induction false} IntersectionComesFromBothSides(remote: seq<RTPExtension>, supported: seq<RTPExtension>)
    ensures var r := IntersectRTPExtensions(Some(remote), Some(supported));
            forall j :: 0 <= j < |r| ==> exists i :: 0 <= i < |remote| && ComesFromBothSides(remote[i], supported, r[j])
  {
    var r := IntersectRTPExtensions(Some(remote), Some(supported));
    var pos := Kept(remote, AnswerTo(supported));
    forall j | 0 <= j < |r|
      ensures exists i :: 0 <= i < |remote| && ComesFromBothSides(remote[i], supported, r[j])
    {
      AnsweredByComesFromBothSides(supported, remote[pos[j]], r[j]);
    }
  }

  /** A device that supports no extension negotiates none, whatever the remote offers. */
  lemma NoSupportedExtensionsNegotiatesNone(remote: Option<seq<RTPExtension>>)
    ensures IntersectRTPExtensions(remote, Some([])) == []
  {
    if remote.Some? {
      var pos := Kept(remote.value, AnswerTo([]));
      KeptNothing(remote.value, AnswerTo([]));
      assert |IntersectRTPExtensions(remote, Some([]))| == |pos|;
    }
  }

  /**
   * A remote SENDONLY extension whose URI the device supports SENDRECV is
   * answered RECVONLY, with the local URI and the remote attributes, at its
   * place among the negotiated extensions.
   */
  lemma {:induction false} SendOnlyOfferIsReceived(remote: seq<RTPExtension>, supported: seq<RTPExtension>, i: nat)
    requires i < |remote| && remote[i].direction == SendOnly
    requires FindExtension(supported, remote[i].uri.text).Some?
    requires FindExtension(supported, remote[i].uri.text).value.direction == SendRecv
    ensures var r := IntersectRTPExtensions(Some(remote), Some(supported));
            var pos := Kept(remote, AnswerTo(supported));
            exists j :: 0 <= j < |r| && pos[j] == i
                        && r[j] == RTPExtension(FindExtension(supported, remote[i].uri.text).value.uri, RecvOnly,
                                                remote[i].attributes)
  {
    var r := IntersectRTPExtensions(Some(remote), Some(supported));
    var pos := Kept(remote, AnswerTo(supported));
    assert i in pos;
    var j :| 0 <= j < |pos| && pos[j] == i;
    assert AnsweredBy(supported, remote[i], r[j]);
    assert SendRecv.ForAnswer(SendOnly) == RecvOnly;
  }
}
