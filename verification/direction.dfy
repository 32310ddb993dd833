/**
 * The media-direction algebra: a direction says whether the local side sends
 * and whether it receives.
 */
module MediaDirection {

  datatype Direction = Direction(send: bool, recv: bool) {

    /** `this` allows no more than `other`, in both senses. */
    predicate AtMost(other: Direction) {
      (send ==> other.send) && (recv ==> other.recv)
    }

    /** The capability meet (`MediaDirection.and`): the greatest direction allowed by both. */
    function And(other: Direction): (r: Direction)
      ensures r.AtMost(this) && r.AtMost(other)
      ensures forall d: Direction :: d.AtMost(this) && d.AtMost(other) ==> d.AtMost(r)
    {
      Direction(send && other.send, recv && other.recv)
    }

    /** The same flow seen from the other end of the line. */
    function Reverse(): Direction {
      Direction(recv, send)
    }

    /**
     * The direction to announce in an answer when the local side allows
     * `this` and the remote side offered `remote`, by the rules of
     * section 6.1 of RFC 3264 (`MediaDirection.getDirectionForAnswer`).
     */
    function ForAnswer(remote: Direction): (r: Direction)
      ensures r.send <==> send && remote.recv
      ensures r.recv <==> recv && remote.send
    {
      if remote == Inactive then Inactive
      else if remote == SendOnly then (if recv then RecvOnly else Inactive)
      else if remote == RecvOnly then (if send then SendOnly else Inactive)
      else this
    }
  }

  const SendRecv := Direction(true, true)
  const SendOnly := Direction(true, false)
  const RecvOnly := Direction(false, true)
  const Inactive := Direction(false, false)

  /** `And` is a commutative, idempotent meet with `Inactive` absorbing and `SendRecv` neutral. */
  lemma AndIsMeet(a: Direction, b: Direction, c: Direction)
    ensures a.And(b) == b.And(a)
    ensures a.And(b).And(c) == a.And(b.And(c))
    ensures a.And(a) == a
    ensures a.And(Inactive) == Inactive
    ensures a.And(SendRecv) == a
  {
  }

  /** Answering is the meet of the local capability with the reverse of the offer. */
  lemma ForAnswerIsMeetWithReverse(own: Direction, remote: Direction)
    ensures own.ForAnswer(remote) == own.And(remote.Reverse())
    ensures own.ForAnswer(remote).AtMost(own)
    ensures own.ForAnswer(remote).AtMost(remote.Reverse())
  {
  }

  /** The answer rules of section 6.1 of RFC 3264, row by row. */
  lemma ForAnswerTable(own: Direction)
    ensures own.ForAnswer(SendRecv) == own
    ensures own.ForAnswer(Inactive) == Inactive
    ensures own.ForAnswer(SendOnly) == (if own.recv then RecvOnly else Inactive)
    ensures own.ForAnswer(RecvOnly) == (if own.send then SendOnly else Inactive)
    ensures RecvOnly.ForAnswer(SendOnly) == RecvOnly
    ensures SendOnly.ForAnswer(SendOnly) == Inactive
  {
  }
}
