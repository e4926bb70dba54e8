/** The life of a stream (section 5.1 of RFC 7540). */
module StreamState {
  import opened Headers

  datatype Peer = AwaitingHeaders | Streaming

  /** How far one direction of a stream has come: its HEADERS are still to come, they came, END_STREAM came. */
  datatype Half = Waiting | Started | Done

  /** What HEADERS or data make of a direction. */
  function Onward(eos: bool): Half {
    if eos then Done else Started
  }

  /** Why a stream is closed. Error codes are left out; a scheduled reset is one whose RST_STREAM is still to be
      sent, after the data queued before it. */
  datatype Cause = EndStream | Proto | LocallyReset | Io | Scheduled

  datatype State =
    | Idle
    | Open(local: Peer, remote: Peer)
    | HalfClosedLocal(remote: Peer)
    | HalfClosedRemote(local: Peer)
    | Closed(cause: Cause)
  {
    /** The sending half, unless the stream was reset. */
    function SendHalf(): Half
      requires !IsReset()
    {
      match this
      case Idle => Waiting
      case Open(l, _) => if l == Streaming then Started else Waiting
      case HalfClosedLocal(_) => Done
      case HalfClosedRemote(l) => if l == Streaming then Started else Waiting
      case Closed(_) => Done
    }

    /** The receiving half, unless the stream was reset. */
    function RecvHalf(): Half
      requires !IsReset()
    {
      match this
      case Idle => Waiting
      case Open(_, r) => if r == Streaming then Started else Waiting
      case HalfClosedLocal(r) => if r == Streaming then Started else Waiting
      case HalfClosedRemote(_) => Done
      case Closed(_) => Done
    }

    /** The stream was not reset, and its halves are these. */
    predicate Stands(send: Half, recv: Half) {
      !IsReset() && SendHalf() == send && RecvHalf() == recv
    }

    /** HEADERS sent; `None` where that is an error: they are not the first. */
    function SendOpen(eos: bool): (r: Option<State>)
      ensures r.Some? <==> !IsReset() && SendHalf() == Waiting
      ensures r.Some? ==> r.value.Stands(Onward(eos), RecvHalf())
    {
      match this
      case Idle => Some(if eos then HalfClosedLocal(AwaitingHeaders) else Open(Streaming, AwaitingHeaders))
      case Open(AwaitingHeaders, r) => Some(if eos then HalfClosedLocal(r) else Open(Streaming, r))
      case HalfClosedRemote(AwaitingHeaders) => Some(if eos then Closed(EndStream) else HalfClosedRemote(Streaming))
      case _ => None
    }

    /** HEADERS received, the first of the peer, and whether they opened the stream. */
    function RecvOpen(eos: bool): (r: Option<(State, bool)>)
      ensures r.Some? <==> !IsReset() && RecvHalf() == Waiting
      ensures r.Some? ==> r.value.0.Stands(SendHalf(), Onward(eos)) && (r.value.1 <==> Idle?)
    {
      match this
      case Idle => Some((if eos then HalfClosedRemote(AwaitingHeaders) else Open(AwaitingHeaders, Streaming), true))
      case Open(l, AwaitingHeaders) => Some((if eos then HalfClosedRemote(l) else Open(l, Streaming), false))
      case HalfClosedLocal(AwaitingHeaders) => Some((if eos then Closed(EndStream)
                                                     else HalfClosedLocal(Streaming), false))
      case _ => None
    }

    /** END_STREAM received. */
    function RecvClose(): (r: Option<State>)
      ensures r.Some? <==> !IsReset() && !Idle? && RecvHalf() != Done
      ensures r.Some? ==> r.value.Stands(SendHalf(), Done)
    {
      match this
      case Open(l, _) => Some(HalfClosedRemote(l))
      case HalfClosedLocal(_) => Some(Closed(EndStream))
      case _ => None
    }

    /** END_STREAM sent. The source panics where there is nothing to close. */
    function SendClose(): State
      requires Open? || HalfClosedRemote?
    {
      match this
      case Open(_, r) => HalfClosedLocal(r)
      case HalfClosedRemote(_) => Closed(EndStream)
    }

    /** The stream moves on to `to` because of HEADERS or END_STREAM received. */
    predicate Receives(to: State) {
      || (RecvOpen(true).Some? && RecvOpen(true).value.0 == to)
      || (RecvOpen(false).Some? && RecvOpen(false).value.0 == to)
      || RecvClose() == Some(to)
    }

    /** RST_STREAM received. Only a stream that had come to its end, and has nothing to send, is left as it is. */
    function RecvReset(queued: bool): (s: State)
      ensures s.Closed? && (s == this || s == Closed(Proto))
      ensures !Closed? || queued ==> s.IsReset()
    {
      if Closed? && !queued then this else Closed(Proto)
    }

    /** The connection failed, or is gone. */
    function RecvErr(cause: Cause): (s: State)
      ensures s.Closed? && (Closed? ==> s == this)
    {
      if Closed? then this else Closed(cause)
    }

    predicate IsRecvHeaders() {
      Idle? || (Open? && remote == AwaitingHeaders) || (HalfClosedLocal? && remote == AwaitingHeaders)
    }

    predicate IsSendStreaming() {
      (Open? && local == Streaming) || (HalfClosedRemote? && local == Streaming)
    }

    predicate IsRecvStreaming() {
      (Open? && remote == Streaming) || (HalfClosedLocal? && remote == Streaming)
    }

    predicate IsSendClosed() {
      Closed? || HalfClosedLocal?
    }

    predicate IsScheduledReset() {
      Closed? && cause == Scheduled
    }

    predicate IsReset() {
      Closed? && cause != EndStream
    }

    predicate IsLocalReset() {
      Closed? && (cause == LocallyReset || cause == Scheduled)
    }

    /** Data may not be sent yet. */
    predicate BeforeSending() {
      !IsSendStreaming() && !IsSendClosed()
    }
  }

  /** END_STREAM sent closes the sending half and leaves the other. */
  lemma SendCloses(s: State)
    requires s.IsSendStreaming()
    ensures !s.IsReset() && s.SendHalf() == Started && s.SendClose().Stands(Done, s.RecvHalf())
  {
  }

  /** What the halves decide: a stream that was not reset is closed exactly if both are done, and it may send data and
      receive data, or HEADERS for the first time, according to them. */
  lemma HalvesDecide(s: State)
    ensures s == Closed(EndStream) <==> s.Stands(Done, Done)
    ensures s.Closed? <==> s.IsReset() || s.Stands(Done, Done)
    ensures s.IsSendStreaming() <==> !s.IsReset() && s.SendHalf() == Started
    ensures s.IsRecvStreaming() <==> !s.IsReset() && s.RecvHalf() == Started
    ensures s.IsRecvHeaders() <==> !s.IsReset() && s.RecvHalf() == Waiting
    ensures s.IsSendClosed() <==> s.IsReset() || s.SendHalf() == Done
    ensures s.BeforeSending() <==> !s.IsReset() && s.SendHalf() == Waiting
    ensures s.IsLocalReset() <==> s == Closed(LocallyReset) || s == Closed(Scheduled)
  {
  }
}
