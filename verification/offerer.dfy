/**
 * The browser-side offerer (webrtc_wasm/src/lib.rs).
 *
 * `start` creates a socket and a peer connection, registers callbacks and
 * then waits twice: for `make_offer` to return the local offer and for the
 * socket's open event, which reaches it through a one-shot channel whose
 * sender the open callback takes out of a shared cell. Only after both
 * does it send the offer. The callbacks are modelled as events: the pure
 * function Step says what each event does to the state `start` captures,
 * and the class Offerer performs the same updates in place.
 *
 * Four browser calls on the peer connection are recorded as PeerAction
 * values in a log: adding the transceiver, setting the local and the
 * remote description, and adding a remote candidate. `create_offer` is
 * not logged; its outcome is the parameter of the offer-ready event.
 * Registering the track and candidate callbacks is not logged either.
 * Text written to the socket is recorded as the Signal it encodes (its
 * frame is Encode of that Signal).
 */
module Offerer {
  import opened Wrappers
  import opened JsonValue
  import opened Signals

  datatype SdpType = OfferSdp | AnswerSdp

  /** The calls the offerer makes on its peer connection. */
  datatype PeerAction =
    | AddRecvOnlyTransceiver(kind: string)
    | SetLocalDescription(sdpType: SdpType, sdp: string)
    | SetRemoteDescription(sdpType: SdpType, sdp: string)
    | AddIceCandidate(candidate: string, sdpMLineIndex: Option<u16>)

  /** A locally gathered candidate as the ICE event reports it. */
  datatype RtcIceCandidate = RtcIceCandidate(candidate: string, sdpMLineIndex: Option<u16>)

  /**
   * The data of a socket message event: a text frame, whose JSON parse is
   * None when the text is not JSON at all, or a binary frame.
   */
  datatype MessageData = Text(parsed: Option<Json>) | NonText

  // ------------------------------------------------------------ on_signal

  /** The peer action an inbound Signal causes, if any. */
  function OnSignal(s: Signal): (r: Option<PeerAction>)
    ensures r.None? <==> s.WebRtcOffer?
    ensures s.WebRtcAnswer? ==> r == Some(SetRemoteDescription(AnswerSdp, s.answer.webrtcData.sdp))
    ensures s.IceCandidate? ==>
      r == Some(AddIceCandidate(s.ice.webrtcData.candidate, s.ice.webrtcData.sdpMLineIndex))
  {
    match s
    case WebRtcOffer(_) => None
    case WebRtcAnswer(d) => Some(SetRemoteDescription(AnswerSdp, d.webrtcData.sdp))
    case IceCandidate(d) => Some(AddIceCandidate(d.webrtcData.candidate, d.webrtcData.sdpMLineIndex))
  }

  /** The message callback: a text frame that decodes as a Signal is dispatched, anything else dropped. */
  function Receive(m: MessageData): (r: Option<PeerAction>)
    ensures r.Some? ==> m.Text? && m.parsed.Some? && Decode(m.parsed.value).Ok?
    ensures m.Text? && m.parsed.Some? && Decode(m.parsed.value).Ok? ==> r == OnSignal(Decode(m.parsed.value).value)
  {
    match m
    case NonText => None
    case Text(None) => None
    case Text(Some(j)) =>
      match Decode(j)
      case Err(_) => None
      case Ok(s) => OnSignal(s)
  }

  /** A frame this crate itself produced is dispatched as the Signal it encodes. */
  lemma ReceiveEncoded(s: Signal)
    ensures Receive(Text(Some(Encode(s)))) == OnSignal(s)
  {
    RoundTrip(s);
  }

  /**
   * Two inbound Signals of the same variant with the same payload cause
   * the same action: the session id, and for answers the `type` member,
   * play no part.
   */
  lemma OnSignalIgnoresSessionId(a: Signal, b: Signal)
    requires KindOf(a) == KindOf(b)
    requires a.WebRtcAnswer? ==> a.answer.webrtcData.sdp == b.answer.webrtcData.sdp
    requires a.IceCandidate? ==> a.ice.webrtcData == b.ice.webrtcData
    ensures OnSignal(a) == OnSignal(b)
  {
  }

  // ------------------------------------------------------------ send_signal, make_offer

  /** Why a write to the socket fails: it is not yet open. */
  datatype SendError = InvalidState

  /** What `send_signal` returns and the frame it writes, if any. */
  datatype SendOutcome = SendOutcome(result: Result<(), SendError>, frame: Option<Json>)

  /** Serialisation of a Signal; it cannot fail for this type. */
  function Serialize(s: Signal): (r: Option<Json>)
    ensures r.Some? && Decode(r.value) == Ok(s)
  {
    RoundTrip(s);
    Some(Encode(s))
  }

  /**
   * `send_signal`, given the serialisation outcome: a failed serialisation
   * sends nothing and still returns Ok; otherwise the frame is written if
   * the socket is open, and the write error is returned if it is not.
   */
  function SendSignal(socketOpen: bool, serialized: Option<Json>): (r: SendOutcome)
    ensures r.frame.Some? <==> serialized.Some? && socketOpen
    ensures r.frame.Some? ==> r.frame == serialized
    ensures r.result.Err? <==> serialized.Some? && !socketOpen
  {
    if serialized.None? then SendOutcome(Ok(()), None)
    else if !socketOpen then SendOutcome(Err(InvalidState), None)
    else SendOutcome(Ok(()), serialized)
  }

  datatype OfferOutcome = Returned(sdp: string, action: PeerAction) | Panicked

  /**
   * `make_offer`, given what `create_offer` resolved to (None when it was
   * rejected, which panics): the SDP returned is the SDP set as the local
   * offer description.
   */
  function MakeOffer(created: Option<string>): (r: OfferOutcome)
    ensures r.Returned? <==> created.Some?
    ensures r.Returned? ==> r.sdp == created.value && r.action == SetLocalDescription(OfferSdp, r.sdp)
  {
    if created.Some? then Returned(created.value, SetLocalDescription(OfferSdp, created.value))
    else Panicked
  }

  function OfferSignal(sessionId: u64, sdp: string): Signal {
    WebRtcOffer(WebRtcOfferData(sessionId, WebRtcData(Some("offer"), sdp)))
  }

  function CandidateSignal(sessionId: u64, c: RtcIceCandidate): Signal {
    IceCandidate(IceCandidateData(sessionId, IceCandidateWebRtcData(c.candidate, c.sdpMLineIndex)))
  }

  /** The offer frame on the wire. */
  lemma OfferSignalWire(sessionId: u64, sdp: string)
    ensures Encode(OfferSignal(sessionId, sdp))
         == JObj([("type", JStr("webrtc_offer")),
                  ("data", JObj([("session_id", JNum(sessionId)),
                                 ("webrtc_data", JObj([("type", JStr("offer")), ("sdp", JStr(sdp))]))]))])
  {
    assert EncodeWebRtcData(WebRtcData(Some("offer"), sdp)) == JObj([("type", JStr("offer")), ("sdp", JStr(sdp))]);
  }

  /** The candidate frame on the wire; `sdpMLineIndex` only when the event had one. */
  lemma CandidateSignalWire(sessionId: u64, c: RtcIceCandidate)
    ensures Encode(CandidateSignal(sessionId, c))
         == JObj([("type", JStr("ice_candidate")),
                  ("data", JObj([("session_id", JNum(sessionId)),
                                 ("webrtc_data", JObj([("candidate", JStr(c.candidate))]
                                                      + if c.sdpMLineIndex.None? then []
                                                        else [("sdpMLineIndex", JNum(c.sdpMLineIndex.value))]))]))])
  {
  }

  // ------------------------------------------------------------ the start() state machine

  /**
   * What the callbacks of `start` share. `offerSdp` is the SDP once
   * `make_offer` has returned; `offerFailed` records that it panicked;
   * `socketOpened` that the open event delivered its message on the one-shot
   * channel (the socket is then open); `txTaken` that the sender has been
   * taken out of its cell.
   */
  datatype StartState = StartState(
    offerSdp: Option<string>,
    offerFailed: bool,
    socketOpened: bool,
    txTaken: bool,
    outbox: seq<Signal>,
    peerLog: seq<PeerAction>)

  datatype Event =
    | OfferCreated(created: Option<string>)
    | SocketOpen
    | LocalCandidate(candidate: Option<RtcIceCandidate>)
    | SocketMessage(data: MessageData)

  /** The state when `start` first suspends: one receive-only video transceiver. */
  function Initial(): StartState {
    StartState(None, false, false, false, [], [AddRecvOnlyTransceiver("video")])
  }

  /** `send_signal` on the socket of `st`, its result discarded: the Signal joins the outbox once the socket is open. */
  function Transmit(st: StartState, s: Signal): StartState {
    if st.socketOpened then st.(outbox := st.outbox + [s]) else st
  }

  /** Transmit writes exactly the frames `send_signal` writes. */
  lemma TransmitIsSendSignal(st: StartState, s: Signal)
    ensures Transmit(st, s).outbox
         == st.outbox + if SendSignal(st.socketOpened, Serialize(s)).frame.Some? then [s] else []
    ensures Transmit(st, s) == st.(outbox := Transmit(st, s).outbox)
  {
  }

  /**
   * `make_offer` completes: the local description is set and, if the open
   * event has already been delivered, the offer is sent at once. The await
   * completes once, so a later completion is ignored.
   */
  function OfferReadyStep(sessionId: u64, st: StartState, created: Option<string>): StartState {
    if st.offerSdp.Some? || st.offerFailed then st
    else
      match MakeOffer(created)
      case Panicked => st.(offerFailed := true)
      case Returned(sdp, action) =>
        var st' := st.(offerSdp := Some(sdp), peerLog := st.peerLog + [action]);
        if st.socketOpened then Transmit(st', OfferSignal(sessionId, sdp)) else st'
  }

  /**
   * The open event takes the sender and signals the channel; if the offer
   * is already waiting it is sent. A second open finds the cell empty and
   * unwrap panics before any effect.
   */
  function OpenStep(sessionId: u64, st: StartState): StartState {
    if st.txTaken then st
    else
      var st' := st.(txTaken := true, socketOpened := true);
      if st.offerSdp.Some? then Transmit(st', OfferSignal(sessionId, st.offerSdp.value)) else st'
  }

  /** The ICE event: a candidate is sent at once; the end-of-candidates event sends nothing. */
  function CandidateStep(sessionId: u64, st: StartState, c: Option<RtcIceCandidate>): StartState {
    if c.None? then st else Transmit(st, CandidateSignal(sessionId, c.value))
  }

  /** The message event: the action a decodable Signal causes joins the peer log. */
  function MessageStep(st: StartState, m: MessageData): StartState {
    match Receive(m)
    case None => st
    case Some(a) => st.(peerLog := st.peerLog + [a])
  }

  /** One event of the running offerer. */
  function Step(sessionId: u64, st: StartState, ev: Event): StartState {
    match ev
    case OfferCreated(created) => OfferReadyStep(sessionId, st, created)
    case SocketOpen => OpenStep(sessionId, st)
    case LocalCandidate(c) => CandidateStep(sessionId, st, c)
    case SocketMessage(m) => MessageStep(st, m)
  }

  /** The state after a sequence of events. */
  function Run(sessionId: u64, evs: seq<Event>): StartState {
    if evs == [] then Initial()
    else Step(sessionId, Run(sessionId, evs[..|evs| - 1]), evs[|evs| - 1])
  }

  /** The Signals of one variant in an outbox, in sending order. */
  function OfKind(out: seq<Signal>, k: Kind): seq<Signal> {
    if out == [] then []
    else OfKind(out[..|out| - 1], k) + (if KindOf(out[|out| - 1]) == k then [out[|out| - 1]] else [])
  }

  lemma OfKindAppend(out: seq<Signal>, s: Signal, k: Kind)
    ensures OfKind(out + [s], k) == OfKind(out, k) + (if KindOf(s) == k then [s] else [])
  {
    assert (out + [s])[..|out|] == out;
  }

  /** What Step keeps true: the gate, the session id on every frame, the local description. */
  ghost predicate Inv(sessionId: u64, st: StartState) {
    && st.socketOpened == st.txTaken
    && !(st.offerSdp.Some? && st.offerFailed)
    && (!st.socketOpened ==> st.outbox == [])
    && OfKind(st.outbox, OfferKind)
       == (if st.offerSdp.Some? && st.socketOpened then [OfferSignal(sessionId, st.offerSdp.value)] else [])
    && OfKind(st.outbox, AnswerKind) == []
    && (forall i :: 0 <= i < |st.outbox| ==> st.outbox[i].SessionId() == sessionId)
    && (st.offerSdp.Some? ==> SetLocalDescription(OfferSdp, st.offerSdp.value) in st.peerLog)
  }

  /** Appending a Signal of the session that is not an answer keeps the outbox facts of Inv. */
  lemma AppendKeepsOutboxFacts(sessionId: u64, out: seq<Signal>, s: Signal)
    requires s.SessionId() == sessionId && !s.WebRtcAnswer?
    requires forall i :: 0 <= i < |out| ==> out[i].SessionId() == sessionId
    ensures forall i :: 0 <= i < |out + [s]| ==> (out + [s])[i].SessionId() == sessionId
    ensures OfKind(out + [s], OfferKind) == OfKind(out, OfferKind) + if s.WebRtcOffer? then [s] else []
    ensures OfKind(out + [s], AnswerKind) == OfKind(out, AnswerKind)
  {
    forall i | 0 <= i < |out + [s]|
      ensures (out + [s])[i].SessionId() == sessionId
    {
      if i < |out| {
        assert (out + [s])[i] == out[i];
      }
    }
    assert KindOf(s) != AnswerKind;
    assert KindOf(s) == OfferKind <==> s.WebRtcOffer?;
    OfKindAppend(out, s, OfferKind);
    OfKindAppend(out, s, AnswerKind);
  }

  lemma OfferReadyKeepsInv(sessionId: u64, st: StartState, created: Option<string>)
    requires Inv(sessionId, st)
    ensures Inv(sessionId, OfferReadyStep(sessionId, st, created))
  {
    if !(st.offerSdp.Some? || st.offerFailed) && created.Some? {
      var sdp := created.value;
      var log := st.peerLog + [SetLocalDescription(OfferSdp, sdp)];
      if st.socketOpened {
        var s := OfferSignal(sessionId, sdp);
        assert OfferReadyStep(sessionId, st, created)
            == st.(offerSdp := Some(sdp), peerLog := log, outbox := st.outbox + [s]);
        AppendKeepsOutboxFacts(sessionId, st.outbox, s);
      } else {
        assert OfferReadyStep(sessionId, st, created) == st.(offerSdp := Some(sdp), peerLog := log);
      }
    }
  }

  lemma OpenKeepsInv(sessionId: u64, st: StartState)
    requires Inv(sessionId, st)
    ensures Inv(sessionId, OpenStep(sessionId, st))
  {
    if !st.txTaken {
      if st.offerSdp.Some? {
        var s := OfferSignal(sessionId, st.offerSdp.value);
        assert OpenStep(sessionId, st)
            == st.(txTaken := true, socketOpened := true, outbox := st.outbox + [s]);
        AppendKeepsOutboxFacts(sessionId, st.outbox, s);
      } else {
        assert OpenStep(sessionId, st) == st.(txTaken := true, socketOpened := true);
      }
    }
  }

  lemma CandidateKeepsInv(sessionId: u64, st: StartState, c: Option<RtcIceCandidate>)
    requires Inv(sessionId, st)
    ensures Inv(sessionId, CandidateStep(sessionId, st, c))
  {
    if c.Some? && st.socketOpened {
      var s := CandidateSignal(sessionId, c.value);
      assert CandidateStep(sessionId, st, c) == st.(outbox := st.outbox + [s]);
      AppendKeepsOutboxFacts(sessionId, st.outbox, s);
    } else {
      assert CandidateStep(sessionId, st, c) == st;
    }
  }

  lemma MessageKeepsInv(sessionId: u64, st: StartState, m: MessageData)
    requires Inv(sessionId, st)
    ensures Inv(sessionId, MessageStep(st, m))
  {
    if Receive(m).Some? {
      assert MessageStep(st, m) == st.(peerLog := st.peerLog + [Receive(m).value]);
    }
  }

  lemma StepPreservesInv(sessionId: u64, st: StartState, ev: Event)
    requires Inv(sessionId, st)
    ensures Inv(sessionId, Step(sessionId, st, ev))
  {
    match ev
    case OfferCreated(created) => OfferReadyKeepsInv(sessionId, st, created);
    case SocketOpen => OpenKeepsInv(sessionId, st);
    case LocalCandidate(c) => CandidateKeepsInv(sessionId, st, c);
    case SocketMessage(m) => MessageKeepsInv(sessionId, st, m);
  }

  lemma {:induction false} RunInv(sessionId: u64, evs: seq<Event>)
    ensures Inv(sessionId, Run(sessionId, evs))
  {
    if evs != [] {
      RunInv(sessionId, evs[..|evs| - 1]);
      StepPreservesInv(sessionId, Run(sessionId, evs[..|evs| - 1]), evs[|evs| - 1]);
    }
  }

  /** How one event moves the two readiness facts. */
  lemma StepReadiness(sessionId: u64, st: StartState, ev: Event)
    requires Inv(sessionId, st)
    ensures Step(sessionId, st, ev).socketOpened == (st.socketOpened || ev.SocketOpen?)
    ensures Step(sessionId, st, ev).offerSdp
         == if st.offerSdp.None? && !st.offerFailed && ev.OfferCreated? then ev.created else st.offerSdp
    ensures Step(sessionId, st, ev).offerFailed
         == (st.offerFailed || (st.offerSdp.None? && ev == OfferCreated(None)))
  {
  }

  /** What the first completion of `make_offer` delivered, if it has completed. */
  function FirstOffer(evs: seq<Event>): Option<Option<string>> {
    if evs == [] then None
    else if FirstOffer(evs[..|evs| - 1]).Some? then FirstOffer(evs[..|evs| - 1])
    else if evs[|evs| - 1].OfferCreated? then Some(evs[|evs| - 1].created)
    else None
  }

  lemma {:induction false} RunReadiness(sessionId: u64, evs: seq<Event>)
    ensures Run(sessionId, evs).socketOpened <==> SocketOpen in evs
    ensures Run(sessionId, evs).offerSdp
         == (if FirstOffer(evs).Some? && FirstOffer(evs).value.Some? then FirstOffer(evs).value else None)
    ensures Run(sessionId, evs).offerFailed <==> FirstOffer(evs) == Some(None)
  {
    if evs != [] {
      var init, ev := evs[..|evs| - 1], evs[|evs| - 1];
      assert evs == init + [ev];
      RunReadiness(sessionId, init);
      RunInv(sessionId, init);
      StepReadiness(sessionId, Run(sessionId, init), ev);
    }
  }

  /**
   * The offer gate. Whatever the order of events, the outbox holds exactly
   * one offer once the socket has opened and `make_offer` has returned an
   * SDP, and none before; that offer carries the session id of `start`,
   * the type "offer" and the SDP `make_offer` returned.
   */
  lemma OfferSentOnceAfterBoth(sessionId: u64, evs: seq<Event>)
    ensures OfKind(Run(sessionId, evs).outbox, OfferKind)
         == if SocketOpen in evs && FirstOffer(evs).Some? && FirstOffer(evs).value.Some?
            then [OfferSignal(sessionId, FirstOffer(evs).value.value)]
            else []
  {
    RunInv(sessionId, evs);
    RunReadiness(sessionId, evs);
  }

  /** Events only ever append to the outbox and to the peer log. */
  lemma {:induction false} RunExtends(sessionId: u64, evs: seq<Event>, k: nat)
    requires k <= |evs|
    ensures Run(sessionId, evs[..k]).outbox <= Run(sessionId, evs).outbox
    ensures Run(sessionId, evs[..k]).peerLog <= Run(sessionId, evs).peerLog
  {
    if k < |evs| {
      var init := evs[..|evs| - 1];
      assert init[..k] == evs[..k];
      RunExtends(sessionId, init, k);
    } else {
      assert evs[..k] == evs;
    }
  }

  /**
   * The candidates the socket carries: a locally gathered candidate is sent
   * at once, with the session id of `start`, if the socket had opened
   * before it was gathered, and is lost otherwise.
   */
  function SentCandidates(sessionId: u64, evs: seq<Event>): seq<Signal> {
    if evs == [] then []
    else
      var init, ev := evs[..|evs| - 1], evs[|evs| - 1];
      SentCandidates(sessionId, init)
      + if ev.LocalCandidate? && ev.candidate.Some? && SocketOpen in init
        then [CandidateSignal(sessionId, ev.candidate.value)] else []
  }

  /** One event adds at most one candidate, and only a gathered candidate once the socket is open. */
  lemma StepCandidates(sessionId: u64, st: StartState, ev: Event)
    requires Inv(sessionId, st)
    ensures OfKind(Step(sessionId, st, ev).outbox, IceCandidateKind)
         == OfKind(st.outbox, IceCandidateKind)
            + if ev.LocalCandidate? && ev.candidate.Some? && st.socketOpened
              then [CandidateSignal(sessionId, ev.candidate.value)] else []
  {
    var out := Step(sessionId, st, ev).outbox;
    StepOutbox(sessionId, st, ev);
    if out != st.outbox {
      OfKindAppend(st.outbox, out[|st.outbox|], IceCandidateKind);
    }
  }

  /** One event sends at most one Signal: an offer, or a candidate from the ICE event. */
  lemma StepOutbox(sessionId: u64, st: StartState, ev: Event)
    requires Inv(sessionId, st)
    ensures var out := Step(sessionId, st, ev).outbox;
      || out == st.outbox
      || (out == st.outbox + [out[|st.outbox|]]
          && (out[|st.outbox|].WebRtcOffer?
              || (ev.LocalCandidate? && ev.candidate.Some? && st.socketOpened
                  && out[|st.outbox|] == CandidateSignal(sessionId, ev.candidate.value))))
    ensures ev.LocalCandidate? && ev.candidate.Some? && st.socketOpened
            ==> Step(sessionId, st, ev).outbox == st.outbox + [CandidateSignal(sessionId, ev.candidate.value)]
  {
  }

  lemma {:induction false} CandidatesInDiscoveryOrder(sessionId: u64, evs: seq<Event>)
    ensures OfKind(Run(sessionId, evs).outbox, IceCandidateKind) == SentCandidates(sessionId, evs)
  {
    if evs != [] {
      var init, ev := evs[..|evs| - 1], evs[|evs| - 1];
      CandidatesInDiscoveryOrder(sessionId, init);
      RunReadiness(sessionId, init);
      RunInv(sessionId, init);
      StepCandidates(sessionId, Run(sessionId, init), ev);
    }
  }

  /**
   * Inbound Signals are not filtered by session and answers are not
   * guarded: every frame that decodes as an answer, in whatever member
   * order, with whatever extra members and session id, and however many
   * came before, sets the remote description again, and leaves the gate
   * and the outbox alone.
   */
  lemma EveryAnswerApplied(sessionId: u64, st: StartState, j: Json, d: WebRtcAnswerData)
    requires Decode(j) == Ok(WebRtcAnswer(d))
    ensures Step(sessionId, st, SocketMessage(Text(Some(j))))
         == st.(peerLog := st.peerLog + [SetRemoteDescription(AnswerSdp, d.webrtcData.sdp)])
  {
    assert Receive(Text(Some(j))) == Some(SetRemoteDescription(AnswerSdp, d.webrtcData.sdp));
  }

  /** A message that is not a decodable Signal changes nothing. */
  lemma UndecodableMessageIgnored(sessionId: u64, st: StartState, m: MessageData)
    requires m.NonText? || m.parsed.None? || Decode(m.parsed.value).Err?
    ensures Step(sessionId, st, SocketMessage(m)) == st
  {
  }

  // ------------------------------------------------------------ the same, in place

  /** The state `start` keeps across its callbacks, updated by one method per event. */
  class Offerer {
    const sessionId: u64
    var offerSdp: Option<string>
    var offerFailed: bool
    var socketOpened: bool
    var txTaken: bool
    var outbox: seq<Signal>
    var peerLog: seq<PeerAction>

    function State(): StartState
      reads this
    {
      StartState(offerSdp, offerFailed, socketOpened, txTaken, outbox, peerLog)
    }

    ghost predicate Valid()
      reads this
    {
      Inv(sessionId, State())
    }

    /** `start` up to its first suspension, with the session id as a parameter. */
    constructor (sessionId: u64)
      ensures this.sessionId == sessionId
      ensures State() == Initial() && Valid()
    {
      this.sessionId := sessionId;
      offerSdp, offerFailed, socketOpened, txTaken := None, false, false, false;
      outbox := [];
      peerLog := [AddRecvOnlyTransceiver("video")];
    }

    /** `send_signal` on this offerer's socket. */
    method Send(s: Signal) returns (result: Result<(), SendError>)
      modifies this`outbox
      ensures result.Err? <==> !socketOpened
      ensures outbox == old(outbox) + (if socketOpened then [s] else [])
      ensures State() == Transmit(old(State()), s)
    {
      var out := SendSignal(socketOpened, Serialize(s));
      if out.frame.Some? {
        outbox := outbox + [s];
      }
      result := out.result;
    }

    /** `make_offer` has completed; `ok` is false when it panicked. */
    method OnOfferReady(created: Option<string>) returns (ok: bool)
      requires Valid()
      modifies this
      ensures Valid()
      ensures State() == Step(sessionId, old(State()), OfferCreated(created))
      ensures ok <==> created.Some? || old(offerSdp.Some? || offerFailed)
      ensures outbox == old(outbox)
                        + if old(offerSdp.None? && !offerFailed && socketOpened) && created.Some?
                          then [OfferSignal(sessionId, created.value)] else []
    {
      ghost var before := State();
      StepPreservesInv(sessionId, before, OfferCreated(created));
      ok := true;
      if offerSdp.Some? || offerFailed {
        return;
      }
      match MakeOffer(created)
      case Panicked =>
        offerFailed := true;
        ok := false;
      case Returned(sdp, action) =>
        offerSdp := Some(sdp);
        peerLog := peerLog + [action];
        if socketOpened {
          var _ := Send(OfferSignal(sessionId, sdp));
        }
    }

    /** The socket's open event; `ok` is false when the sender was already taken and unwrap panics. */
    method OnOpen() returns (ok: bool)
      requires Valid()
      modifies this
      ensures Valid()
      ensures State() == Step(sessionId, old(State()), SocketOpen)
      ensures ok <==> !old(txTaken)
      ensures socketOpened && txTaken
      ensures outbox == old(outbox)
                        + if ok && old(offerSdp.Some?) then [OfferSignal(sessionId, old(offerSdp).value)] else []
    {
      ghost var before := State();
      StepPreservesInv(sessionId, before, SocketOpen);
      if txTaken {
        return false;
      }
      txTaken := true;
      socketOpened := true;
      ghost var flagged := State();
      assert flagged == before.(txTaken := true, socketOpened := true);
      if offerSdp.Some? {
        var _ := Send(OfferSignal(sessionId, offerSdp.value));
        assert State() == Transmit(flagged, OfferSignal(sessionId, before.offerSdp.value));
      }
      assert State() == OpenStep(sessionId, before);
      ok := true;
    }

    /** The ICE event: a gathered candidate is sent at once; a send error is discarded. */
    method OnLocalCandidate(candidate: Option<RtcIceCandidate>)
      requires Valid()
      modifies this
      ensures Valid()
      ensures State() == Step(sessionId, old(State()), LocalCandidate(candidate))
      ensures outbox == old(outbox)
                        + if candidate.Some? && socketOpened then [CandidateSignal(sessionId, candidate.value)] else []
    {
      ghost var before := State();
      StepPreservesInv(sessionId, before, LocalCandidate(candidate));
      if candidate.Some? {
        var _ := Send(CandidateSignal(sessionId, candidate.value));
      }
    }

    /** The message event: a decodable Signal is dispatched to the peer connection. */
    method OnMessage(data: MessageData)
      requires Valid()
      modifies this
      ensures Valid()
      ensures State() == Step(sessionId, old(State()), SocketMessage(data))
      ensures peerLog == old(peerLog) + if Receive(data).Some? then [Receive(data).value] else []
    {
      ghost var before := State();
      StepPreservesInv(sessionId, before, SocketMessage(data));
      if data.Text? && data.parsed.Some? {
        var decoded := Decode(data.parsed.value);
        if decoded.Ok? {
          var action := OnSignal(decoded.value);
          assert action == Receive(data);
          if action.Some? {
            peerLog := peerLog + [action.value];
          }
        }
      }
    }
  }

  /**
   * The two readiness events in either order leave the same single offer
   * in the outbox.
   */
  method OfferEitherOrder(sessionId: u64, sdp: string) returns (openFirst: seq<Signal>, offerFirst: seq<Signal>)
    ensures openFirst == offerFirst == [OfferSignal(sessionId, sdp)]
  {
    var a := new Offerer(sessionId);
    var _ := a.OnOpen();
    var _ := a.OnOfferReady(Some(sdp));
    openFirst := a.outbox;
    var b := new Offerer(sessionId);
    var _ := b.OnOfferReady(Some(sdp));
    var _ := b.OnOpen();
    offerFirst := b.outbox;
  }

  /**
   * A candidate gathered before the socket opens is lost: it is neither
   * queued nor sent later, and the offer is the only frame.
   */
  method EarlyCandidateLost(sessionId: u64, sdp: string, c: RtcIceCandidate) returns (sent: seq<Signal>)
    ensures sent == [OfferSignal(sessionId, sdp)]
  {
    var o := new Offerer(sessionId);
    var _ := o.OnOfferReady(Some(sdp));
    o.OnLocalCandidate(Some(c));
    var _ := o.OnOpen();
    sent := o.outbox;
  }
}
