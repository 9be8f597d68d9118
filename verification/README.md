# webrtc_wasm offerer, modelled in Dafny

`webrtc_wasm` is a browser-side WebRTC offerer compiled to WebAssembly. It opens
a WebSocket to a signalling server and creates a peer connection with one
receive-only video transceiver. It sends its SDP offer and its locally gathered
ICE candidates over the socket as JSON "signals". When an answer or a remote
candidate arrives on the socket, it hands it to the peer connection.

This project models two parts of that program and proves properties of them:

- **The signal wire format** (`signals.dfy`, module `Signals`). `Signal` is the
  three-variant union of `webrtc_wasm/src/signals.rs`: offer, answer and ICE
  candidate. Each variant carries a `u64` session id and a payload. `Encode`
  writes a Signal as an ordered JSON tree (`json_value.dfy`). The tree holds the
  `type` tag first, then `data`; inside `data` comes `session_id`, then
  `webrtc_data`. The renamed members `type` and `sdpMLineIndex` are written only
  when they are `Some`. `Decode` accepts what the derived deserialiser accepts:
  - the tag may stand anywhere in the object, and it must be a JSON string naming
    one of the three variants;
  - unknown members are ignored, and a repeated member is an error;
  - an absent or `null` optional member decodes as `None`;
  - a `u64` or `u16` outside its range is refused;
  - every struct also accepts its positional (JSON array) form.

  The proved facts are: the round trip `Decode(Encode(s)) == Ok(s)`; that a
  peer's answer or candidate decodes whatever the order of its members and
  whatever extra members it carries, with an absent or null optional member
  giving None; refusal of any other tag; refusal when a required member is
  missing; and that offers and answers differ on the wire only in their tag.
- **The offerer's event handling** (`offerer.dfy`, module `Offerer`), from
  `webrtc_wasm/src/lib.rs`. It covers four things:
  - `on_signal`: its dispatch to a peer-connection action;
  - the message callback: drop anything that is not a decodable text frame;
  - `send_signal`: the write error before the socket is open, and `Ok` when
    serialisation fails;
  - `make_offer`: the local description is the returned SDP.

  `start` suspends on two events: `make_offer` returning, and the socket's open
  event. The open event arrives through a one-shot channel whose sender is taken
  out of a shared cell. Each callback becomes an event. The pure function `Step`
  says what an event does to the state the callbacks share:
  - `offerSdp`, `offerFailed`, `socketOpened` and `txTaken`;
  - the outbox of Signals written to the socket;
  - the log of four peer-connection calls: adding the transceiver, setting the
    local and the remote description, and adding a remote candidate
    (`create_offer` is represented by the offer-ready event's parameter, and
    registering the track and candidate callbacks is not logged).

  The class `Offerer` makes the same updates in place, with one method per event,
  and each method is proved to agree with `Step`. The proved facts about `Step`
  over any sequence of events are:
  - the offer is sent exactly once after both readiness events have happened, in
    either order, and never before;
  - it carries the session id of `start`, the type `"offer"` and the SDP that
    `make_offer` returned;
  - every frame carries that session id;
  - local candidates go out in discovery order, but only once the socket is open.

Three behaviours of the code as written are modelled as they are, although a
careful offerer would differ. Inbound Signals are never filtered by session id.
A local candidate gathered before the socket opens is lost: its send fails and
the error is discarded, with no queue and no later flush (`EarlyCandidateLost`).
Every answer that arrives sets the remote description again, with no guard
against duplicate or late answers (`EveryAnswerApplied`). The code also has no
close operation and no Closed or Failed session states, so the model has none.

Behaviour of the program's environment is made explicit:
- The session id is a parameter (the code reads the wall clock).
- `create_offer`'s result is a parameter of the offer-ready event: `None` means
  it was rejected, which makes `make_offer` panic.
- A message event's data is either a binary frame or a text frame. A text frame
  carries the result of parsing it as JSON.
- Writing to the socket before its open event fails with `InvalidState`, as a
  browser WebSocket does while it is still connecting.

## Model

| member | source | states |
|---|---|---|
| JsonValue.Find | webrtc_wasm/src/signals.rs:14-46 | a member name is Absent exactly when it is not among the keys, Found exactly when it occurs once (with a value that is in the object), Duplicate otherwise; the derived struct visitors refuse a repeated field |
| Signals.EncodeWebRtcData | webrtc_wasm/src/signals.rs:32-38 | the payload object has keys `type`, `sdp` when `data_type` is Some and only `sdp` when it is None |
| Signals.EncodeIceCandidateWebRtcData | webrtc_wasm/src/signals.rs:40-46 | keys `candidate`, `sdpMLineIndex` when the index is Some, only `candidate` otherwise; an `sdpMLineIndex` value is a number in 0..65535 |
| Signals.EncodeData | webrtc_wasm/src/signals.rs:14-30 | every variant's `data` object has keys `session_id` then `webrtc_data`, holding the id and the payload |
| Signals.Tag | webrtc_wasm/src/signals.rs:6-10 | the renamed variant names `webrtc_offer`, `webrtc_answer`, `ice_candidate`; no contract of its own, written first by Encode, read back by DecodeTag and TagsDecode |
| Signals.TagsDecode | webrtc_wasm/src/signals.rs:6-10 | each of the three tag strings decodes to its own variant |
| Signals.Encode | webrtc_wasm/src/signals.rs:3-12 | a Signal is an object with keys `type` then `data`; the first value is the variant's tag; `data` has keys `session_id`, `webrtc_data` and carries the Signal's session id |
| Signals.Required | webrtc_wasm/src/signals.rs:16-17 | a required member decodes exactly when it occurs once, and then yields its value |
| Signals.Optional | webrtc_wasm/src/signals.rs:34-36 | an optional member is accepted when it occurs at most once, is None exactly when absent, and otherwise yields that member's value |
| Signals.DecodeString | webrtc_wasm/src/signals.rs:37 | a `String` field accepts exactly JSON strings and yields the string |
| Signals.DecodeU64 | webrtc_wasm/src/signals.rs:16 | `session_id` accepts exactly integers in 0..2^64-1 and yields that integer |
| Signals.DecodeOptString | webrtc_wasm/src/signals.rs:36 | `Option<String>` accepts exactly null and strings; null yields None, a string Some of it |
| Signals.DecodeOptU16 | webrtc_wasm/src/signals.rs:45 | `Option<u16>` accepts exactly null and integers in 0..65535; null yields None, a number Some of it |
| Signals.DecodeTag | webrtc_wasm/src/signals.rs:4-11 | the tag decodes exactly when it is one of the strings `webrtc_offer`, `webrtc_answer`, `ice_candidate`, and yields the variant it names |
| Signals.DecodeVariant | webrtc_wasm/src/signals.rs:5-11 | a decoded variant is of the kind the tag selected; it decodes exactly when its `data` decodes with that variant's payload decoder, and its session id and payload are what `data` decoded to |
| Signals.DecodeData | webrtc_wasm/src/signals.rs:14-30 | non-object, non-array values are refused; a decoded object had `session_id` holding the decoded id exactly once and a `webrtc_data` member that decodes to the payload; a decoded array had exactly the id and the payload (the converses are DataObjectDecodes and DataArrayDecodes) |
| Signals.DecodeWebRtcData | webrtc_wasm/src/signals.rs:32-38 | a decoded object holds the `sdp` member decoded and, when the result has a data type, the `type` member it came from; the array form decodes exactly when it is a pair of an optional string and a string; other values are refused (the decoded values are given by WebRtcDataObjectDecodes and WebRtcDataArrayDecodes) |
| Signals.DecodeIceCandidateWebRtcData | webrtc_wasm/src/signals.rs:40-46 | a decoded object holds the `candidate` member decoded and, when the result has an index, the `sdpMLineIndex` member it came from; the array form decodes exactly when it is a pair of a string and an optional number in 0..65535; other values are refused (the decoded values are given by IceCandidateObjectDecodes and IceCandidateArrayDecodes) |
| Signals.Decode | webrtc_wasm/src/signals.rs:3-12 | the derived deserialiser of `Signal`, as `serde_json::from_str` applies it to a parsed frame; no contract of its own, specified by DecodeReadsData, DecodeReadsTag, DecodeObject, DecodeArray, ArrayDecodesAsVariant, PositionalAnswerDecodes, AnyAnswerLayoutDecodes, AnyCandidateLayoutDecodes, UnknownTagRejected, the Missing*Rejected lemmas and RoundTrip |
| Signals.DecodeObject | webrtc_wasm/src/signals.rs:3-12 | a decoded object had exactly one `type` member, the tag of the decoded variant, and exactly one `data` member, which decodes as that variant to the result |
| Signals.DecodeArray | webrtc_wasm/src/signals.rs:3-12 | a decoded array is the pair of the decoded variant's tag and a `data` element that decodes as that variant to the result |
| Signals.DecodeReadsData | webrtc_wasm/src/signals.rs:3-12 | values other than objects and arrays are refused; whatever decodes is its `data` member (or second element) decoded as the variant of the result's kind |
| Signals.ArrayDecodesAsVariant | webrtc_wasm/src/signals.rs:3-12 | the positional form `[tag, data]` with a known tag decodes exactly as `data` decodes for that variant |
| Signals.DataObjectDecodes | webrtc_wasm/src/signals.rs:14-30 | a `data` object decodes exactly when it has one `session_id` in range and one `webrtc_data` the payload decoder accepts, in any order and among any other members, and then yields that id and payload |
| Signals.DataArrayDecodes | webrtc_wasm/src/signals.rs:14-30 | the positional form `[session_id, webrtc_data]` of `data` decodes exactly when it has two elements, the first an id in range and the second accepted by the payload decoder, and then yields that id and payload in declaration order |
| Signals.WebRtcDataArrayDecodes | webrtc_wasm/src/signals.rs:32-38 | a decoded positional session description `[type, sdp]` has the first element's string as its data type (None when it is null) and the second element's string as its SDP |
| Signals.IceCandidateArrayDecodes | webrtc_wasm/src/signals.rs:40-46 | a decoded positional candidate `[candidate, sdpMLineIndex]` has the first element's string as its candidate and the second element's number as its index (None when it is null) |
| Signals.PositionalAnswerDecodes | webrtc_wasm/src/signals.rs:3-38 | an answer whose `data` is written positionally, `[5, [null, "v=0"]]`, decodes to the answer for session 5 with SDP `v=0` and no data type |
| Signals.WebRtcDataObjectDecodes | webrtc_wasm/src/signals.rs:32-38 | a session description object decodes exactly when it has one string `sdp` and at most one `type` that is null or a string; the result's data type is None exactly when `type` is absent or null |
| Signals.IceCandidateObjectDecodes | webrtc_wasm/src/signals.rs:40-46 | a candidate object decodes exactly when it has one string `candidate` and at most one `sdpMLineIndex` that is null or a number in 0..65535; the result's index is None exactly when that member is absent or null |
| Signals.DataFromMembers | webrtc_wasm/src/signals.rs:14-30 | a `data` object with one `session_id` and one accepted `webrtc_data` decodes to that id and payload |
| Signals.WebRtcDataFromMembers | webrtc_wasm/src/signals.rs:32-38 | a session description object with one string `sdp` and a matching `type` (absent or null for None) decodes to that payload |
| Signals.IceCandidateFromMembers | webrtc_wasm/src/signals.rs:40-46 | a candidate object with one string `candidate` and a matching `sdpMLineIndex` (absent or null for None) decodes to that payload |
| Signals.AnswerFromData | webrtc_wasm/src/signals.rs:8-9 | an object with one `webrtc_answer` tag and one `data` that decodes as answer data decodes to that answer |
| Signals.CandidateFromData | webrtc_wasm/src/signals.rs:10-11 | an object with one `ice_candidate` tag and one `data` that decodes as candidate data decodes to that candidate |
| Signals.AnyAnswerLayoutDecodes | webrtc_wasm/src/signals.rs:3-38 | any layout of an answer, with its members in any order among any others and the payload `type` absent, null or a string, decodes to exactly that answer |
| Signals.AnyCandidateLayoutDecodes | webrtc_wasm/src/signals.rs:3-46 | any layout of a remote candidate, with its members in any order among any others and `sdpMLineIndex` absent, null or in range, decodes to exactly that candidate, index included |
| Signals.DecodeEnvelope | webrtc_wasm/src/signals.rs:3-12 | with one `type` and one `data` member, decoding is tag decoding followed by decoding `data` as that variant |
| Signals.WebRtcDataRoundTrip | webrtc_wasm/src/signals.rs:32-38 | the payload decodes back to itself, an absent `type` giving None |
| Signals.IceCandidateWebRtcDataRoundTrip | webrtc_wasm/src/signals.rs:40-46 | the candidate payload decodes back to itself, an absent `sdpMLineIndex` giving None |
| Signals.DataRoundTrip | webrtc_wasm/src/signals.rs:14-30 | an encoded `{session_id, webrtc_data}` decodes back to the id and payload |
| Signals.OfferVariantRoundTrip | webrtc_wasm/src/signals.rs:14-18 | the `data` of an encoded offer decodes back to that offer |
| Signals.AnswerVariantRoundTrip | webrtc_wasm/src/signals.rs:20-24 | the `data` of an encoded answer decodes back to that answer |
| Signals.IceCandidateVariantRoundTrip | webrtc_wasm/src/signals.rs:26-30 | the `data` of an encoded candidate decodes back to that candidate |
| Signals.EncodedEnvelope | webrtc_wasm/src/signals.rs:3-12 | an encoded Signal has exactly one `type` member, holding its tag, and exactly one `data` member |
| Signals.RoundTrip | webrtc_wasm/src/signals.rs:3-46 | decoding the encoding of any Signal gives it back |
| Signals.DecodeReadsTag | webrtc_wasm/src/signals.rs:4-12 | whatever decodes carried exactly one tag, that tag is one of the three declared names, and it names the decoded variant |
| Signals.UnknownTagRejected | webrtc_wasm/src/signals.rs:4-12 | a `type` value outside the three declared tags never decodes |
| Signals.WebRtcDataNeedsSdp | webrtc_wasm/src/signals.rs:37 | a payload object without `sdp` does not decode |
| Signals.IceCandidateNeedsCandidate | webrtc_wasm/src/signals.rs:42 | a candidate payload object without `candidate` does not decode |
| Signals.DataPropagatesPayloadError | webrtc_wasm/src/signals.rs:17 | a `data` object whose `webrtc_data` does not decode does not decode |
| Signals.VariantPropagatesDataError | webrtc_wasm/src/signals.rs:7-11 | a variant whose `data` does not decode is refused |
| Signals.EnvelopePropagatesVariantError | webrtc_wasm/src/signals.rs:4-12 | a Signal whose `data` fails for the tagged variant is refused |
| Signals.MissingSessionIdRejected | webrtc_wasm/src/signals.rs:14-30 | a Signal whose `data` lacks `session_id` never decodes |
| Signals.MissingSdpRejected | webrtc_wasm/src/signals.rs:32-38 | an offer or answer whose payload lacks `sdp` never decodes |
| Signals.MissingCandidateRejected | webrtc_wasm/src/signals.rs:40-46 | an ICE candidate whose payload lacks `candidate` never decodes |
| Signals.PeerPayloadDecodes | webrtc_wasm/src/signals.rs:32-38 | a payload with `sdp` first and `"type": null` decodes with no data type |
| Signals.PeerDataDecodes | webrtc_wasm/src/signals.rs:20-24 | an answer's `data` with `webrtc_data` first, an unknown member, then `session_id` decodes to that id and payload |
| Signals.ReorderedAnswerDecodes | webrtc_wasm/src/signals.rs:3-38 | a peer's answer with the tag last, an unknown member and a null `type` in its payload decodes to the answer it carries |
| Signals.OfferAnswerDifferOnlyInTag | webrtc_wasm/src/signals.rs:14-24 | an offer and an answer with the same id and payload encode identically except for the tag value |
| Offerer.OnSignal | webrtc_wasm/src/lib.rs:109-127 | an offer causes no action; an answer exactly one set-remote-description of type Answer with its `sdp`; a candidate exactly one add-candidate with its `candidate` and `sdpMLineIndex` unchanged |
| Offerer.OnSignalIgnoresSessionId | webrtc_wasm/src/lib.rs:110-125 | signals of the same variant and payload cause the same action whatever their session id and answer `type` |
| Offerer.Receive | webrtc_wasm/src/lib.rs:59-67 | an action happens only for a text frame that parses and decodes as a Signal, and every such frame gets exactly the action `on_signal` chooses for the decoded Signal |
| Offerer.ReceiveEncoded | webrtc_wasm/src/lib.rs:59-67 | a frame carrying an encoded Signal is dispatched as that Signal |
| Offerer.UndecodableMessageIgnored | webrtc_wasm/src/lib.rs:59-67 | a binary frame, unparsable text or a non-Signal changes nothing |
| Offerer.Serialize | webrtc_wasm/src/lib.rs:130 | serialising a Signal always succeeds, and the frame decodes back to it |
| Offerer.SendSignal | webrtc_wasm/src/lib.rs:129-135 | a frame is written exactly when serialisation succeeded and the socket is open, and it is the serialised Signal; the result is an error exactly when a serialised frame met a closed socket, so a failed serialisation returns Ok having sent nothing |
| Offerer.MakeOffer | webrtc_wasm/src/lib.rs:137-150 | `make_offer` returns exactly when `create_offer` resolved; it returns that SDP and sets the local description of type Offer to the same SDP |
| Offerer.OfferSignalWire | webrtc_wasm/src/lib.rs:91-99 | the offer frame is `{"type":"webrtc_offer","data":{"session_id":id,"webrtc_data":{"type":"offer","sdp":sdp}}}` |
| Offerer.CandidateSignalWire | webrtc_wasm/src/lib.rs:73-84 | a candidate frame is `{"type":"ice_candidate","data":{"session_id":id,"webrtc_data":{"candidate":c}}}`, with `sdpMLineIndex` after `candidate` when the event had one |
| Offerer.Transmit | webrtc_wasm/src/lib.rs:129-135 | the state effect of a send whose result is discarded; no contract of its own, specified by TransmitIsSendSignal and agreed with by Offerer.Offerer.Send |
| Offerer.OfferSignal | webrtc_wasm/src/lib.rs:91-99 | the offer Signal `start` builds; no contract of its own, its wire form is stated by OfferSignalWire |
| Offerer.CandidateSignal | webrtc_wasm/src/lib.rs:75-83 | the candidate Signal the candidate callback builds; no contract of its own, its wire form is stated by CandidateSignalWire |
| Offerer.Initial | webrtc_wasm/src/lib.rs:32-49 | the shared state when `start` first suspends; no contract of its own, the constructor of Offerer.Offerer is proved equal to it and RunInv starts from it |
| Offerer.OfferReadyStep | webrtc_wasm/src/lib.rs:90-103 | the `make_offer` completion; no contract of its own, specified by OfferReadyKeepsInv, StepReadiness and StepOutbox |
| Offerer.OpenStep | webrtc_wasm/src/lib.rs:51-55 | the open event; no contract of its own, specified by OpenKeepsInv, StepReadiness and StepOutbox |
| Offerer.CandidateStep | webrtc_wasm/src/lib.rs:71-86 | the candidate event; no contract of its own, specified by CandidateKeepsInv, StepCandidates and StepOutbox |
| Offerer.MessageStep | webrtc_wasm/src/lib.rs:59-67 | the message event; no contract of its own, specified by MessageKeepsInv, EveryAnswerApplied and UndecodableMessageIgnored |
| Offerer.Step | webrtc_wasm/src/lib.rs:48-103 | one callback of `start`; no contract of its own, specified by StepPreservesInv, StepReadiness, StepOutbox and StepCandidates |
| Offerer.Run | webrtc_wasm/src/lib.rs:48-103 | the callbacks run in the order given; no contract of its own, specified by RunInv, RunReadiness, RunExtends, OfferSentOnceAfterBoth and CandidatesInDiscoveryOrder |
| Offerer.TransmitIsSendSignal | webrtc_wasm/src/lib.rs:129-135 | the state step of a send adds the Signal to the outbox exactly when `send_signal` writes a frame, and changes nothing else |
| Offerer.OfKindAppend | webrtc_wasm/src/lib.rs:129-135 | sending one Signal adds it to the sent Signals of its own kind only |
| Offerer.OfferReadyKeepsInv | webrtc_wasm/src/lib.rs:90-103 | `make_offer` returning keeps the invariant: at most the one offer, sent only once the socket is open, with the session id |
| Offerer.OpenKeepsInv | webrtc_wasm/src/lib.rs:51-55 | the open event keeps the invariant, whether or not the offer is waiting |
| Offerer.CandidateKeepsInv | webrtc_wasm/src/lib.rs:71-86 | a local candidate event keeps the invariant |
| Offerer.MessageKeepsInv | webrtc_wasm/src/lib.rs:59-67 | an incoming message only appends to the peer log, so it keeps the invariant |
| Offerer.AppendKeepsOutboxFacts | webrtc_wasm/src/lib.rs:129-135 | sending an offer or candidate of this session keeps every frame on the session id, adds no answer, and adds to the offers only when it is one |
| Offerer.StepPreservesInv | webrtc_wasm/src/lib.rs:48-103 | every event keeps the invariant: sender taken exactly when opened; nothing sent before opening; the offers sent are exactly the one offer once both readiness facts hold; no answer is ever sent; every frame has the session id; the local description matches the offer SDP |
| Offerer.RunInv | webrtc_wasm/src/lib.rs:48-103 | the invariant holds after any sequence of events |
| Offerer.StepReadiness | webrtc_wasm/src/lib.rs:51-90 | only the open event sets `socketOpened`; only the first `make_offer` completion sets the offer SDP or the failure |
| Offerer.RunReadiness | webrtc_wasm/src/lib.rs:90-101 | after any events, the socket is open exactly when an open event occurred, and the offer SDP is the one the first `make_offer` completion returned |
| Offerer.OfferSentOnceAfterBoth | webrtc_wasm/src/lib.rs:48-103 | in any event order, the sent offers are exactly one offer with the start session id, type "offer" and the returned SDP, if the socket opened and `make_offer` returned, and none otherwise |
| Offerer.RunExtends | webrtc_wasm/src/lib.rs:48-103 | the outbox and the peer log only grow, so nothing sent is ever taken back |
| Offerer.StepOutbox | webrtc_wasm/src/lib.rs:71-103 | one event sends at most one Signal, an offer or the event's own candidate, and a gathered candidate is sent at once when the socket is open |
| Offerer.StepCandidates | webrtc_wasm/src/lib.rs:71-86 | one event adds a candidate frame exactly when it is a gathered candidate and the socket is open |
| Offerer.CandidatesInDiscoveryOrder | webrtc_wasm/src/lib.rs:71-86 | the candidate frames sent are the gathered candidates that arrived after the open event, in discovery order, each with the start session id; the end-of-candidates event sends nothing |
| Offerer.EveryAnswerApplied | webrtc_wasm/src/lib.rs:59-67 | every frame that decodes as an answer, in any member order, with any session id and after any number of earlier answers, appends a set-remote-description of its `sdp` and changes nothing else |
| Offerer.Offerer.constructor | webrtc_wasm/src/lib.rs:32-49 | the state when `start` first suspends: no offer yet, socket not open, sender in its cell, nothing sent, one receive-only video transceiver added |
| Offerer.Offerer.Send | webrtc_wasm/src/lib.rs:129-135 | appends the Signal to the outbox exactly when the socket is open; errors exactly when it is not |
| Offerer.Offerer.OnOfferReady | webrtc_wasm/src/lib.rs:90-103 | agrees with Step; keeps the invariant; sends the offer if the socket is already open; reports the panic of a rejected `create_offer` |
| Offerer.Offerer.OnOpen | webrtc_wasm/src/lib.rs:51-55 | agrees with Step; keeps the invariant; takes the sender; sends the offer if it is waiting; a second open panics with no effect |
| Offerer.Offerer.OnLocalCandidate | webrtc_wasm/src/lib.rs:71-86 | agrees with Step; keeps the invariant; the candidate is sent only when the socket is open |
| Offerer.Offerer.OnMessage | webrtc_wasm/src/lib.rs:59-67 | agrees with Step; keeps the invariant; appends the action `on_signal` chooses for a decodable Signal |
| Offerer.OfferEitherOrder | webrtc_wasm/src/lib.rs:51-103 | open-then-offer and offer-then-open both leave exactly the one offer in the outbox |
| Offerer.EarlyCandidateLost | webrtc_wasm/src/lib.rs:71-103 | a candidate gathered before the socket opens is never sent; the offer is the only frame |

## Left out

- `webrtc_wasm/src/web_socket.rs` is not part of this model. It is an unused WebSocket wrapper whose module is commented out.
- `webrtc_wasm/src/common.rs` is not part of this model. It holds logging macros over a console binding; logging has no effect on behaviour.
- Clock, address and socket creation are left out: the session id comes from the wall clock, and the address is parsed with `unwrap`. The WebSocket constructor's panic and the `?` on `RtcPeerConnection::new` are failures before the first suspension. The model starts after them, and the session id is a parameter.
- The `on_track` callback and the transceiver's internals are left out. The callback does nothing, and the transceiver is recorded only as one `AddRecvOnlyTransceiver("video")` action.
- The promises that `set_local_description`, `set_remote_description` and `add_ice_candidate` return are left out. The code discards them, and the model records only that each call was made.
- `Offerer.MakeOffer`: `Reflect::get` failing, and the `sdp` property not being a string (`unwrap` panics), are folded into "create_offer was rejected". The model does not tell these causes apart.
- `start`'s own return value is left out. The `?` after sending the offer cannot fail because the socket is open by then. A failed `tx.send(()).unwrap()` needs `start` to have returned early, which happens only on the failures listed above.
- Scheduling is abstracted. After the open event, the code sends the offer in a later microtask of the same event-loop turn. The model sends it as part of the open event, and no other event is dispatched in between.
- A second completion of `make_offer` cannot happen, because an await completes once. `Step` ignores one.
- JSON text is left out: lexing, escaping, number syntax, floating-point numbers and text serialisation. The decoder works on the parsed tree, and a text frame carries its parse result.
- Signals.Decode: only acceptance versus refusal is claimed. The error values are an approximation of serde's messages and of the order in which it finds problems.

