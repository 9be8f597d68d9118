/**
 * The signalling messages (webrtc_wasm/src/signals.rs) and their JSON form.
 *
 * `Signal` is an internally tagged union: the object carries a `type`
 * member naming the variant and a `data` member holding the payload
 * struct. Encode writes members in declaration order, tag first, and
 * leaves out optional members that are None. Decode follows what the
 * derived deserialiser accepts: the tag may stand anywhere among the
 * members, unknown members are ignored, a repeated member is an error,
 * an absent or null optional member is None, and every struct also
 * accepts the positional (array) form.
 */
module Signals {
  import opened Wrappers
  import opened JsonValue

  type u64 = n: int | 0 <= n < 0x1_0000_0000_0000_0000
  type u16 = n: int | 0 <= n < 0x1_0000

  /** Session description payload, shared by offers and answers. */
  datatype WebRtcData = WebRtcData(dataType: Option<string>, sdp: string)

  /** Connectivity candidate payload. */
  datatype IceCandidateWebRtcData = IceCandidateWebRtcData(candidate: string, sdpMLineIndex: Option<u16>)

  datatype WebRtcOfferData = WebRtcOfferData(sessionId: u64, webrtcData: WebRtcData)
  datatype WebRtcAnswerData = WebRtcAnswerData(sessionId: u64, webrtcData: WebRtcData)
  datatype IceCandidateData = IceCandidateData(sessionId: u64, webrtcData: IceCandidateWebRtcData)

  datatype Signal =
    | WebRtcOffer(offer: WebRtcOfferData)
    | WebRtcAnswer(answer: WebRtcAnswerData)
    | IceCandidate(ice: IceCandidateData)
  {
    function SessionId(): u64 {
      match this
      case WebRtcOffer(d) => d.sessionId
      case WebRtcAnswer(d) => d.sessionId
      case IceCandidate(d) => d.sessionId
    }
  }

  const OfferTag: string := "webrtc_offer"
  const AnswerTag: string := "webrtc_answer"
  const IceCandidateTag: string := "ice_candidate"

  /** The discriminator value of a variant. */
  function Tag(s: Signal): string {
    match s
    case WebRtcOffer(_) => OfferTag
    case WebRtcAnswer(_) => AnswerTag
    case IceCandidate(_) => IceCandidateTag
  }

  // ---------------------------------------------------------------- encoding

  function EncodeWebRtcData(d: WebRtcData): (j: Json)
    ensures j.JObj?
    ensures Keys(j.fields) == if d.dataType.Some? then ["type", "sdp"] else ["sdp"]
  {
    JObj((if d.dataType.Some? then [("type", JStr(d.dataType.value))] else [])
         + [("sdp", JStr(d.sdp))])
  }

  function EncodeIceCandidateWebRtcData(d: IceCandidateWebRtcData): (j: Json)
    ensures j.JObj?
    ensures Keys(j.fields) == if d.sdpMLineIndex.Some? then ["candidate", "sdpMLineIndex"] else ["candidate"]
    ensures forall i :: 0 <= i < |j.fields| && j.fields[i].0 == "sdpMLineIndex" ==>
              j.fields[i].1.JNum? && 0 <= j.fields[i].1.n <= 65535
  {
    JObj([("candidate", JStr(d.candidate))]
         + (if d.sdpMLineIndex.Some? then [("sdpMLineIndex", JNum(d.sdpMLineIndex.value))] else []))
  }

  /** The `data` member shared by all three variants: session id, then payload. */
  function EncodeData(sessionId: u64, payload: Json): (j: Json)
    ensures j.JObj? && Keys(j.fields) == ["session_id", "webrtc_data"]
    ensures j.fields[0].1 == JNum(sessionId) && j.fields[1].1 == payload
  {
    JObj([("session_id", JNum(sessionId)), ("webrtc_data", payload)])
  }

  function Encode(s: Signal): (j: Json)
    ensures j.JObj? && Keys(j.fields) == ["type", "data"]
    ensures j.fields[0].1 == JStr(Tag(s))
    ensures j.fields[1].1.JObj? && Keys(j.fields[1].1.fields) == ["session_id", "webrtc_data"]
    ensures j.fields[1].1.fields[0].1 == JNum(s.SessionId())
  {
    var data := match s
      case WebRtcOffer(d) => EncodeData(d.sessionId, EncodeWebRtcData(d.webrtcData))
      case WebRtcAnswer(d) => EncodeData(d.sessionId, EncodeWebRtcData(d.webrtcData))
      case IceCandidate(d) => EncodeData(d.sessionId, EncodeIceCandidateWebRtcData(d.webrtcData));
    JObj([("type", JStr(Tag(s))), ("data", data)])
  }

  // ---------------------------------------------------------------- decoding

  datatype DecodeError =
    | InvalidType
    | InvalidValue
    | InvalidLength
    | MissingField(name: string)
    | DuplicateField(name: string)
    | UnknownVariant(tag: string)

  type Decoded<T> = Result<T, DecodeError>

  datatype Kind = OfferKind | AnswerKind | IceCandidateKind

  function KindOf(s: Signal): Kind {
    match s
    case WebRtcOffer(_) => OfferKind
    case WebRtcAnswer(_) => AnswerKind
    case IceCandidate(_) => IceCandidateKind
  }

  /** A required struct member: missing and repeated members are errors. */
  function Required(fields: seq<(string, Json)>, name: string): (r: Decoded<Json>)
    ensures r.Ok? <==> multiset(Keys(fields))[name] == 1
    ensures r.Ok? ==> (name, r.value) in fields
  {
    match Find(fields, name)
    case Absent => Err(MissingField(name))
    case Duplicate => Err(DuplicateField(name))
    case Found(v) => Ok(v)
  }

  /** An optional struct member: a missing member is None, a repeated one an error. */
  function Optional(fields: seq<(string, Json)>, name: string): (r: Decoded<Option<Json>>)
    ensures r.Ok? <==> multiset(Keys(fields))[name] <= 1
    ensures r.Ok? && r.value.None? <==> multiset(Keys(fields))[name] == 0
    ensures r.Ok? && r.value.Some? ==> (name, r.value.value) in fields
  {
    match Find(fields, name)
    case Absent => Ok(None)
    case Duplicate => Err(DuplicateField(name))
    case Found(v) => Ok(Some(v))
  }

  function DecodeString(j: Json): (r: Decoded<string>)
    ensures r.Ok? <==> j.JStr?
    ensures r.Ok? ==> r.value == j.s
  {
    if j.JStr? then Ok(j.s) else Err(InvalidType)
  }

  function DecodeU64(j: Json): (r: Decoded<u64>)
    ensures r.Ok? <==> j.JNum? && 0 <= j.n < 0x1_0000_0000_0000_0000
    ensures r.Ok? ==> r.value == j.n
  {
    match j
    case JNum(n) => if 0 <= n < 0x1_0000_0000_0000_0000 then Ok(n) else Err(InvalidValue)
    case _ => Err(InvalidType)
  }

  /** An `Option<String>` value: null is None. */
  function DecodeOptString(j: Json): (r: Decoded<Option<string>>)
    ensures r.Ok? <==> j.JNull? || j.JStr?
    ensures r.Ok? ==> r.value == if j.JNull? then None else Some(j.s)
  {
    match j
    case JNull => Ok(None)
    case JStr(s) => Ok(Some(s))
    case _ => Err(InvalidType)
  }

  /** An `Option<u16>` value: null is None, numbers outside 0..65535 are refused. */
  function DecodeOptU16(j: Json): (r: Decoded<Option<u16>>)
    ensures r.Ok? <==> j.JNull? || (j.JNum? && 0 <= j.n <= 65535)
    ensures r.Ok? ==> r.value == if j.JNull? then None else Some(j.n)
  {
    match j
    case JNull => Ok(None)
    case JNum(n) => if 0 <= n < 0x1_0000 then Ok(Some(n)) else Err(InvalidValue)
    case _ => Err(InvalidType)
  }

  /** An optional member, absent or present. */
  function DecodeOptMember<T>(m: Option<Json>, dec: Json -> Decoded<Option<T>>): Decoded<Option<T>> {
    if m.None? then Ok(None) else dec(m.value)
  }

  /**
   * The session description payload, as an object whose `sdp` member is
   * required and whose `type` member is optional, or as a pair.
   */
  function DecodeWebRtcData(j: Json): (r: Decoded<WebRtcData>)
    ensures !(j.JObj? || j.JArr?) ==> r == Err(InvalidType)
    ensures j.JObj? && r.Ok? ==> ("sdp", JStr(r.value.sdp)) in j.fields
    ensures j.JObj? && r.Ok? && r.value.dataType.Some? ==> ("type", JStr(r.value.dataType.value)) in j.fields
    ensures j.JArr? ==> (r.Ok? <==> |j.items| == 2 && (j.items[0].JNull? || j.items[0].JStr?) && j.items[1].JStr?)
  {
    match j
    case JObj(fs) =>
      var t :- Optional(fs, "type");
      var dataType :- DecodeOptMember(t, DecodeOptString);
      var sdp :- Required(fs, "sdp");
      var sdp :- DecodeString(sdp);
      Ok(WebRtcData(dataType, sdp))
    case JArr(items) =>
      if |items| != 2 then Err(InvalidLength)
      else
        var dataType :- DecodeOptString(items[0]);
        var sdp :- DecodeString(items[1]);
        Ok(WebRtcData(dataType, sdp))
    case _ => Err(InvalidType)
  }

  /**
   * The candidate payload, as an object whose `candidate` member is required
   * and whose `sdpMLineIndex` member is optional, or as a pair.
   */
  function DecodeIceCandidateWebRtcData(j: Json): (r: Decoded<IceCandidateWebRtcData>)
    ensures !(j.JObj? || j.JArr?) ==> r == Err(InvalidType)
    ensures j.JObj? && r.Ok? ==> ("candidate", JStr(r.value.candidate)) in j.fields
    ensures j.JObj? && r.Ok? && r.value.sdpMLineIndex.Some? ==>
              ("sdpMLineIndex", JNum(r.value.sdpMLineIndex.value)) in j.fields
    ensures j.JArr? ==> (r.Ok? <==> |j.items| == 2 && j.items[0].JStr?
                                    && (j.items[1].JNull? || (j.items[1].JNum? && 0 <= j.items[1].n <= 65535)))
  {
    match j
    case JObj(fs) =>
      var candidate :- Required(fs, "candidate");
      var candidate :- DecodeString(candidate);
      var index :- Optional(fs, "sdpMLineIndex");
      var index :- DecodeOptMember(index, DecodeOptU16);
      Ok(IceCandidateWebRtcData(candidate, index))
    case JArr(items) =>
      if |items| != 2 then Err(InvalidLength)
      else
        var candidate :- DecodeString(items[0]);
        var index :- DecodeOptU16(items[1]);
        Ok(IceCandidateWebRtcData(candidate, index))
    case _ => Err(InvalidType)
  }

  /** The `{session_id, webrtc_data}` struct, with the payload decoder of the variant. */
  function DecodeData<P>(j: Json, payload: Json -> Decoded<P>): (r: Decoded<(u64, P)>)
    ensures !(j.JObj? || j.JArr?) ==> r == Err(InvalidType)
    ensures j.JObj? && r.Ok? ==> Find(j.fields, "session_id") == Found(JNum(r.value.0))
    ensures j.JObj? && r.Ok? ==>
              Find(j.fields, "webrtc_data").Found? && payload(Find(j.fields, "webrtc_data").value) == Ok(r.value.1)
    ensures j.JArr? && r.Ok? ==> |j.items| == 2 && j.items[0] == JNum(r.value.0) && payload(j.items[1]) == Ok(r.value.1)
  {
    match j
    case JObj(fs) =>
      var id :- Required(fs, "session_id");
      var id :- DecodeU64(id);
      var p :- Required(fs, "webrtc_data");
      var p :- payload(p);
      Ok((id, p))
    case JArr(items) =>
      if |items| != 2 then Err(InvalidLength)
      else
        var id :- DecodeU64(items[0]);
        var p :- payload(items[1]);
        Ok((id, p))
    case _ => Err(InvalidType)
  }

  /** The tag is read as a variant identifier: a string naming one of the three variants. */
  function DecodeTag(j: Json): (r: Decoded<Kind>)
    ensures r.Ok? <==> j in {JStr(OfferTag), JStr(AnswerTag), JStr(IceCandidateTag)}
    ensures r.Ok? ==> j == JStr(match r.value
                                case OfferKind => OfferTag
                                case AnswerKind => AnswerTag
                                case IceCandidateKind => IceCandidateTag)
  {
    match j
    case JStr(t) =>
      if t == OfferTag then Ok(OfferKind)
      else if t == AnswerTag then Ok(AnswerKind)
      else if t == IceCandidateTag then Ok(IceCandidateKind)
      else Err(UnknownVariant(t))
    case _ => Err(InvalidType)
  }

  /** Each declared tag decodes to its own variant. */
  lemma TagsDecode()
    ensures DecodeTag(JStr(OfferTag)) == Ok(OfferKind)
    ensures DecodeTag(JStr(AnswerTag)) == Ok(AnswerKind)
    ensures DecodeTag(JStr(IceCandidateTag)) == Ok(IceCandidateKind)
  {
    assert OfferTag != AnswerTag && OfferTag != IceCandidateTag && AnswerTag != IceCandidateTag by {
      assert OfferTag[7] != AnswerTag[7];
      assert OfferTag[0] != IceCandidateTag[0] && AnswerTag[0] != IceCandidateTag[0];
    }
  }

  /** The struct variant `{ data }` of the given kind. */
  function DecodeVariant(k: Kind, data: Json): (r: Decoded<Signal>)
    ensures r.Ok? ==> KindOf(r.value) == k
    ensures k != IceCandidateKind ==> (r.Ok? <==> DecodeData(data, DecodeWebRtcData).Ok?)
    ensures k == IceCandidateKind ==> (r.Ok? <==> DecodeData(data, DecodeIceCandidateWebRtcData).Ok?)
    ensures r.Ok? && r.value.WebRtcOffer? ==>
              DecodeData(data, DecodeWebRtcData) == Ok((r.value.offer.sessionId, r.value.offer.webrtcData))
    ensures r.Ok? && r.value.WebRtcAnswer? ==>
              DecodeData(data, DecodeWebRtcData) == Ok((r.value.answer.sessionId, r.value.answer.webrtcData))
    ensures r.Ok? && r.value.IceCandidate? ==>
              DecodeData(data, DecodeIceCandidateWebRtcData) == Ok((r.value.ice.sessionId, r.value.ice.webrtcData))
  {
    match k
    case OfferKind =>
      var p :- DecodeData(data, DecodeWebRtcData);
      Ok(WebRtcOffer(WebRtcOfferData(p.0, p.1)))
    case AnswerKind =>
      var p :- DecodeData(data, DecodeWebRtcData);
      Ok(WebRtcAnswer(WebRtcAnswerData(p.0, p.1)))
    case IceCandidateKind =>
      var p :- DecodeData(data, DecodeIceCandidateWebRtcData);
      Ok(IceCandidate(IceCandidateData(p.0, p.1)))
  }

  /**
   * Decodes a Signal. In object form the `type` member is looked up among
   * all members and the variant is read from the remaining ones; in array
   * form the first element is the tag and the second the `data` member.
   */
  function Decode(j: Json): Decoded<Signal> {
    match j
    case JObj(fs) =>
      var tag :- Required(fs, "type");
      var k :- DecodeTag(tag);
      var data :- Required(fs, "data");
      DecodeVariant(k, data)
    case JArr(items) =>
      if |items| == 0 then Err(MissingField("type"))
      else
        var k :- DecodeTag(items[0]);
        if |items| != 2 then Err(InvalidLength)
        else DecodeVariant(k, items[1])
    case _ => Err(InvalidType)
  }

  /** The discriminator a decoder reads from `j`, if there is exactly one. */
  function TagMember(j: Json): Option<Json> {
    match j
    case JObj(fs) => if Find(fs, "type").Found? then Some(Find(fs, "type").value) else None
    case JArr(items) => if |items| > 0 then Some(items[0]) else None
    case _ => None
  }

  // ---------------------------------------------------------------- properties

  lemma {:induction false} WebRtcDataRoundTrip(d: WebRtcData)
    ensures DecodeWebRtcData(EncodeWebRtcData(d)) == Ok(d)
  {
    var fs := EncodeWebRtcData(d).fields;
    if d.dataType.Some? {
      assert fs == [("type", JStr(d.dataType.value)), ("sdp", JStr(d.sdp))];
      assert Find(fs[1..], "type") == Absent;
      assert Find(fs, "type") == Found(JStr(d.dataType.value));
      assert Find(fs[1..], "sdp") == Found(JStr(d.sdp));
      assert Find(fs, "sdp") == Found(JStr(d.sdp));
      assert Optional(fs, "type") == Ok(Some(JStr(d.dataType.value)));
    } else {
      assert fs == [("sdp", JStr(d.sdp))];
      assert Find(fs, "type") == Absent;
      assert Find(fs, "sdp") == Found(JStr(d.sdp));
      assert Optional(fs, "type") == Ok(None);
    }
    assert DecodeOptMember(Optional(fs, "type").value, DecodeOptString) == Ok(d.dataType);
    assert Required(fs, "sdp") == Ok(JStr(d.sdp));
  }

  lemma {:induction false} IceCandidateWebRtcDataRoundTrip(d: IceCandidateWebRtcData)
    ensures DecodeIceCandidateWebRtcData(EncodeIceCandidateWebRtcData(d)) == Ok(d)
  {
    var fs := EncodeIceCandidateWebRtcData(d).fields;
    if d.sdpMLineIndex.Some? {
      assert fs == [("candidate", JStr(d.candidate)), ("sdpMLineIndex", JNum(d.sdpMLineIndex.value))];
      assert Find(fs[1..], "candidate") == Absent;
      assert Find(fs, "candidate") == Found(JStr(d.candidate));
      assert Find(fs[1..], "sdpMLineIndex") == Found(JNum(d.sdpMLineIndex.value));
      assert Find(fs, "sdpMLineIndex") == Found(JNum(d.sdpMLineIndex.value));
    } else {
      assert fs == [("candidate", JStr(d.candidate))];
      assert Find(fs, "candidate") == Found(JStr(d.candidate));
      assert Find(fs, "sdpMLineIndex") == Absent;
    }
  }

  lemma {:induction false} DataRoundTrip<P>(id: u64, payload: Json, p: P, dec: Json -> Decoded<P>)
    requires dec(payload) == Ok(p)
    ensures DecodeData(EncodeData(id, payload), dec) == Ok((id, p))
  {
    var fs := EncodeData(id, payload).fields;
    assert Find(fs[1..], "session_id") == Absent;
    assert Find(fs, "session_id") == Found(JNum(id));
    assert Find(fs[1..], "webrtc_data") == Found(payload);
    assert Find(fs, "webrtc_data") == Found(payload);
  }

  /** The envelope: an object whose `type` and `data` members are both unique. */
  lemma DecodeEnvelope(fs: seq<(string, Json)>, tag: Json, data: Json)
    requires Find(fs, "type") == Found(tag) && Find(fs, "data") == Found(data)
    ensures Decode(JObj(fs)) == (match DecodeTag(tag)
                                 case Ok(k) => DecodeVariant(k, data)
                                 case Err(e) => Err(e))
  {
  }

  /** What a decoded object carried: one tag naming the variant, and one `data` member it came from. */
  lemma DecodeObject(fs: seq<(string, Json)>)
    requires Decode(JObj(fs)).Ok?
    ensures Find(fs, "type") == Found(JStr(Tag(Decode(JObj(fs)).value)))
    ensures Find(fs, "data").Found?
    ensures DecodeVariant(KindOf(Decode(JObj(fs)).value), Find(fs, "data").value) == Decode(JObj(fs))
  {
    var tag := Required(fs, "type").value;
    var k := DecodeTag(tag).value;
    var data := Required(fs, "data").value;
    assert Decode(JObj(fs)) == DecodeVariant(k, data);
    assert Find(fs, "type") == Found(tag) && Find(fs, "data") == Found(data);
  }

  /** What a decoded array carried: the tag naming the variant, then the `data` element. */
  lemma DecodeArray(items: seq<Json>)
    requires Decode(JArr(items)).Ok?
    ensures |items| == 2 && items[0] == JStr(Tag(Decode(JArr(items)).value))
    ensures DecodeVariant(KindOf(Decode(JArr(items)).value), items[1]) == Decode(JArr(items))
  {
    var k := DecodeTag(items[0]).value;
    assert Decode(JArr(items)) == DecodeVariant(k, items[1]);
  }

  /** The `data` member of an encoded Signal decodes back as the variant it came from. */
  lemma OfferVariantRoundTrip(d: WebRtcOfferData)
    ensures DecodeVariant(OfferKind, Encode(WebRtcOffer(d)).fields[1].1) == Ok(WebRtcOffer(d))
  {
    var payload := EncodeWebRtcData(d.webrtcData);
    assert Encode(WebRtcOffer(d)).fields[1].1 == EncodeData(d.sessionId, payload);
    WebRtcDataRoundTrip(d.webrtcData);
    DataRoundTrip(d.sessionId, payload, d.webrtcData, DecodeWebRtcData);
  }

  lemma AnswerVariantRoundTrip(d: WebRtcAnswerData)
    ensures DecodeVariant(AnswerKind, Encode(WebRtcAnswer(d)).fields[1].1) == Ok(WebRtcAnswer(d))
  {
    var payload := EncodeWebRtcData(d.webrtcData);
    assert Encode(WebRtcAnswer(d)).fields[1].1 == EncodeData(d.sessionId, payload);
    WebRtcDataRoundTrip(d.webrtcData);
    DataRoundTrip(d.sessionId, payload, d.webrtcData, DecodeWebRtcData);
  }

  lemma IceCandidateVariantRoundTrip(d: IceCandidateData)
    ensures DecodeVariant(IceCandidateKind, Encode(IceCandidate(d)).fields[1].1) == Ok(IceCandidate(d))
  {
    var payload := EncodeIceCandidateWebRtcData(d.webrtcData);
    assert Encode(IceCandidate(d)).fields[1].1 == EncodeData(d.sessionId, payload);
    IceCandidateWebRtcDataRoundTrip(d.webrtcData);
    DataRoundTrip(d.sessionId, payload, d.webrtcData, DecodeIceCandidateWebRtcData);
  }

  /** An encoded Signal has one `type` member, its tag, and one `data` member. */
  lemma EncodedEnvelope(s: Signal)
    ensures Find(Encode(s).fields, "type") == Found(JStr(Tag(s)))
    ensures Find(Encode(s).fields, "data") == Found(Encode(s).fields[1].1)
  {
    var fs := Encode(s).fields;
    var tag, data := JStr(Tag(s)), fs[1].1;
    assert fs == [("type", tag), ("data", data)];
    assert Find(fs[1..], "type") == Absent;
    assert Find(fs[1..], "data") == Found(data);
  }

  /** Decoding an encoded Signal gives it back, None optionals included. */
  lemma {:induction false} RoundTrip(s: Signal)
    ensures Decode(Encode(s)) == Ok(s)
  {
    var fs := Encode(s).fields;
    EncodedEnvelope(s);
    DecodeEnvelope(fs, JStr(Tag(s)), fs[1].1);
    assert DecodeTag(JStr(Tag(s))) == Ok(KindOf(s));
    match s
    case WebRtcOffer(d) => OfferVariantRoundTrip(d);
    case WebRtcAnswer(d) => AnswerVariantRoundTrip(d);
    case IceCandidate(d) => IceCandidateVariantRoundTrip(d);
  }

  /**
   * A value decodes only if it carries exactly one discriminator, that
   * discriminator is one of the three declared tags, and the decoded
   * variant is the one the tag names. Any other `type` value is refused.
   */
  lemma DecodeReadsTag(j: Json)
    ensures Decode(j).Ok? ==> TagMember(j) == Some(JStr(Tag(Decode(j).value)))
    ensures Decode(j).Ok? ==> Tag(Decode(j).value) in {OfferTag, AnswerTag, IceCandidateTag}
  {
    match j
    case JObj(fs) =>
      if Decode(j).Ok? {
        DecodeObject(fs);
      }
    case JArr(items) =>
      if Decode(j).Ok? {
        DecodeArray(items);
      }
    case _ =>
  }

  /**
   * Only objects and arrays can decode. A decoded object had exactly one
   * `data` member and the result is that member decoded as the variant of
   * the result's kind; a decoded array is a pair whose second element
   * decodes the same way.
   */
  lemma DecodeReadsData(j: Json)
    ensures !(j.JObj? || j.JArr?) ==> Decode(j) == Err(InvalidType)
    ensures j.JObj? && Decode(j).Ok? ==>
              Find(j.fields, "data").Found?
              && DecodeVariant(KindOf(Decode(j).value), Find(j.fields, "data").value) == Decode(j)
    ensures j.JArr? && Decode(j).Ok? ==>
              |j.items| == 2 && DecodeVariant(KindOf(Decode(j).value), j.items[1]) == Decode(j)
  {
    match j
    case JObj(fs) =>
      if Decode(j).Ok? {
        DecodeObject(fs);
      }
    case JArr(items) =>
      if Decode(j).Ok? {
        DecodeArray(items);
      }
    case _ =>
  }

  lemma UnknownTagRejected(j: Json, t: string)
    requires TagMember(j) == Some(JStr(t))
    requires t !in {OfferTag, AnswerTag, IceCandidateTag}
    ensures Decode(j).Err?
  {
    DecodeReadsTag(j);
  }

  lemma WebRtcDataNeedsSdp(wd: seq<(string, Json)>)
    requires "sdp" !in Keys(wd)
    ensures DecodeWebRtcData(JObj(wd)).Err?
  {
    assert Required(wd, "sdp").Err?;
    var t := Optional(wd, "type");
    if t.Ok? {
      var dataType := DecodeOptMember(t.value, DecodeOptString);
      if dataType.Ok? {
        assert DecodeWebRtcData(JObj(wd)) == Required(wd, "sdp").PropagateFailure();
      }
    }
  }

  lemma IceCandidateNeedsCandidate(wd: seq<(string, Json)>)
    requires "candidate" !in Keys(wd)
    ensures DecodeIceCandidateWebRtcData(JObj(wd)).Err?
  {
    assert Required(wd, "candidate").Err?;
  }

  lemma DataPropagatesPayloadError<P>(data: seq<(string, Json)>, payload: Json -> Decoded<P>)
    requires Find(data, "webrtc_data").Found? && payload(Find(data, "webrtc_data").value).Err?
    ensures DecodeData(JObj(data), payload).Err?
  {
  }

  /** A variant whose `data` member does not decode is refused. */
  lemma VariantPropagatesDataError(k: Kind, data: Json)
    requires k == IceCandidateKind ==> DecodeData(data, DecodeIceCandidateWebRtcData).Err?
    requires k != IceCandidateKind ==> DecodeData(data, DecodeWebRtcData).Err?
    ensures DecodeVariant(k, data).Err?
  {
  }

  /** An object whose `data` member fails for the kind its tag names is refused. */
  lemma EnvelopePropagatesVariantError(fs: seq<(string, Json)>, data: Json)
    requires Find(fs, "data") == Found(data)
    requires Find(fs, "type").Found? && DecodeTag(Find(fs, "type").value).Ok?
             ==> DecodeVariant(DecodeTag(Find(fs, "type").value).value, data).Err?
    ensures Decode(JObj(fs)).Err?
  {
    if Find(fs, "type").Found? {
      DecodeEnvelope(fs, Find(fs, "type").value, data);
    }
  }

  /** An object without `session_id` in its `data` member never decodes. */
  lemma MissingSessionIdRejected(fs: seq<(string, Json)>, data: seq<(string, Json)>)
    requires Find(fs, "data") == Found(JObj(data))
    requires "session_id" !in Keys(data)
    ensures Decode(JObj(fs)).Err?
  {
    assert Required(data, "session_id").Err?;
    assert DecodeData(JObj(data), DecodeWebRtcData).Err?;
    assert DecodeData(JObj(data), DecodeIceCandidateWebRtcData).Err?;
    forall k: Kind ensures DecodeVariant(k, JObj(data)).Err? {
      VariantPropagatesDataError(k, JObj(data));
    }
    EnvelopePropagatesVariantError(fs, JObj(data));
  }

  /** An offer or answer payload without `sdp` never decodes. */
  lemma MissingSdpRejected(fs: seq<(string, Json)>, data: seq<(string, Json)>, wd: seq<(string, Json)>)
    requires Find(fs, "type") in {Found(JStr(OfferTag)), Found(JStr(AnswerTag))}
    requires Find(fs, "data") == Found(JObj(data))
    requires Find(data, "webrtc_data") == Found(JObj(wd))
    requires "sdp" !in Keys(wd)
    ensures Decode(JObj(fs)).Err?
  {
    WebRtcDataNeedsSdp(wd);
    DataPropagatesPayloadError(data, DecodeWebRtcData);
    var k := DecodeTag(Find(fs, "type").value).value;
    assert k != IceCandidateKind;
    VariantPropagatesDataError(k, JObj(data));
    EnvelopePropagatesVariantError(fs, JObj(data));
  }

  /** A candidate payload without `candidate` never decodes. */
  lemma MissingCandidateRejected(fs: seq<(string, Json)>, data: seq<(string, Json)>, wd: seq<(string, Json)>)
    requires Find(fs, "type") == Found(JStr(IceCandidateTag))
    requires Find(fs, "data") == Found(JObj(data))
    requires Find(data, "webrtc_data") == Found(JObj(wd))
    requires "candidate" !in Keys(wd)
    ensures Decode(JObj(fs)).Err?
  {
    IceCandidateNeedsCandidate(wd);
    DataPropagatesPayloadError(data, DecodeIceCandidateWebRtcData);
    VariantPropagatesDataError(IceCandidateKind, JObj(data));
    TagsDecode();
    EnvelopePropagatesVariantError(fs, JObj(data));
  }

  const PeerPayload: seq<(string, Json)> := [("sdp", JStr("x")), ("type", JNull)]
  const PeerData: seq<(string, Json)> :=
    [("webrtc_data", JObj(PeerPayload)), ("extra", JBool(true)), ("session_id", JNum(5))]
  const PeerAnswer: seq<(string, Json)> := [("data", JObj(PeerData)), ("type", JStr(AnswerTag))]

  lemma PeerPayloadDecodes()
    ensures DecodeWebRtcData(JObj(PeerPayload)) == Ok(WebRtcData(None, "x"))
  {
    var wd := PeerPayload;
    assert Find(wd[1..], "type") == Found(JNull);
    assert Find(wd, "type") == Found(JNull);
    assert Find(wd[1..], "sdp") == Absent;
    assert Find(wd, "sdp") == Found(JStr("x"));
  }

  lemma PeerDataDecodes()
    ensures DecodeData(JObj(PeerData), DecodeWebRtcData) == Ok((5, WebRtcData(None, "x")))
  {
    var data := PeerData;
    assert Find(data[2..], "session_id") == Found(JNum(5));
    assert Find(data[1..], "session_id") == Found(JNum(5));
    assert Find(data, "session_id") == Found(JNum(5));
    assert Find(data[2..], "webrtc_data") == Absent;
    assert Find(data[1..], "webrtc_data") == Absent;
    assert Find(data, "webrtc_data") == Found(JObj(PeerPayload));
    PeerPayloadDecodes();
    DataFromMembers(data, 5, JObj(PeerPayload), WebRtcData(None, "x"), DecodeWebRtcData);
  }

  /**
   * A peer need not write members in this crate's order: an answer with the
   * tag last, an extra member, and a null `type` in its payload decodes.
   */
  lemma ReorderedAnswerDecodes()
    ensures Decode(JObj(PeerAnswer)) == Ok(WebRtcAnswer(WebRtcAnswerData(5, WebRtcData(None, "x"))))
  {
    var fs := PeerAnswer;
    assert Find(fs[1..], "type") == Found(JStr(AnswerTag));
    assert Find(fs, "type") == Found(JStr(AnswerTag));
    assert Find(fs[1..], "data") == Absent;
    assert Find(fs, "data") == Found(JObj(PeerData));
    DecodeEnvelope(fs, JStr(AnswerTag), JObj(PeerData));
    PeerDataDecodes();
    assert DecodeVariant(AnswerKind, JObj(PeerData)) == Ok(WebRtcAnswer(WebRtcAnswerData(5, WebRtcData(None, "x"))));
  }

  // ------------------------------------------------ what any layout decodes to

  /**
   * A `data` object decodes exactly when it has one `session_id` in range
   * and one `webrtc_data` the payload decoder accepts, wherever they stand
   * and whatever other members it has.
   */
  lemma DataObjectDecodes<P>(fs: seq<(string, Json)>, payload: Json -> Decoded<P>)
    ensures DecodeData(JObj(fs), payload).Ok?
        <==> && Find(fs, "session_id").Found? && DecodeU64(Find(fs, "session_id").value).Ok?
             && Find(fs, "webrtc_data").Found? && payload(Find(fs, "webrtc_data").value).Ok?
    ensures DecodeData(JObj(fs), payload).Ok? ==>
              DecodeData(JObj(fs), payload).value
              == (Find(fs, "session_id").value.n, payload(Find(fs, "webrtc_data").value).value)
  {
    var i, p := Find(fs, "session_id"), Find(fs, "webrtc_data");
    if i.Found? && p.Found? {
      assert Required(fs, "session_id") == Ok(i.value);
      assert Required(fs, "webrtc_data") == Ok(p.value);
    } else if i.Found? {
      assert Required(fs, "webrtc_data").Err?;
    } else {
      assert Required(fs, "session_id").Err?;
    }
  }

  /**
   * A session description object decodes exactly when it has one string
   * `sdp` and at most one `type`, which is null or a string; the data type
   * is None exactly when `type` is absent or null.
   */
  lemma WebRtcDataObjectDecodes(fs: seq<(string, Json)>)
    ensures DecodeWebRtcData(JObj(fs)).Ok?
        <==> && Find(fs, "sdp").Found? && Find(fs, "sdp").value.JStr?
             && !Find(fs, "type").Duplicate?
             && (Find(fs, "type").Found? ==> Find(fs, "type").value.JNull? || Find(fs, "type").value.JStr?)
    ensures DecodeWebRtcData(JObj(fs)).Ok? ==>
              DecodeWebRtcData(JObj(fs)).value
              == WebRtcData(if Find(fs, "type").Found? && Find(fs, "type").value.JStr?
                            then Some(Find(fs, "type").value.s) else None,
                            Find(fs, "sdp").value.s)
  {
    var t, d := Find(fs, "type"), Find(fs, "sdp");
    if !t.Duplicate? && d.Found? {
      var opt := if t.Absent? then None else Some(t.value);
      assert Optional(fs, "type") == Ok(opt);
      assert Required(fs, "sdp") == Ok(d.value);
    } else if t.Duplicate? {
      assert Optional(fs, "type").Err?;
    } else {
      assert Required(fs, "sdp").Err?;
    }
  }

  /**
   * A candidate object decodes exactly when it has one string `candidate`
   * and at most one `sdpMLineIndex`, which is null or a number in
   * 0..65535; the index is None exactly when that member is absent or null.
   */
  lemma IceCandidateObjectDecodes(fs: seq<(string, Json)>)
    ensures DecodeIceCandidateWebRtcData(JObj(fs)).Ok?
        <==> && Find(fs, "candidate").Found? && Find(fs, "candidate").value.JStr?
             && !Find(fs, "sdpMLineIndex").Duplicate?
             && (Find(fs, "sdpMLineIndex").Found? ==>
                   Find(fs, "sdpMLineIndex").value.JNull?
                   || (Find(fs, "sdpMLineIndex").value.JNum? && 0 <= Find(fs, "sdpMLineIndex").value.n <= 65535))
    ensures DecodeIceCandidateWebRtcData(JObj(fs)).Ok? ==>
              DecodeIceCandidateWebRtcData(JObj(fs)).value
              == IceCandidateWebRtcData(Find(fs, "candidate").value.s,
                                        if Find(fs, "sdpMLineIndex").Found? && Find(fs, "sdpMLineIndex").value.JNum?
                                        then Some(Find(fs, "sdpMLineIndex").value.n) else None)
  {
    var c, i := Find(fs, "candidate"), Find(fs, "sdpMLineIndex");
    if c.Found? && !i.Duplicate? {
      var opt := if i.Absent? then None else Some(i.value);
      assert Required(fs, "candidate") == Ok(c.value);
      assert Optional(fs, "sdpMLineIndex") == Ok(opt);
    } else if c.Found? {
      assert Optional(fs, "sdpMLineIndex").Err?;
    } else {
      assert Required(fs, "candidate").Err?;
    }
  }

  /** A `data` object with one `session_id` and one `webrtc_data` the payload decoder accepts. */
  lemma DataFromMembers<P>(fs: seq<(string, Json)>, id: u64, pj: Json, p: P, payload: Json -> Decoded<P>)
    requires Find(fs, "session_id") == Found(JNum(id)) && Find(fs, "webrtc_data") == Found(pj)
    requires payload(pj) == Ok(p)
    ensures DecodeData(JObj(fs), payload) == Ok((id, p))
  {
    DataObjectDecodes(fs, payload);
  }

  /** A session description object with one string `sdp` and a matching `type` member or none. */
  lemma WebRtcDataFromMembers(fs: seq<(string, Json)>, w: WebRtcData)
    requires Find(fs, "sdp") == Found(JStr(w.sdp))
    requires if w.dataType.Some? then Find(fs, "type") == Found(JStr(w.dataType.value))
             else Find(fs, "type").Absent? || Find(fs, "type") == Found(JNull)
    ensures DecodeWebRtcData(JObj(fs)) == Ok(w)
  {
    WebRtcDataObjectDecodes(fs);
  }

  /** A candidate object with one string `candidate` and a matching `sdpMLineIndex` member or none. */
  lemma IceCandidateFromMembers(fs: seq<(string, Json)>, w: IceCandidateWebRtcData)
    requires Find(fs, "candidate") == Found(JStr(w.candidate))
    requires if w.sdpMLineIndex.Some? then Find(fs, "sdpMLineIndex") == Found(JNum(w.sdpMLineIndex.value))
             else Find(fs, "sdpMLineIndex").Absent? || Find(fs, "sdpMLineIndex") == Found(JNull)
    ensures DecodeIceCandidateWebRtcData(JObj(fs)) == Ok(w)
  {
    IceCandidateObjectDecodes(fs);
  }

  /** An object whose tag names answers and whose unique `data` decodes as answer data. */
  lemma AnswerFromData(fs: seq<(string, Json)>, data: Json, id: u64, w: WebRtcData)
    requires Find(fs, "type") == Found(JStr(AnswerTag)) && Find(fs, "data") == Found(data)
    requires DecodeData(data, DecodeWebRtcData) == Ok((id, w))
    ensures Decode(JObj(fs)) == Ok(WebRtcAnswer(WebRtcAnswerData(id, w)))
  {
    DecodeEnvelope(fs, JStr(AnswerTag), data);
    TagsDecode();
  }

  /** An object whose tag names candidates and whose unique `data` decodes as candidate data. */
  lemma CandidateFromData(fs: seq<(string, Json)>, data: Json, id: u64, w: IceCandidateWebRtcData)
    requires Find(fs, "type") == Found(JStr(IceCandidateTag)) && Find(fs, "data") == Found(data)
    requires DecodeData(data, DecodeIceCandidateWebRtcData) == Ok((id, w))
    ensures Decode(JObj(fs)) == Ok(IceCandidate(IceCandidateData(id, w)))
  {
    DecodeEnvelope(fs, JStr(IceCandidateTag), data);
    TagsDecode();
  }

  /**
   * The positional form of `data`: `[session_id, webrtc_data]` decodes
   * exactly when the id is in range and the payload decoder accepts the
   * second element, and yields the two in declaration order.
   */
  lemma DataArrayDecodes<P>(items: seq<Json>, payload: Json -> Decoded<P>)
    ensures DecodeData(JArr(items), payload).Ok?
        <==> |items| == 2 && DecodeU64(items[0]).Ok? && payload(items[1]).Ok?
    ensures DecodeData(JArr(items), payload).Ok? ==>
              DecodeData(JArr(items), payload).value == (items[0].n, payload(items[1]).value)
  {
  }

  /** The positional form `[type, sdp]` of a session description yields the two fields in order. */
  lemma WebRtcDataArrayDecodes(items: seq<Json>)
    ensures DecodeWebRtcData(JArr(items)).Ok? ==>
              DecodeWebRtcData(JArr(items)).value
              == WebRtcData(if items[0].JStr? then Some(items[0].s) else None, items[1].s)
  {
  }

  /** The positional form `[candidate, sdpMLineIndex]` yields the two fields in order. */
  lemma IceCandidateArrayDecodes(items: seq<Json>)
    ensures DecodeIceCandidateWebRtcData(JArr(items)).Ok? ==>
              DecodeIceCandidateWebRtcData(JArr(items)).value
              == IceCandidateWebRtcData(items[0].s, if items[1].JNum? then Some(items[1].n) else None)
  {
  }

  /** An answer whose `data` is written positionally, `[5, [null, "v=0"]]`, carries that id and SDP. */
  lemma PositionalAnswerDecodes()
    ensures Decode(JObj([("type", JStr(AnswerTag)),
                         ("data", JArr([JNum(5), JArr([JNull, JStr("v=0")])]))]))
         == Ok(WebRtcAnswer(WebRtcAnswerData(5, WebRtcData(None, "v=0"))))
  {
    var payload := JArr([JNull, JStr("v=0")]);
    var data := JArr([JNum(5), payload]);
    var fs := [("type", JStr(AnswerTag)), ("data", data)];
    WebRtcDataArrayDecodes(payload.items);
    assert DecodeWebRtcData(payload) == Ok(WebRtcData(None, "v=0"));
    DataArrayDecodes(data.items, DecodeWebRtcData);
    assert DecodeData(data, DecodeWebRtcData) == Ok((5, WebRtcData(None, "v=0")));
    assert Find(fs[1..], "type") == Absent;
    assert Find(fs[1..], "data") == Found(data);
    AnswerFromData(fs, data, 5, WebRtcData(None, "v=0"));
  }

  /** The positional form `[tag, data]` with a known tag is decoded as that variant. */
  lemma ArrayDecodesAsVariant(items: seq<Json>)
    requires |items| == 2 && DecodeTag(items[0]).Ok?
    ensures Decode(JArr(items)) == DecodeVariant(DecodeTag(items[0]).value, items[1])
  {
  }

  /**
   * Any layout of an answer decodes: the tag, `data`, `session_id`,
   * `webrtc_data` and `sdp` each once, in any order, among any other
   * members, with the payload's `type` absent, null or a string.
   */
  lemma AnyAnswerLayoutDecodes(fs: seq<(string, Json)>, data: seq<(string, Json)>, wd: seq<(string, Json)>,
                               id: u64, w: WebRtcData)
    requires Find(fs, "type") == Found(JStr(AnswerTag)) && Find(fs, "data") == Found(JObj(data))
    requires Find(data, "session_id") == Found(JNum(id)) && Find(data, "webrtc_data") == Found(JObj(wd))
    requires Find(wd, "sdp") == Found(JStr(w.sdp))
    requires if w.dataType.Some? then Find(wd, "type") == Found(JStr(w.dataType.value))
             else Find(wd, "type").Absent? || Find(wd, "type") == Found(JNull)
    ensures Decode(JObj(fs)) == Ok(WebRtcAnswer(WebRtcAnswerData(id, w)))
  {
    WebRtcDataFromMembers(wd, w);
    DataFromMembers(data, id, JObj(wd), w, DecodeWebRtcData);
    AnswerFromData(fs, JObj(data), id, w);
  }

  /**
   * Any layout of a remote candidate decodes, and keeps its index: the tag,
   * `data`, `session_id`, `webrtc_data` and `candidate` each once, in any
   * order, among any other members, with `sdpMLineIndex` absent, null or
   * a number in range.
   */
  lemma AnyCandidateLayoutDecodes(fs: seq<(string, Json)>, data: seq<(string, Json)>, wd: seq<(string, Json)>,
                                  id: u64, w: IceCandidateWebRtcData)
    requires Find(fs, "type") == Found(JStr(IceCandidateTag)) && Find(fs, "data") == Found(JObj(data))
    requires Find(data, "session_id") == Found(JNum(id)) && Find(data, "webrtc_data") == Found(JObj(wd))
    requires Find(wd, "candidate") == Found(JStr(w.candidate))
    requires if w.sdpMLineIndex.Some? then Find(wd, "sdpMLineIndex") == Found(JNum(w.sdpMLineIndex.value))
             else Find(wd, "sdpMLineIndex").Absent? || Find(wd, "sdpMLineIndex") == Found(JNull)
    ensures Decode(JObj(fs)) == Ok(IceCandidate(IceCandidateData(id, w)))
  {
    IceCandidateFromMembers(wd, w);
    DataFromMembers(data, id, JObj(wd), w, DecodeIceCandidateWebRtcData);
    CandidateFromData(fs, JObj(data), id, w);
  }

  /** Offers and answers with the same contents differ on the wire only in the tag. */
  lemma OfferAnswerDifferOnlyInTag(id: u64, d: WebRtcData)
    ensures Encode(WebRtcOffer(WebRtcOfferData(id, d))).fields[1..]
         == Encode(WebRtcAnswer(WebRtcAnswerData(id, d))).fields[1..]
    ensures Encode(WebRtcOffer(WebRtcOfferData(id, d))).fields[0] == ("type", JStr(OfferTag))
    ensures Encode(WebRtcAnswer(WebRtcAnswerData(id, d))).fields[0] == ("type", JStr(AnswerTag))
  {
  }
}
