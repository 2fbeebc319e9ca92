/** The persisted records of the local message store and the pure functions
    that build them (xmtp/src/storage/encrypted_store/models.rs).

    The wall clock `now()` is a parameter (`now`) of every constructor that
    stamps a time. SHA-256 (`sha256_bytes`) and prost's `encode_to_vec` are
    parameters as well: nothing is assumed about them, so every fact below
    holds whichever digest and encoder the program links against. */
module Models {
  import opened Basics
  import opened Text
  import opened Errors

  /** `sha256_bytes` */
  type Digest = Bytes -> Bytes
  /** `String::encode_to_vec` from prost */
  type StringEncoder = string -> Bytes

  // ---------------------------------------------------------------------
  // State-code enums, stored as small integers
  // ---------------------------------------------------------------------

  datatype ConversationState = Uninitialized | Invited | InviteReceived {
    function Code(): (c: int32)
      ensures c in {0, 10, 20}
      ensures (c == 0) == Uninitialized?
    {
      match this
      case Uninitialized => 0
      case Invited => 10
      case InviteReceived => 20
    }
  }

  datatype MessageState = Unprocessed | LocallyCommitted | Received {
    function Code(): (c: int32)
      ensures c in {0, 10, 20}
      ensures (c == 0) == Unprocessed?
    {
      match this
      case Unprocessed => 0
      case LocallyCommitted => 10
      case Received => 20
    }
  }

  datatype OutboundPayloadState = OutboundPending | ServerAcknowledged {
    function Code(): (c: int32)
      ensures c in {0, 10}
      ensures (c == 0) == OutboundPending?
    {
      match this
      case OutboundPending => 0
      case ServerAcknowledged => 10
    }
  }

  datatype InboundInviteStatus = InvitePending | InviteProcessed | InviteDecryptionFailure | InviteInvalid {
    function Code(): (c: int16)
      ensures 0 <= c <= 3
      ensures (c == 0) == InvitePending?
    {
      match this
      case InvitePending => 0
      case InviteProcessed => 1
      case InviteDecryptionFailure => 2
      case InviteInvalid => 3
    }
  }

  datatype InboundMessageStatus = MessagePending | MessageProcessed | MessageDecryptionFailure | MessageInvalid {
    function Code(): (c: int16)
      ensures 0 <= c <= 3
      ensures (c == 0) == MessagePending?
    {
      match this
      case MessagePending => 0
      case MessageProcessed => 1
      case MessageDecryptionFailure => 2
      case MessageInvalid => 3
    }
  }

  /** Each enum stores its variants under distinct codes, so a stored code
      identifies the variant it was written from. */
  lemma ConversationStateCodesDistinct(a: ConversationState, b: ConversationState)
    ensures a.Code() == b.Code() <==> a == b
  {
  }

  lemma MessageStateCodesDistinct(a: MessageState, b: MessageState)
    ensures a.Code() == b.Code() <==> a == b
  {
  }

  lemma OutboundPayloadStateCodesDistinct(a: OutboundPayloadState, b: OutboundPayloadState)
    ensures a.Code() == b.Code() <==> a == b
  {
  }

  /** Invites and messages use one numbering for their four statuses. */
  lemma InboundStatusCodesDistinct(a: InboundInviteStatus, b: InboundInviteStatus,
                                   c: InboundMessageStatus, d: InboundMessageStatus)
    ensures a.Code() == b.Code() <==> a == b
    ensures c.Code() == d.Code() <==> c == d
    ensures InboundInviteStatus.InvitePending.Code() == InboundMessageStatus.MessagePending.Code() == 0
  {
  }

  // ---------------------------------------------------------------------
  // Users, conversations, messages
  // ---------------------------------------------------------------------

  datatype StoredUser = StoredUser(userAddress: string, createdAt: int64, lastRefreshed: int64)

  datatype StoredConversation = StoredConversation(
    convoId: string, peerAddress: string, createdAt: int64, convoState: int32)

  /** A row of the `messages` table; `id` is assigned by the store. */
  datatype StoredMessage = StoredMessage(
    id: int32, createdAt: int64, sentAtNs: int64, convoId: string,
    addrFrom: string, content: Bytes, state: int32)

  /** A message about to be inserted: a `StoredMessage` without its `id`. */
  datatype NewStoredMessage = NewStoredMessage(
    createdAt: int64, sentAtNs: int64, convoId: string,
    addrFrom: string, content: Bytes, state: int32)

  /** `NewStoredMessage::new`, stamped with the clock value `now`. */
  function NewMessage(convoId: string, addrFrom: string, content: Bytes, state: int32,
                      sentAtNs: int64, now: int64): (m: NewStoredMessage)
    ensures m.convoId == convoId && m.addrFrom == addrFrom && m.content == content
    ensures m.state == state && m.sentAtNs == sentAtNs
    ensures m.createdAt == now
  {
    NewStoredMessage(now, sentAtNs, convoId, addrFrom, content, state)
  }

  /** The hand-written `PartialEq<StoredMessage> for NewStoredMessage`: record
      equality once `id` is dropped and `state` is disregarded, so it looks
      at exactly five columns. */
  predicate MatchesStored(n: NewStoredMessage, m: StoredMessage): (b: bool)
    ensures b <==> n.(state := 0) == Unstored(m).(state := 0)
  {
    && n.createdAt == m.createdAt
    && n.sentAtNs == m.sentAtNs
    && n.convoId == m.convoId
    && n.addrFrom == m.addrFrom
    && n.content == m.content
  }

  /** The insertable form of a stored row: the row without its `id`. */
  function Unstored(m: StoredMessage): NewStoredMessage {
    NewStoredMessage(m.createdAt, m.sentAtNs, m.convoId, m.addrFrom, m.content, m.state)
  }

  /** Neither the store-assigned `id` nor the `state` of either side affects the comparison. */
  lemma MatchesStoredIgnoresIdAndState(n: NewStoredMessage, m: StoredMessage, id: int32, s1: int32, s2: int32)
    ensures MatchesStored(n, m) <==> MatchesStored(n.(state := s1), m.(id := id, state := s2))
  {
  }

  /** So the comparison is strictly weaker than equality of the insertable
      forms: a new message in one state matches a row in another. */
  lemma MatchesStoredDespiteDifferentState()
    ensures exists n: NewStoredMessage, m: StoredMessage :: MatchesStored(n, m) && n.state != m.state
  {
    var n := NewMessage("c1", "0xabc", [9], MessageState.Unprocessed.Code(), 5, 7);
    var m := StoredMessage(1, 7, 5, "c1", "0xabc", [9], MessageState.Received.Code());
    assert MatchesStored(n, m) && n.state != m.state;
  }

  /** A message built with clock value `now` matches the row the store
      makes of it, whatever `id` the store assigns and whatever state the
      row has reached since. */
  lemma NewMessageMatchesItsRow(convoId: string, addrFrom: string, content: Bytes, state: int32,
                                sentAtNs: int64, now: int64, id: int32, rowState: int32)
    ensures MatchesStored(NewMessage(convoId, addrFrom, content, state, sentAtNs, now),
                          StoredMessage(id, now, sentAtNs, convoId, addrFrom, content, rowState))
  {
  }

  // ---------------------------------------------------------------------
  // Outbound payloads
  // ---------------------------------------------------------------------

  datatype StoredOutboundPayload = StoredOutboundPayload(
    payloadId: string, createdAtNs: int64, contentTopic: string, payload: Bytes,
    outboundPayloadState: int32, lockedUntilNs: int64)

  /** The string `format!("{created_at_ns}:{content_topic}")` that is hashed into `payload_id`. */
  function OutboundIdPreimage(createdAtNs: int64, contentTopic: string): (s: string)
    ensures |s| > |contentTopic|
  {
    IntToString(createdAtNs) + ":" + contentTopic
  }

  /** Distinct (creation time, topic) pairs give distinct hashed strings:
      the decimal time contains no ':' so the first ':' splits the pair back out. */
  lemma OutboundIdPreimageInjective(n1: int64, t1: string, n2: int64, t2: string)
    ensures OutboundIdPreimage(n1, t1) == OutboundIdPreimage(n2, t2) <==> n1 == n2 && t1 == t2
  {
    SeparatedSplit(IntToString(n1), t1, IntToString(n2), t2, ':');
    IntToStringInjective(n1, n2);
  }

  /** `StoredOutboundPayload::new`. */
  function NewOutboundPayload(createdAtNs: int64, contentTopic: string, payload: Bytes,
                              outboundPayloadState: int32, lockedUntilNs: int64,
                              sha256: Digest, encodeToVec: StringEncoder): (p: StoredOutboundPayload)
    ensures p.createdAtNs == createdAtNs && p.contentTopic == contentTopic
    ensures p.payload == payload && p.outboundPayloadState == outboundPayloadState
    ensures p.lockedUntilNs == lockedUntilNs
    ensures HexDecode(p.payloadId) == Some(sha256(encodeToVec(OutboundIdPreimage(createdAtNs, contentTopic))))
  {
    var digest := sha256(encodeToVec(OutboundIdPreimage(createdAtNs, contentTopic)));
    HexRoundTrip(digest);
    StoredOutboundPayload(HexEncode(digest), createdAtNs, contentTopic, payload,
                          outboundPayloadState, lockedUntilNs)
  }

  /** `payload_id` is a function of `created_at_ns` and `content_topic` only:
      payload bytes, state and lease never influence it. */
  lemma OutboundIdIgnoresPayloadStateAndLease(
    createdAtNs: int64, contentTopic: string,
    payload1: Bytes, state1: int32, locked1: int64,
    payload2: Bytes, state2: int32, locked2: int64,
    sha256: Digest, encodeToVec: StringEncoder)
    ensures NewOutboundPayload(createdAtNs, contentTopic, payload1, state1, locked1, sha256, encodeToVec).payloadId
         == NewOutboundPayload(createdAtNs, contentTopic, payload2, state2, locked2, sha256, encodeToVec).payloadId
  {
  }

  /** Two outbound payloads share an id exactly when the digests of their
      encoded preimages coincide; for distinct (time, topic) pairs the
      preimages themselves always differ, so only the digest or the encoder
      can make them collide. */
  lemma OutboundIdsEqualIff(n1: int64, t1: string, n2: int64, t2: string,
                            payload1: Bytes, state1: int32, locked1: int64,
                            payload2: Bytes, state2: int32, locked2: int64,
                            sha256: Digest, encodeToVec: StringEncoder)
    ensures NewOutboundPayload(n1, t1, payload1, state1, locked1, sha256, encodeToVec).payloadId
         == NewOutboundPayload(n2, t2, payload2, state2, locked2, sha256, encodeToVec).payloadId
       <==> sha256(encodeToVec(OutboundIdPreimage(n1, t1))) == sha256(encodeToVec(OutboundIdPreimage(n2, t2)))
    ensures (n1, t1) != (n2, t2) ==> OutboundIdPreimage(n1, t1) != OutboundIdPreimage(n2, t2)
  {
    HexEncodeInjective(sha256(encodeToVec(OutboundIdPreimage(n1, t1))),
                       sha256(encodeToVec(OutboundIdPreimage(n2, t2))));
    OutboundIdPreimageInjective(n1, t1, n2, t2);
  }

  // ---------------------------------------------------------------------
  // Sessions
  // ---------------------------------------------------------------------

  /** A row of the `sessions` table; `vmacSessionData` is opaque ratchet state. */
  datatype StoredSession = StoredSession(
    sessionId: string, createdAt: int64, updatedAt: int64,
    peerInstallationId: string, vmacSessionData: Bytes, userAddress: string)

  /** `StoredSession::new`: both timestamps come from one reading of the clock. */
  function NewSession(sessionId: string, peerInstallationId: string, vmacSessionData: Bytes,
                      userAddress: string, now: int64): (s: StoredSession)
    ensures s.createdAt == s.updatedAt == now
    ensures s.sessionId == sessionId && s.peerInstallationId == peerInstallationId
    ensures s.vmacSessionData == vmacSessionData && s.userAddress == userAddress
  {
    StoredSession(sessionId, now, now, peerInstallationId, vmacSessionData, userAddress)
  }

  // ---------------------------------------------------------------------
  // Accounts
  // ---------------------------------------------------------------------

  datatype StoredAccount = StoredAccount(id: int32, createdAt: int64, serializedKey: Bytes)

  datatype NewStoredAccount = NewStoredAccount(createdAt: int64, serializedKey: Bytes)

  const NewAccountErrorPrefix: string := "could not initialize model:NewStoredAccount -- "

  /** `TryFrom<&Account> for NewStoredAccount`; `toJson` stands for
      `serde_json::to_vec`, returning the serialiser's error message on failure. */
  function NewAccount<A>(account: A, toJson: A -> Result<Bytes, string>, now: int64)
    : (r: Result<NewStoredAccount, StorageError>)
    ensures r.Ok? <==> toJson(account).Ok?
    ensures r.Ok? ==> r.value.createdAt == now && r.value.serializedKey == toJson(account).value
    ensures r.Err? ==> && r.error.Store?
                       && |r.error.message| >= |NewAccountErrorPrefix|
                       && r.error.message[..|NewAccountErrorPrefix|] == NewAccountErrorPrefix
                       && r.error.message[|NewAccountErrorPrefix|..] == toJson(account).error
  {
    match toJson(account)
    case Ok(key) => Ok(NewStoredAccount(now, key))
    case Err(e) => Err(Store(NewAccountErrorPrefix + e))
  }

  // ---------------------------------------------------------------------
  // Installations
  // ---------------------------------------------------------------------

  /** What `StoredInstallation::new` observes of a peer's `Contact`: its
      wallet address, the result of `installation_id()`, and the outcome of
      serialising it (`TryInto<Vec<u8>>`). */
  datatype Contact = Contact(walletAddress: string, installationId: string,
                             serialized: Result<Bytes, ContactError>)

  datatype StoredInstallation = StoredInstallation(
    installationId: string, userAddress: string, firstSeenNs: int64,
    contact: Bytes, expiresAtNs: Option<int64>)

  /** `StoredInstallation::new`: a serialisation failure is returned as is
      and no record is built. */
  function NewInstallation(contact: Contact, now: int64): (r: Result<StoredInstallation, ContactError>)
    ensures r.Err? <==> contact.serialized.Err?
    ensures r.Err? ==> r.error == contact.serialized.error
    ensures r.Ok? ==> && r.value.installationId == contact.installationId
                      && r.value.userAddress == contact.walletAddress
                      && r.value.contact == contact.serialized.value
                      && r.value.firstSeenNs == now
                      && r.value.expiresAtNs == None
  {
    match contact.serialized
    case Err(e) => Err(e)
    case Ok(bytes) => Ok(StoredInstallation(contact.installationId, contact.walletAddress, now, bytes, None))
  }

  // ---------------------------------------------------------------------
  // Refresh jobs
  // ---------------------------------------------------------------------

  datatype RefreshJobKind = InviteJob | MessageJob {
    /** `Display for RefreshJobKind`. */
    function ToString(): (s: string)
      ensures s == "invite" || s == "message"
      ensures (s == "invite") == InviteJob?
    {
      match this
      case InviteJob => "invite"
      case MessageJob => "message"
    }
  }

  /** The two job kinds render as distinct, non-empty names. */
  lemma RefreshJobKindNamesDistinct(a: RefreshJobKind, b: RefreshJobKind)
    ensures a.ToString() == b.ToString() <==> a == b
    ensures |a.ToString()| > 0
  {
  }

  /** A row of `refresh_jobs`: one watermark per job kind. */
  datatype RefreshJob = RefreshJob(id: string, lastRun: int64)

  // ---------------------------------------------------------------------
  // Inbound intake
  // ---------------------------------------------------------------------

  /** A network envelope as delivered by the message API. */
  datatype Envelope = Envelope(contentTopic: string, timestampNs: uint64, message: Bytes)

  datatype InboundInvite = InboundInvite(id: string, sentAtNs: int64, payload: Bytes, topic: string, status: int16)

  datatype InboundMessage = InboundMessage(id: string, sentAtNs: int64, payload: Bytes, topic: string, status: int16)

  /** The bytes hashed into an inbound id: the payload followed by the topic's UTF-8 bytes. */
  function InboundIdPreimage(payload: Bytes, topic: string): (b: Bytes)
    ensures |b| >= |payload| + |topic|
    ensures b[..|payload|] == payload
  {
    payload + Utf8(topic)
  }

  /** `hex(sha256(payload ‖ topic))`, the dedup key of both inbound tables. */
  function InboundId(payload: Bytes, topic: string, sha256: Digest): (id: string)
    ensures HexDecode(id) == Some(sha256(InboundIdPreimage(payload, topic)))
  {
    var digest := sha256(InboundIdPreimage(payload, topic));
    HexRoundTrip(digest);
    HexEncode(digest)
  }

  /** `From<Envelope> for InboundInvite`; the `u64 -> i64` conversion is
      unwrapped, so a timestamp above `i64::MAX` is a panic, excluded here. */
  function InviteFromEnvelope(e: Envelope, sha256: Digest): (r: InboundInvite)
    requires e.timestampNs <= INT64_MAX
    ensures r.payload == e.message && r.topic == e.contentTopic
    ensures r.sentAtNs == e.timestampNs
    ensures r.status == InboundInviteStatus.InvitePending.Code() == 0
    ensures HexDecode(r.id) == Some(sha256(e.message + Utf8(e.contentTopic)))
  {
    InboundInvite(InboundId(e.message, e.contentTopic, sha256), e.timestampNs,
                  e.message, e.contentTopic, InboundInviteStatus.InvitePending.Code())
  }

  /** `From<Envelope> for InboundMessage`, with the same panic condition. */
  function MessageFromEnvelope(e: Envelope, sha256: Digest): (r: InboundMessage)
    requires e.timestampNs <= INT64_MAX
    ensures r.payload == e.message && r.topic == e.contentTopic
    ensures r.sentAtNs == e.timestampNs
    ensures r.status == InboundMessageStatus.MessagePending.Code() == 0
    ensures HexDecode(r.id) == Some(sha256(e.message + Utf8(e.contentTopic)))
  {
    InboundMessage(InboundId(e.message, e.contentTopic, sha256), e.timestampNs,
                   e.message, e.contentTopic, InboundMessageStatus.MessagePending.Code())
  }

  /** The inbound id ignores the timestamp: redelivering the same payload on
      the same topic at another time yields the same dedup key, in both tables,
      and an invite and a message built from one envelope share it. */
  lemma InboundIdIgnoresTimestamp(e1: Envelope, e2: Envelope, sha256: Digest)
    requires e1.timestampNs <= INT64_MAX && e2.timestampNs <= INT64_MAX
    requires e1.message == e2.message && e1.contentTopic == e2.contentTopic
    ensures InviteFromEnvelope(e1, sha256).id == InviteFromEnvelope(e2, sha256).id
    ensures MessageFromEnvelope(e1, sha256).id == MessageFromEnvelope(e2, sha256).id
    ensures InviteFromEnvelope(e1, sha256).id == MessageFromEnvelope(e1, sha256).id
  {
  }

  /** Two inbound records share an id exactly when the digests of their
      concatenated payload and topic bytes coincide. */
  lemma InboundIdsEqualIff(e1: Envelope, e2: Envelope, sha256: Digest)
    requires e1.timestampNs <= INT64_MAX && e2.timestampNs <= INT64_MAX
    ensures InviteFromEnvelope(e1, sha256).id == InviteFromEnvelope(e2, sha256).id
       <==> sha256(e1.message + Utf8(e1.contentTopic)) == sha256(e2.message + Utf8(e2.contentTopic))
  {
    HexEncodeInjective(sha256(e1.message + Utf8(e1.contentTopic)),
                       sha256(e2.message + Utf8(e2.contentTopic)));
  }

  /** The concatenation has no separator, so the boundary between payload and
      topic is lost: moving the encoding of any text `u` from the end of the
      payload to the front of the topic leaves the id unchanged. */
  lemma InboundIdIgnoresPayloadTopicBoundary(payload: Bytes, u: string, topic: string, sha256: Digest)
    ensures InboundId(payload + Utf8(u), topic, sha256) == InboundId(payload, u + topic, sha256)
  {
    Utf8Append(u, topic);
    var head, tail, whole := Utf8(u), Utf8(topic), Utf8(u + topic);
    assert (payload + head) + tail == payload + whole;
    assert InboundIdPreimage(payload + head, topic) == InboundIdPreimage(payload, u + topic);
  }

  /** For envelopes: two envelopes that differ in both payload and topic, by
      one ASCII character moved from one to the other, get the same dedup key
      in both tables, whatever the digest and timestamps. */
  lemma InboundEnvelopesCollideAcrossBoundary(payload: Bytes, c: char, topic: string,
                                              t1: uint64, t2: uint64, sha256: Digest)
    requires c as int < 0x80
    requires t1 <= INT64_MAX && t2 <= INT64_MAX
    ensures var e1 := Envelope(topic, t1, payload + [c as int]);
            var e2 := Envelope([c] + topic, t2, payload);
            && e1.message != e2.message && e1.contentTopic != e2.contentTopic
            && InviteFromEnvelope(e1, sha256).id == InviteFromEnvelope(e2, sha256).id
            && MessageFromEnvelope(e1, sha256).id == MessageFromEnvelope(e2, sha256).id
  {
    Utf8Ascii([c]);
    assert Utf8([c]) == [c as int];
    InboundIdIgnoresPayloadTopicBoundary(payload, [c], topic, sha256);
    assert |payload + [c as int]| != |payload|;
    assert |[c] + topic| != |topic|;
  }
}
