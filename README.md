# Record layer of the XMTP client message store, in Dafny

This project models the record layer of the local message store of the XMTP
client (`xmtp/src/storage/encrypted_store/models.rs`) and the in-memory
key/value persistence object (`xmtp/src/persistence/in_memory_persistence.rs`).
It covers:

- the persisted records (users, conversations, messages, sessions, accounts,
  installations, outbound payloads, inbound invites and messages, refresh jobs)
  and the integer codes of their state enums;
- the constructors that build those records, including the content-derived ids:
  `payload_id = hex(sha256(encode_to_vec("{created_at_ns}:{content_topic}")))` and
  `id = hex(sha256(payload ‖ topic))` for inbound envelopes;
- the hand-written comparison between a new message and a stored one;
- the two in-place UPDATE statements (`Save` for sessions and for refresh jobs),
  each as a method on a class that holds the table's rows;
- `InMemoryPersistence`, a class over a `map<string, Bytes>` with `Write` and `Read`.

Modules:

- `Basics` holds the Rust integer ranges, `Bytes`, `Option` and `Result`.
- `Errors` holds the variants of `StorageError` that the modelled operations produce.
- `Text` holds the encodings the ids depend on. These are Rust's decimal `Display`
  of an `i64`, UTF-8 as defined by RFC 3629, and lower-case hex.
- `Models` holds the records and their constructors.
- `Tables` holds the UPDATE statements.
- `Persistence` holds the key/value store.

Parameters standing for what the model cannot see:

- The clock `now()` is a parameter `now` wherever a timestamp is stamped.
- SHA-256 (`sha256_bytes`) is a parameter of type `Bytes -> Bytes`.
- prost's `String::encode_to_vec` is a parameter of type `string -> Bytes`.
- `serde_json::to_vec` is a parameter `toJson` returning a `Result`.

No property depends on what the digest or the encoders compute. Hex, UTF-8 and
decimal rendering are written out, because the id properties depend on their
shape: the time has no `:`, hex is invertible, and UTF-8 distributes over
concatenation.

A database failure inside `execute` is a `fault: Option<string>` parameter that
stands for the Diesel error. When it is `Some(e)`, the table is unchanged and
`Err(DieselResultError(e))` is returned. That is what the `?` operator does after a
single atomic statement fails, because `StorageError` converts
`diesel::result::Error` with `#[from]`.

Three details of the code shape the model:

- The new/stored message comparison ignores `state` as well as `id`.
- `StoredSession::save` also rewrites `peer_installation_id`, besides
  `vmac_session_data` and `updated_at`.
- `RefreshJob::save` has no `id` filter, so it rewrites every job kind's
  watermark (see Findings).

The inbound id hashes `payload` and the topic bytes with no separator between
them. So two different envelopes share a dedup key whenever the encoding of some
text moves from the end of the payload to the front of the topic
(`Models.InboundIdIgnoresPayloadTopicBoundary`, `Models.InboundEnvelopesCollideAcrossBoundary`). The model
records this as a property of the code, not as a defect.

## Model

| member | source | states |
|---|---|---|
| `Text.NatToString` | xmtp/src/storage/encrypted_store/models.rs:139 | decimal digits only, at least one, a single digit exactly for values below ten |
| `Text.IntToString` | xmtp/src/storage/encrypted_store/models.rs:139 | the `{created_at_ns}` rendering starts with `-` exactly for negative values and never contains `:` |
| `Text.IntToStringInjective` | xmtp/src/storage/encrypted_store/models.rs:139 | two i64 values render to the same text exactly when they are equal |
| `Text.Utf8` | xmtp/src/storage/encrypted_store/models.rs:329 | `topic.as_bytes()` yields at least one byte per character |
| `Text.Utf8Append` | xmtp/src/storage/encrypted_store/models.rs:329 | the UTF-8 of a concatenation is the concatenation of the UTF-8 encodings |
| `Text.Utf8Ascii` | xmtp/src/storage/encrypted_store/models.rs:329 | an ASCII topic encodes as one byte per character, with the same code |
| `Text.HexEncode` | xmtp/src/storage/encrypted_store/models.rs:138 | `hex::encode` yields two characters per digest byte |
| `Text.HexRoundTrip` | xmtp/src/storage/encrypted_store/models.rs:138 | decoding the hex text of a digest gives back the digest |
| `Text.HexEncodeInjective` | xmtp/src/storage/encrypted_store/models.rs:328-329 | two digests give the same id text exactly when they are equal |
| `Models.ConversationState.Code` | xmtp/src/storage/encrypted_store/models.rs:25-29 | the stored code is one of 0, 10, 20, and 0 exactly for Uninitialized |
| `Models.MessageState.Code` | xmtp/src/storage/encrypted_store/models.rs:41-45 | the stored code is one of 0, 10, 20, and 0 exactly for Unprocessed |
| `Models.OutboundPayloadState.Code` | xmtp/src/storage/encrypted_store/models.rs:113-116 | the stored code is 0 or 10, and 0 exactly for Pending |
| `Models.InboundInviteStatus.Code` | xmtp/src/storage/encrypted_store/models.rs:297-303 | the stored code is in 0..3, and 0 exactly for Pending |
| `Models.InboundMessageStatus.Code` | xmtp/src/storage/encrypted_store/models.rs:305-311 | the stored code is in 0..3, and 0 exactly for Pending |
| `Models.ConversationStateCodesDistinct` | xmtp/src/storage/encrypted_store/models.rs:25-29 | Uninitialized/Invited/InviteReceived are stored under distinct codes (0, 10, 20) |
| `Models.MessageStateCodesDistinct` | xmtp/src/storage/encrypted_store/models.rs:41-45 | Unprocessed/LocallyCommitted/Received are stored under distinct codes |
| `Models.OutboundPayloadStateCodesDistinct` | xmtp/src/storage/encrypted_store/models.rs:113-116 | Pending and ServerAcknowledged are stored under distinct codes |
| `Models.InboundStatusCodesDistinct` | xmtp/src/storage/encrypted_store/models.rs:297-311 | each inbound status enum has distinct codes, and Pending is 0 in both |
| `Models.NewMessage` | xmtp/src/storage/encrypted_store/models.rs:85-100 | copies convo, sender, content, state and send time unchanged, and stamps `created_at` with the clock value |
| `Models.MatchesStored` | xmtp/src/storage/encrypted_store/models.rs:103-111 | `NewStoredMessage == StoredMessage` holds exactly when the records agree once `id` is dropped and `state` is disregarded |
| `Models.MatchesStoredIgnoresIdAndState` | xmtp/src/storage/encrypted_store/models.rs:103-111 | changing the stored `id` or either `state` never changes the outcome of the comparison |
| `Models.MatchesStoredDespiteDifferentState` | xmtp/src/storage/encrypted_store/models.rs:103-111 | some new message matches a stored row in a different state, so the comparison is weaker than equality |
| `Models.NewMessageMatchesItsRow` | xmtp/src/storage/encrypted_store/models.rs:85-111 | a constructed message matches its stored row whatever `id` the store assigns and whatever state the row reaches |
| `Models.OutboundIdPreimage` | xmtp/src/storage/encrypted_store/models.rs:139 | the hashed string is longer than the topic (it carries the time and a `:`) |
| `Models.OutboundIdPreimageInjective` | xmtp/src/storage/encrypted_store/models.rs:139 | distinct (created_at_ns, content_topic) pairs give distinct hashed strings |
| `Models.NewOutboundPayload` | xmtp/src/storage/encrypted_store/models.rs:131-149 | all five arguments are copied unchanged; `payload_id` hex-decodes to the digest of the encoded `"{created_at_ns}:{content_topic}"` |
| `Models.OutboundIdIgnoresPayloadStateAndLease` | xmtp/src/storage/encrypted_store/models.rs:131-149 | payloads with the same time and topic get the same id whatever their bytes, state and lease |
| `Models.OutboundIdsEqualIff` | xmtp/src/storage/encrypted_store/models.rs:138-140 | two ids are equal exactly when the digests of their preimages are equal; distinct pairs always have distinct preimages |
| `Models.NewSession` | xmtp/src/storage/encrypted_store/models.rs:173-188 | `created_at == updated_at == now`, and the other four fields are copied unchanged |
| `Models.NewAccount` | xmtp/src/storage/encrypted_store/models.rs:219-232 | succeeds exactly when JSON serialisation does, stamping `now`; otherwise returns `Store` with the fixed prefix followed by the serialiser's message |
| `Models.NewInstallation` | xmtp/src/storage/encrypted_store/models.rs:249-259 | fails exactly when contact serialisation fails, returning that error; otherwise takes id and address from the contact, stamps `now`, and sets no expiry |
| `Models.RefreshJobKind.ToString` | xmtp/src/storage/encrypted_store/models.rs:271-278 | renders `invite` for the Invite kind and `message` for the Message kind |
| `Models.RefreshJobKindNamesDistinct` | xmtp/src/storage/encrypted_store/models.rs:271-278 | `invite` and `message` are distinct, non-empty names |
| `Models.InboundIdPreimage` | xmtp/src/storage/encrypted_store/models.rs:329 | the hashed bytes start with the payload and are at least as long as payload and topic together |
| `Models.InboundId` | xmtp/src/storage/encrypted_store/models.rs:328-329 | the id hex-decodes to the digest of payload followed by the topic's UTF-8 bytes |
| `Models.InviteFromEnvelope` | xmtp/src/storage/encrypted_store/models.rs:323-339 | payload and topic are copied, `sent_at_ns` equals the timestamp (which must fit i64), status is Pending (0), and the id is the digest of payload ‖ topic |
| `Models.MessageFromEnvelope` | xmtp/src/storage/encrypted_store/models.rs:351-367 | the same as the invite conversion, for the messages table |
| `Models.InboundIdIgnoresTimestamp` | xmtp/src/storage/encrypted_store/models.rs:323-367 | envelopes differing only in timestamp get the same id; an invite and a message from one envelope share it |
| `Models.InboundIdsEqualIff` | xmtp/src/storage/encrypted_store/models.rs:328-329 | two inbound ids are equal exactly when the digests of payload ‖ topic are equal |
| `Models.InboundIdIgnoresPayloadTopicBoundary` | xmtp/src/storage/encrypted_store/models.rs:328-329 | for every payload, text `u`, topic and digest, moving the UTF-8 of `u` from the end of the payload to the front of the topic leaves the id unchanged |
| `Models.InboundEnvelopesCollideAcrossBoundary` | xmtp/src/storage/encrypted_store/models.rs:323-367 | two envelopes differing in payload and topic by one ASCII character moved across the boundary get the same invite id and the same message id, at any timestamps |
| `Tables.SessionsAfterSave` | xmtp/src/storage/encrypted_store/models.rs:193-199 | the filtered UPDATE keeps the row count and, in every row, the key, `created_at` and `user_address` |
| `Tables.SessionSaveChangesOnlyMatchingRow` | xmtp/src/storage/encrypted_store/models.rs:191-204 | row count kept; non-matching rows unchanged; in a matching row only vmac data, peer installation and `updated_at := now` change; key, `created_at` and `user_address` kept |
| `Tables.SessionSaveWithoutMatchIsNoOp` | xmtp/src/storage/encrypted_store/models.rs:193-200 | with no row for the session id, the table is unchanged (an UPDATE never inserts) |
| `Tables.SessionSaveKeepsKeys` | xmtp/src/storage/encrypted_store/models.rs:191-204 | every row keeps its session id, so the primary key stays unique |
| `Tables.SessionSaveIgnoresUnsetFields` | xmtp/src/storage/encrypted_store/models.rs:193-199 | the saved record's own `created_at`, `updated_at` and `user_address` do not affect the table |
| `Tables.SessionSaveIdempotent` | xmtp/src/storage/encrypted_store/models.rs:193-200 | saving the same session twice at the same clock value equals saving once |
| `Tables.SessionsTable.Save` | xmtp/src/storage/encrypted_store/models.rs:191-204 | on success the rows become the UPDATE's result and `Ok(())` is returned; on a database fault it returns `DieselResultError` carrying that error and the table is unchanged; the key stays unique |
| `Tables.JobsAfterSave` | xmtp/src/storage/encrypted_store/models.rs:289-291 | the unfiltered UPDATE keeps row count and ids, and every row ends with the saved `last_run` |
| `Tables.JobSaveOverwritesEveryRow` | xmtp/src/storage/encrypted_store/models.rs:287-295 | every row gets `last_run := self.last_run`; ids and count unchanged; `self.id` plays no part |
| `Tables.JobSaveMovesOtherKinds` | xmtp/src/storage/encrypted_store/models.rs:289-291 | saving the `message` job moves the `invite` watermark from 5 to 9 |
| `Tables.JobsAfterFilteredSave` | xmtp/src/storage/encrypted_store/models.rs:289-291 | corrected UPDATE: row count and ids are kept |
| `Tables.FilteredJobSaveChangesOnlyItsKind` | xmtp/src/storage/encrypted_store/models.rs:289-291 | with an id filter, only the saved kind's row takes the new watermark and all other rows are unchanged |
| `Tables.RefreshJobsTable.Save` | xmtp/src/storage/encrypted_store/models.rs:287-295 | as written: on success every row takes the saved watermark; on a fault it returns `DieselResultError` carrying that error and nothing changes |
| `Tables.RefreshJobsTable.SaveById` | xmtp/src/storage/encrypted_store/models.rs:287-295 | corrected: on success only the row with the job's id takes the saved watermark; on a fault it returns `DieselResultError` and nothing changes |
| `Persistence.Lookup` | xmtp/src/persistence/in_memory_persistence.rs:29-31 | `Some(v)` exactly for a present key, with its stored value; `None` otherwise |
| `Persistence.EmptyStoreReadsNone` | xmtp/src/persistence/in_memory_persistence.rs:8-19 | a fresh store reads `None` for every key |
| `Persistence.ReadAfterWrite` | xmtp/src/persistence/in_memory_persistence.rs:24-31 | after `write(k, v)`, `read(k)` gives `Some(v)` |
| `Persistence.WriteLeavesOtherKeys` | xmtp/src/persistence/in_memory_persistence.rs:25 | `write(k, v)` leaves the value of every other key unchanged |
| `Persistence.LastWriteWins` | xmtp/src/persistence/in_memory_persistence.rs:25 | of two writes to one key, the second one's value remains |
| `Persistence.InMemoryPersistence.constructor` | xmtp/src/persistence/in_memory_persistence.rs:8-12 | `new` starts with an empty map |
| `Persistence.InMemoryPersistence.Default` | xmtp/src/persistence/in_memory_persistence.rs:15-19 | `default` starts with an empty map |
| `Persistence.InMemoryPersistence.Write` | xmtp/src/persistence/in_memory_persistence.rs:24-27 | always `Ok(())`; the map becomes the old map with `key` set to `value` |
| `Persistence.InMemoryPersistence.Read` | xmtp/src/persistence/in_memory_persistence.rs:29-31 | always `Ok`; `Some` exactly for a present key, with its value; changes nothing |
| `Persistence.WriteReadScenario` | xmtp/src/persistence/in_memory_persistence.rs:8-31 | on one fresh store: read gives `None`, a write is read back, a second write wins, and a write to another key is not seen |

## Findings

| source | as written | input that shows it | evidently intended | confidence | as-written member | corrected member |
|---|---|---|---|---|---|---|
| xmtp/src/storage/encrypted_store/models.rs:289-291 | `update(refresh_jobs::table).set(last_run)` has no `filter(id.eq(self.id))`, so saving one job's watermark overwrites every job kind's watermark | table `[("invite", 5), ("message", 7)]`, save `("message", 9)`: the invite row's `last_run` becomes 9 although no invite was processed | only the row whose `id` is the saved job's kind takes the new `last_run` | high; not executed | `Tables.RefreshJobsTable.Save`, `Tables.JobSaveMovesOtherKinds` | `Tables.RefreshJobsTable.SaveById`, `Tables.FilteredJobSaveChangesOnlyItsKind` |

## Left out

- `now()`: it reads the wall clock. Every constructor and `Save` takes the clock value as a parameter instead.
- SHA-256, prost `encode_to_vec` and `serde_json::to_vec` are parameters, not definitions. The model proves nothing about digest collisions.
- `Contact`: the contact crate is not part of this model. A contact is represented by what `StoredInstallation::new` reads from it: the wallet address, `installation_id()`, and the outcome of its byte serialisation.
- `StoredInstallation::get_contact`: it is a single call into `Contact::from_bytes`, which is not part of this model.
- `StoredMessage::get_text`: it depends entirely on the protobuf decoder and `TextCodec`.
- `Models.InviteFromEnvelope`, `Models.MessageFromEnvelope`: a timestamp above `i64::MAX` makes `unwrap` panic. This is a precondition here; the panic is not modelled as a value.
- Diesel machinery: connections, the schema macros, encryption at rest and the insert/query operations do not appear in the modelled code. Database errors are reduced to the `fault` parameter of the two `Save` methods. That parameter carries the Diesel error's text and is returned as `DieselResultError`.
- Lease-based claiming, insert-or-ignore dedup and forward-only state transitions are not in the modelled code and are not modelled.
- `StoredUser`, `StoredConversation`, `StoredAccount`: these are plain records with no behaviour of their own. They are datatypes only.
- `StorageError`: only the variants the modelled operations return are mirrored (`DieselResultError`, `Store`). `StoredInstallation::new` returns a bare `ContactError`, so the `ContactError` variant is not needed.
- The `Persistence` trait's genericity over error types: only the in-memory instance, with error type `()`, is modelled.
- Concurrent access to the store is not modelled. Every operation is a sequential step.
