# Logos Chat: a verified model

A Dafny model of the parts of Logos Chat whose behaviour is hard to see from any one function:

- the **causal history** of group conversations: Lamport clocks, a ten-entry frontier, gap reports
  and acknowledgements, over a network that drops, duplicates and reorders;
- the **account log**: an append-only signed log with a canonical byte codec, tombstones, a
  byte-prefix freshness rule, an authoring draft, a publisher and a resolver;
- the **canonical-key check** of section 5.1.3 of RFC 8032, on bytes;
- the **timer thread**: a heap, a lock and a condition variable;
- the **key-value substrate**: the in-memory store against the SQLite table;
- the **message store** read back page by page while it changes.

`dafny verify dfyconfig.toml` checks the project.

## How it is built

| file | models |
|---|---|
| `Bytes.dfy` | bytes, fixed-width integers, UTF-8 validity |
| `Context.dfy` | `account/account-log/src/context.rs` |
| `Ed25519.dfy` | `core/crypto/src/signatures.rs` |
| `AccountLog.dfy`, `Codec.dfy`, `AccountRecord.dfy`, `Draft.dfy` | `account/account-log/src/` |
| `Account.dfy`, `Resolver.dfy` | `account/account/src/` |
| `Hex.dfy`, `CausalHistory.dfy` | `core/conversations/src/identity.rs`, `causal_history.rs` |
| `CausalRuns.dfy`, `CausalGuarantees.dfy` | whole runs of the causal-history protocol |
| `Wakeup.dfy` | `extensions/components/src/wakeup.rs` |
| `KvStore.dfy` | `core/conversations/src/storage/in_memory_store.rs`, `extensions/sqlite/src/kv.rs` |
| `MessageStore.dfy` | `extensions/message-store/src/` |

Where the source updates things in place the model has a class or a loop, proved equal to a function
on values; the theorems are about those functions. What the source takes from elsewhere is a
parameter: the signature scheme (`Scheme`, with `Sound` saying that what a seed signs verifies under
its key), the identifier hash (`Hash`, with `CollisionFree` where identity of messages matters), what a
provider answers, and the clock.

The causal-history theorems are about runs: lists of send, receive and drain events by any number of
clients. A receive names any earlier send, any number of times or never, so loss, duplication and
reordering are all covered. A client's state, the payload of each send and everything ever detected
are functions of the run.

Three promises of the source do not hold as stated, and the model says exactly when they do:

- A log does not always survive encoding. The encoder narrows a body length to 16 bits while only the
  whole payload is capped (`account/account-log/src/codec.rs:81`), so a body of 65536 bytes is written
  with length zero. `LongBodyIsLost` exhibits it under every context; `LongBodyIsReframed` says what the
  written bytes are in general, and `LongTextCanBecomeEntries` that they may even read back as another
  log. `EncodeThenDecode`, `LogRoundTrip` and `PublishReadsBack` give the exact condition.
- Shutting the timer down is not always noticed, because the flag is set and the notification sent
  outside the lock (`extensions/components/src/wakeup.rs:88-96`). `ShutdownCanBeMissed` is a run in which
  it is not; `ShutdownHangsExactly` says from which states the worker can end in an endless wait, and
  `ShutdownMissedExactly` from which it can start any wait, a timed one included, which only delays it.
- Reading without a cursor does not return the newest message if it carries the largest 64-bit `seq`,
  because the default bound is exclusive (`extensions/message-store/src/lib.rs:113`).
  `NewestCanBeHidden` gets there by recording alone; `LastSeqIsInvisible` shows that this is the only row
  no call can read.

## Model

| member | source | states |
|---|---|---|
| `CausalGuarantees.AckMeansDelivered` | core/conversations/src/causal_history.rs:202-261 | In every run, an acknowledgement (m, B) detected at A comes from one receive event of A, of a message by B, another signer, that names m; A had sent m and B had processed it before sending that message |
| `CausalGuarantees.NamingIsAcknowledged` | core/conversations/src/causal_history.rs:231-245 | Conversely, once a message of B naming one of A's reaches A, A has detected that B holds it |
| `CausalRuns.AcksOnce` | core/conversations/src/causal_history.rs:202-274 | A (conversation, message, peer) acknowledgement is detected at most once in any run, and exactly the detected ones are remembered |
| `CausalGuarantees.GapIsGenuine` | core/conversations/src/causal_history.rs:223-260 | A detected gap comes from one receive event, of a message that names it; its signer really sent it in that conversation before, and the receiver had not processed it when it was reported |
| `CausalRuns.GapsOnce` | core/conversations/src/causal_history.rs:247-257 | A gap is reported at most once in any run, and exactly the reported ones are remembered |
| `CausalGuarantees.RecentLossIsCaught` | core/conversations/src/causal_history.rs:115-124 | A lost message is reported on receipt of any later one whose sender first saw at most nine others in between |
| `CausalGuarantees.ReceiveRecordsGap` | core/conversations/src/causal_history.rs:223-260 | After processing a message, every message it names is either processed here or reported missing |
| `CausalGuarantees.CausalDeliveryReportsNothing` | core/conversations/src/causal_history.rs:223-260 | If messages are processed only after all their senders knew, nothing is ever reported missing |
| `CausalGuarantees.LamportOrder` | core/conversations/src/causal_history.rs:164-177 | Anything a client sent or processed before sending has a strictly smaller timestamp, up to 2^31 - 1 sends in the conversation |
| `CausalGuarantees.ReferencesAreAcyclic` | core/conversations/src/causal_history.rs:169-183 | Along any chain of causal-history references timestamps strictly grow, so no message is in its own causal past |
| `CausalGuarantees.ClockBound` | core/conversations/src/causal_history.rs:219-221 | No clock exceeds the number of sends in its conversation, so none overflows before 2^31 - 1 of them |
| `CausalGuarantees.IdDetermines` | core/conversations/src/causal_history.rs:283-295 | In one conversation two sends with the same identifier have the same sender, timestamp and content |
| `CausalGuarantees.IdsAreUnique` | core/conversations/src/causal_history.rs:279-295 | Two different sends of a conversation have different identifiers, up to 2^31 - 1 sends |
| `CausalGuarantees.SeenIsHandled` | core/conversations/src/causal_history.rs:97-124 | The seen-set holds exactly the messages the client sent or processed in that conversation |
| `CausalRuns.FrontierIsRecentHistory` | core/conversations/src/causal_history.rs:97-124 | The seen-set is the whole duplicate-free first-seen history and the frontier is its last ten elements |
| `CausalRuns.FirstSeenExact` | core/conversations/src/causal_history.rs:115-124 | The first-seen history lists exactly the messages sent or processed so far |
| `CausalRuns.OwnExact` | core/conversations/src/causal_history.rs:155-194 | The own-set holds exactly the identifiers of messages this client sent in the conversation |
| `CausalRuns.RevealsExact` | core/conversations/src/causal_history.rs:223-260 | One receive reveals exactly the new gaps and the new acknowledgements among the references of the payload, each once |
| `CausalRuns.StoreReceiveExact` | core/conversations/src/causal_history.rs:202-261 | For every store and payload, honest or not: a malformed sender changes nothing; otherwise the returned gaps are exactly the new ones among the readable references, they join the pending ones, the new acknowledgements join theirs, and other conversations stay |
| `CausalRuns.OnReceiveRecords` | core/conversations/src/causal_history.rs:219-258 | For every payload the clock becomes the larger of the two, the message is seen, and a first sight enters the frontier |
| `CausalRuns.ReferencesExact` | core/conversations/src/causal_history.rs:225-228 | The references followed are exactly those of entries whose sender is hex; the others are passed over |
| `CausalGuarantees.ReturnedGapsExact` | core/conversations/src/causal_history.rs:223-260 | In every run a receive call returns, once each, exactly the messages its payload names that were neither processed nor reported before |
| `CausalRuns.DrainsLoseNoGap` | core/conversations/src/causal_history.rs:267-269 | However drains interleave, all gaps handed out followed by those pending are all gaps detected, in order |
| `CausalRuns.DrainsLoseNoAck` | core/conversations/src/causal_history.rs:272-274 | However drains interleave, all acknowledgements handed out followed by those pending are all detected, in order |
| `CausalGuarantees.SurfacesOnce` | core/conversations/src/causal_history.rs:267-274 | However drains interleave, no gap and no acknowledgement is handed out twice |
| `CausalRuns.PayloadFields` | core/conversations/src/causal_history.rs:185-193 | A sent payload names its sender readably, its channel and content, the identifier derived from them, the frontier before the send, and the clock plus one modulo 2^32, which is above the clock exactly when the clock is below the 32-bit maximum |
| `CausalRuns.NamedIsHistory` | core/conversations/src/causal_history.rs:169-177 | The references a payload carries are the last ten messages its sender had first seen |
| `CausalRuns.ConversationsAreIndependent` | core/conversations/src/causal_history.rs:202-217 | A store holding many conversations evolves each as if it were alone |
| `CausalRuns.SentPayload` | core/conversations/src/causal_history.rs:155-194 | The payload a whole store sends depends on its own conversation only |
| `CausalHistory.PreimageDetermines` | core/conversations/src/causal_history.rs:283-295 | Within a channel the separator-joined pre-image determines sender, timestamp and content |
| `CausalHistory.PreimageDeterminesChannel` | core/conversations/src/causal_history.rs:283-295 | For channels without the separator the pre-image determines the channel too |
| `CausalHistory.PreimageVector` | core/conversations/src/causal_history.rs:283-295 | The layout on an example: domain, channel, hex sender and big-endian timestamp, separated |
| `CausalHistory.ConvoCell.RecordSeenHere` | core/conversations/src/causal_history.rs:115-124 | Inserting a first-seen message and popping the front while over ten keeps the last ten |
| `CausalHistory.ConvoCell.NoteHere` | core/conversations/src/causal_history.rs:231-257 | One history entry, noted in place, has the effect of `Note`: an acknowledgement if ours and new for this peer, a gap if unseen and unreported |
| `CausalHistory.ConvoCell.SendHere` | core/conversations/src/causal_history.rs:155-194 | Sending in place has the effect of `OnSend`: next timestamp, frontier before the send as history, message recorded |
| `CausalHistory.ConvoCell.ReceiveHere` | core/conversations/src/causal_history.rs:202-261 | Receiving in place has the effect of `OnReceive`: clock merged, history walked, message recorded last |
| `CausalHistory.CausalHistoryStore.Send` | core/conversations/src/causal_history.rs:155-194 | The store object sends as the value-level store does, other conversations untouched |
| `CausalHistory.CausalHistoryStore.Receive` | core/conversations/src/causal_history.rs:202-261 | The store object changes and returns what `StoreReceive` says, on which the laws above are proved; a malformed sender changes nothing |
| `CausalHistory.CausalHistoryStore.TakeMissing` | core/conversations/src/causal_history.rs:267-269 | Hands out the pending gaps and empties them, nothing else |
| `CausalHistory.CausalHistoryStore.TakeAcks` | core/conversations/src/causal_history.rs:272-274 | Hands out the pending acknowledgements and empties them, nothing else |
| `HexText.HexRoundTrip` | core/conversations/src/identity.rs:69-92 | Parsing the hex form of a signer gives the signer back |
| `HexText.UnHexExact` | core/conversations/src/identity.rs:69-78 | Text reads as a signer exactly when it spells it with two hex digits a byte, in either case |
| `HexText.HexHasNoPipe` | core/conversations/src/identity.rs:88-92 | A signer's hex form never contains the pre-image separator |
| `Codec.DecodeThenEncode` | account/account-log/src/codec.rs:182-260 | Every payload that decodes re-encodes to exactly the same bytes |
| `Codec.EncodeThenDecode` | account/account-log/src/codec.rs:69-109 | An encodable entry list decodes back to itself if and only if every entry fits the wire (body at most 65535 bytes, opaque opcodes and tags not colliding with known ones) |
| `Codec.LogRoundTrip` | account/account-log/src/codec.rs:122-131 | A valid log that encodes is read back as itself if and only if its entries fit the wire |
| `Codec.DecodesExactly` | account/account-log/src/codec.rs:182-260 | A payload decodes to a list exactly when the wire can carry the list and its encoding is that payload |
| `Codec.FirstBadEntryDecides` | account/account-log/src/codec.rs:182-193 | After any readable entries the first unreadable one decides the error |
| `Codec.HeaderFaults` | account/account-log/src/codec.rs:200-211 | A short header, a reserved opcode and a length past the end each give their own error |
| `Codec.BodyFaults` | account/account-log/src/codec.rs:212-238 | Bodies of the wrong length, empty, with no context length or a context past the end each give their own error |
| `Codec.NamedFaults` | account/account-log/src/codec.rs:239-260 | A bad context, a missing tag, a key of the wrong length and text that is not UTF-8 each give their own error |
| `Codec.VersionExact` | account/account-log/src/codec.rs:265-273 | A payload with another prefix is reported as another version exactly when the stem is followed by at most fifteen bytes and a zero |
| `Codec.LongBodyIsLost` | account/account-log/src/codec.rs:81 | Under every context there is a text record within the size cap whose encoding is rejected on reading |
| `Codec.LongBodyIsReframed` | account/account-log/src/codec.rs:81 | For every body, the frame written is the frame of its first (length modulo 65536) bytes followed by the rest as if it were further entries |
| `Codec.LongTextIsReadAsEntries` | account/account-log/src/codec.rs:81 | A text of 65536 bytes that spells out entries encodes and reads back as an empty text followed by those entries, whatever they are |
| `Codec.LongTextCanBecomeEntries` | account/account-log/src/codec.rs:81 | Such texts exist under every context: a log of one entry reads back as a log of five |
| `Codec.BytePrefixIsEntryPrefix` | account/account-log/src/account_log.rs:48-51 | For decodable payloads, byte prefix holds exactly when entry-list prefix holds |
| `Codec.FreshnessIsLogOrder` | account/account-log/src/account_log.rs:351-369 | Newer, identical, behind and diverged on bytes are strict extension, equality, strict prefix and incomparability on logs |
| `Codec.FramingIsSelfDelimiting` | account/account-log/src/codec.rs:200-226 | If the encoding of one entry list is a byte prefix of another's, the list is a prefix too |
| `Codec.EncodeEntries` | account/account-log/src/codec.rs:69-86 | The buffer-filling encoder produces the encoding, or the size error exactly when it exceeds the cap |
| `Codec.DecodeEntries` | account/account-log/src/codec.rs:182-193 | The loop over a shrinking slice decodes as the recursive definition does, first error included |
| `Codec.AddRoundTrip` | account/account-log/src/codec.rs:90-109 | An Add body that the wire can carry decodes to the same context and data |
| `Codec.AddCanonical` | account/account-log/src/codec.rs:231-260 | An Add body that decodes is the encoding of what it decodes to |
| `Codec.EntryRoundTrip` | account/account-log/src/codec.rs:200-226 | A framed entry followed by anything decodes to that entry and that rest |
| `Codec.EntryCanonical` | account/account-log/src/codec.rs:200-226 | Bytes that decode to an entry and a rest are that entry's frame followed by the rest |
| `Codec.ArtifactRoundTrip` | account/account-log/src/codec.rs:145-166 | An artifact is the 64-byte signature then the payload; splitting undoes joining exactly for payloads that can hold the domain, joining undoes splitting, and the two size errors are given exactly for artifacts too short or too long |
| `Codec.VerifyExact` | account/account-log/src/account_log.rs:98-103 | Verification gives a log exactly when the signature is the address's, the payload decodes to that log and the log is valid; a bad signature is the error exactly when the signature is bad, and otherwise the error is the decoder's or the log rules' |
| `Codec.KeyVector` | account/account-log/tests/vectors.rs:14-18 | The published one-key payload, domain included, byte for byte, for any key |
| `Codec.UnknownEntryVector` | account/account-log/tests/vectors.rs:29-33 | The published vector with an unknown entry and a removal, byte for byte, for any key |
| `Codec.TextAndRemoveVectors` | account/account-log/tests/vectors.rs:34-38 | A text entry and a removal of position one as the published vectors spell them |
| `AccountLogs.MaskExact` | account/account-log/src/account_log.rs:268-295 | The one-pass scan succeeds exactly when Removes map injectively to strictly earlier non-Remove entries, and its mask marks exactly the removed positions |
| `AccountLogs.FilterMaskRemoved` | account/account-log/src/account_log.rs:268-295 | The loop over a bool array computes that scan, errors included |
| `AccountLogs.RejectionNamesFirstFault` | account/account-log/src/account_log.rs:268-295 | A rejected log is blamed on its first offending Remove, with the right one of the three faults |
| `AccountLogs.LiveCount` | account/account-log/src/account_log.rs:268-314 | In a valid log, live entries plus twice the Removes is the number of entries |
| `AccountLogs.PrefixesStayValid` | account/account-log/src/account_log.rs:268-295 | Every prefix of a valid log is valid |
| `AccountLogs.FromEntriesExact` | account/account-log/src/account_log.rs:116-120 | Entries form a log exactly when the Removes are valid and every key is usable, and the log is then those entries; a bad Remove is blamed before a bad key, each the first of its kind |
| `AccountLogs.TypesExact` | account/account-log/src/account_log.rs:318-334 | The check passes exactly when every key, tombstoned or not, is canonical, on the curve and not of small order, and otherwise names the fault of the first that is not |
| `AccountLogs.LiveIndexedExact` | account/account-log/src/account_log.rs:297-314 | The live entries are listed once each, with their positions, in log order |
| `AccountLogs.KeysInAddOrder` | account/account-log/src/account_log.rs:175-189 | The keys of a context are those of its live key entries there, one for each, in the order they were added |
| `AccountLogs.KeysForExact` | account/account-log/src/account_log.rs:161-189 | A key is listed for a context exactly when some live entry endorses it there |
| `AccountLogs.RevokedExact` | account/account-log/src/account_log.rs:192-212 | Revoked keys are exactly those endorsed and not live, each once, disjoint from the live list, in order of first endorsement |
| `AccountLogs.RevokedEd25519KeysFor` | account/account-log/src/account_log.rs:192-212 | The collecting loop computes that list |
| `AccountLogs.ClassifyExact` | extensions/components/src/http_auth_client.rs:196-202 | A signer is valid, revoked or invalid exactly when its key is live, endorsed but not live, or never endorsed |
| `AccountRecords.UpdateIsLogOrder` | account/account-log/src/account_record.rs:79-110 | A refused candidate leaves the record with that refusal; for an authentic one the outcome is the order of the two logs, only a strict extension replaces the record, and the record stays signed, readable and valid |
| `AccountRecords.NewRecordExact` | account/account-log/src/account_record.rs:54-61 | A record starts exactly from an authentic log, and otherwise with the verification error |
| `AccountRecords.UpdatesOnlyExtend` | account/account-log/src/account_record.rs:79-110 | Over any run of candidates a held record stays signed by its account, readable and valid, its bytes and entries only grow, and it is one that was held or offered |
| `AccountRecords.EntriesAreFixed` | account/account-log/src/account_record.rs:79-110 | Along any run no entry changes position and a tombstoned entry is never live again |
| `AccountRecords.EndorsedIsNeverForgotten` | account/account-log/src/account_log.rs:192-212 | Along any run of updates a key once endorsed under a context is afterwards valid or revoked there, never invalid |
| `Drafts.DraftOf` | account/account-log/src/draft.rs:27-34 | A log becomes a draft exactly when every entry is readable; otherwise the first unreadable position is named |
| `Drafts.AccountLogDraft.PushEntry` | account/account-log/src/draft.rs:68-89 | A push either appends its entry, leaving a valid log with no key live twice, or leaves the draft as it was and says why |
| `Drafts.DraftRun` | account/account-log/src/draft.rs:68-89 | Over any offers a draft is its start plus the accepted entries in order, always publishable, and single-use after any accepted push |
| `Drafts.PushIsLocal` | account/account-log/src/draft.rs:68-124 | On a single-use log, revalidating the whole log accepts exactly the entries a local check accepts |
| `Drafts.PushExact` | account/account-log/src/draft.rs:68-89 | A push is accepted exactly for a readable entry leaving a valid log without doubled keys; otherwise the first of the three failures is the error |
| `Drafts.SingleUseBlames` | account/account-log/src/draft.rs:106-124 | A failing scan names the first position whose live key is live at an earlier one |
| `Drafts.SingleUseExact` | account/account-log/src/draft.rs:106-124 | The scan with its growing set passes exactly when no key is live at two positions |
| `Drafts.EnsureSingleUseKeys` | account/account-log/src/draft.rs:106-124 | The loop computes that scan, including the position it blames |
| `Accounts.AccountUpdate.Publish` | account/account/src/account.rs:97-113 | Publishing is all or nothing: a failed fetch, a refused entry or an oversized log stores nothing; otherwise exactly the authored log is stored; this is the step the runs below are made of |
| `Accounts.AccountUpdate.PushEntry` | account/account/src/account.rs:69-72 | Queues one entry at the end |
| `Accounts.PublishExtends` | account/account/src/account.rs:97-113 | A publish signs an extension of the bytes it fetched, and the signature verifies |
| `Accounts.AuthorExact` | account/account/src/account.rs:97-113 | A publish goes through exactly when nothing or an authentic, readable log was fetched, each entry is readable and leaves a valid log without doubled keys, and the result is within the cap; it signs the encoding of the old log followed by the entries |
| `Accounts.AuthorFaults` | account/account/src/account.rs:43-113 | A publish that does not go through says why: the fault of the fetched log, its first unreadable entry, the first entry not accepted, or the size |
| `Accounts.PublishReadsBack` | account/account/src/account.rs:97-113 | What was published reads back as fetched log plus entries if and only if every new body fits 16 bits |
| `Accounts.DraftLogPublishable` | account/account/src/account.rs:43-55 | The draft a publish starts from is publishable and re-encodes to the fetched bytes |
| `Accounts.PublishedChain` | account/account/src/account.rs:97-113 | With fetch-then-store as one step, all payloads ever stored, by any number of devices, form one byte-prefix chain signed by the account |
| `Accounts.PublishedReadable` | account/account/src/account.rs:97-113 | If every body fits 16 bits every stored payload is readable |
| `Accounts.OnlyTheLastIsUnreadable` | account/account/src/account.rs:43-55 | Without that bound an unreadable payload can only be the last: nothing is published past it |
| `Accounts.ReaderNeverForks` | account/account-log/src/account_record.rs:79-110 | A reader holding any stored log sees every readable other as updated, identical or behind, and keeps its record on an unreadable one |
| `Accounts.ReaderRunNeverForks` | account/account-log/src/account_record.rs:79-110 | If every body fits 16 bits, a reader offered stored logs in any order and any number of times refuses none |
| `Resolvers.AccountResolver.Resolve` | account/account/src/resolver.rs:37-75 | Taking the record out, updating and putting one back has the effect of `Resolved`, on every error path |
| `Resolvers.ResolvedExact` | account/account/src/resolver.rs:37-75 | By case: a failed fetch, an absent log, an unsigned or unreadable answer (its own error, nothing changed), an authentic answer filed and returned if it is the first or goes further, the held record returned if it does not, and a fork if they part |
| `Resolvers.OneResolve` | account/account/src/resolver.rs:37-75 | A call keeps held records signed, readable and growing, leaves other addresses alone, changes nothing when it fails, and answers with what is then held |
| `Resolvers.ForkedExactly` | account/account/src/resolver.rs:49-75 | A fork is reported exactly for a signed, readable, valid answer incomparable with the held log |
| `Resolvers.ResolvesOnlyGrow` | account/account/src/resolver.rs:37-75 | Over any sequence of calls and answers no record is lost or shortened, and every record stays signed by its address, readable and valid |
| `Contexts.Parse` | account/account-log/src/context.rs:58-114 | A context is accepted exactly when it matches the documented grammar, and then reads back as given |
| `Contexts.ParseFaults` | account/account-log/src/context.rs:58-114 | Each way of breaking the grammar has its own fault, and the earliest in the source's order is told |
| `Contexts.Checked` | account/account-log/src/context.rs:58-114 | The index-updating loops and buffer copy compute that parse, faults in the same order |
| `Contexts.EqualityIsByteEquality` | account/account-log/src/context.rs:23-27 | Equality of padded buffers is equality of the text |
| `Ed25519.IsCanonicalY` | core/crypto/src/signatures.rs:166-175 | The byte comparison answers exactly whether the low 255 bits are below 2^255 - 19, for all 32-byte inputs |
| `Ed25519.AdmissionExact` | core/crypto/src/signatures.rs:80-94 | A key is admitted exactly when its low 255 bits are below 2^255 - 19, it is on the curve and not of small order; otherwise the first of the three that fails is named |
| `Ed25519.AdmitKey` | core/crypto/src/signatures.rs:80-94 | The rule carried out on the byte comparison admits exactly those keys |
| `Ed25519.FieldOrder` | core/crypto/src/signatures.rs:152-158 | The constant is 2^255 - 19 in little-endian bytes |
| `Wakeup.EveryRun` | extensions/components/src/wakeup.rs:75-133 | In every interleaving registered timers are pending, in flight, emitted or (at most one, receiver gone) lost; none fires early; a parked worker covers every pending deadline; order is kept |
| `Wakeup.StepConserves` | extensions/components/src/wakeup.rs:100-133 | Every step keeps the multiset balance of registered timers |
| `Wakeup.StepNeverEarly` | extensions/components/src/wakeup.rs:112-120 | Every step keeps emission times at or after expiry |
| `Wakeup.StepCovers` | extensions/components/src/wakeup.rs:104-118 | Every step keeps a parked worker's deadline at or before each pending expiry plus the delay between reading the clock and parking |
| `Wakeup.StepKeepsOrder` | extensions/components/src/wakeup.rs:18-22 | Every step keeps the order: a timer emitted later was due no earlier or was registered after the other was taken |
| `Wakeup.NeverOversleeps` | extensions/components/src/wakeup.rs:104-118 | A parked worker with anything pending has a timeout, no later than that expiry plus the parking delay |
| `Wakeup.DueTimersFire` | extensions/components/src/wakeup.rs:100-133 | From every reachable state of a running service with a due timer, steps of the worker alone get it emitted |
| `Wakeup.WorkerNeverStuck` | extensions/components/src/wakeup.rs:100-133 | Until it stops, the worker always has a next step |
| `Wakeup.StopsOnlyWhenTold` | extensions/components/src/wakeup.rs:100-133 | The worker stops only after a shutdown or when the receiver is gone |
| `Wakeup.EmittedAsAsked` | extensions/components/src/wakeup.rs:76-85 | Every wakeup answers a registration for its conversation and comes no sooner than the time asked for |
| `Wakeup.RegisteredExact` | extensions/components/src/wakeup.rs:76-85 | The registered timers are exactly those some registration step made |
| `Wakeup.ShutdownMissedExactly` | extensions/components/src/wakeup.rs:88-96 | After shutdown the worker can still start a wait, timed or not, if and only if it had passed the running check with nothing due |
| `Wakeup.ShutdownHangsExactly` | extensions/components/src/wakeup.rs:88-96 | After shutdown the worker can end in a wait without timeout if and only if it had passed the running check with nothing pending |
| `Wakeup.ShutdownCanBeMissed` | extensions/components/src/wakeup.rs:88-96 | Both happen: a run of two steps reaches such a state, and shutdown followed by one step leaves the worker parked with the flag cleared |
| `KvStores.StoresAgree` | extensions/sqlite/src/kv.rs:11-146 | Over every legal sequence of begin, verbs, commit and drop, the nested maps and the flat table give the same replies |
| `KvStores.ScanExact` | core/conversations/src/storage/in_memory_store.rs:169-176 | A scan lists in strict key order exactly the pairs of the scope whose key starts with the prefix |
| `KvStores.ScansAgree` | extensions/sqlite/src/kv.rs:97-119 | Filtering the ordered map and ordering the selected rows give the same list |
| `KvStores.UnderPrefixExact` | extensions/sqlite/src/kv.rs:88-95 | The SQL prefix test, with NULL for the empty key, selects exactly the keys that start with the prefix |
| `KvStores.RowIsRegister` | core/conversations/src/storage/in_memory_store.rs:153-190 | After any verbs a row reads as the last verb touching it left it, so scopes and keys never interfere |
| `KvStores.TransactionIsAtomic` | core/conversations/src/storage/in_memory_store.rs:81-147 | Dropped, a transaction leaves the store as at begin; committed, all its verbs land; until then a second begin is refused and changes nothing |
| `KvStores.ListingIsUnique` | core/conversations/src/storage.rs:79-80 | A set of keys has one strictly ascending listing |
| `KvStores.MemStore.Begin` | core/conversations/src/storage/in_memory_store.rs:81-91 | Opens a transaction on a copy of the stored maps unless one is open |
| `KvStores.MemKvTx.GetHere` | core/conversations/src/storage/in_memory_store.rs:104-106 | Replies as the step function does |
| `KvStores.MemKvTx.ScanHere` | core/conversations/src/storage/in_memory_store.rs:118-120 | Replies as the step function does |
| `KvStores.MemKvTx.PutHere` | core/conversations/src/storage/in_memory_store.rs:157-161 | Changes only the copy, as the step function does |
| `KvStores.MemKvTx.DeleteHere` | core/conversations/src/storage/in_memory_store.rs:163-167 | Changes only the copy, as the step function does |
| `KvStores.MemKvTx.DeletePrefixHere` | core/conversations/src/storage/in_memory_store.rs:178-182 | Changes only the copy, as the step function does |
| `KvStores.MemKvTx.DeleteScopeHere` | core/conversations/src/storage/in_memory_store.rs:184-186 | Changes only the copy, as the step function does |
| `KvStores.MemKvTx.DeleteNamespaceHere` | core/conversations/src/storage/in_memory_store.rs:188-190 | Changes only the copy, as the step function does |
| `KvStores.MemKvTx.Commit` | core/conversations/src/storage/in_memory_store.rs:137-140 | The store takes the copy and the transaction closes |
| `KvStores.MemKvTx.Drop` | core/conversations/src/storage/in_memory_store.rs:143-147 | The transaction closes and the stored maps stay as they were |
| `MessageStores.CoverageExact` | extensions/message-store/src/lib.rs:93-118 | A message of the chat at the first read that paging has passed was delivered if and only if no event deleted it between that read and the read that reached it |
| `MessageStores.PagesNeverRepeat` | extensions/message-store/src/lib.rs:93-118 | The joined pages are strictly ascending in `seq` and hold only messages of the first read |
| `MessageStores.PagingTerminates` | extensions/message-store/src/lib.rs:93-118 | Full pages never take more messages than the chat held at the first read, so paging ends |
| `MessageStores.PageExact` | extensions/message-store/src/lib.rs:93-118 | A page is ascending and holds exactly the rows below the bound that it reaches; a short page reaches everything |
| `MessageStores.QueryIsPage` | extensions/message-store/src/lib.rs:104-117 | The descending limited query, reversed, is the last `limit` rows below the bound |
| `MessageStores.LastSeqIsInvisible` | extensions/message-store/src/lib.rs:113 | A row can be read by some call exactly when its `seq` is not the largest 64-bit integer |
| `MessageStores.LastRecordIsHidden` | extensions/message-store/src/lib.rs:113 | In any valid table with one `seq` left, recording succeeds and the new row is on no page of any call |
| `MessageStores.NewestCanBeHidden` | extensions/message-store/src/lib.rs:113 | Recording alone reaches such a table from an empty one |
| `MessageStores.SeqNeverReused` | extensions/message-store/src/migrations/001_messages.sql:2 | What a later table holds at or below an earlier high-water mark was there then: no `seq` is handed out twice |
| `MessageStores.RowLife` | extensions/message-store/src/lib.rs:73-143 | At any time the table holds exactly the rows present at the start or recorded by an event, under the next number, and not deleted since by number or with their chat |
| `MessageStores.ChangeExact` | extensions/message-store/src/lib.rs:73-143 | One event: a row is there afterwards exactly if it was and is not deleted, or was just recorded |
| `MessageStores.SeqCountsRecords` | extensions/message-store/src/migrations/001_messages.sql:2 | The largest number given is the number of records made, until the 64-bit range is used up |
| `MessageStores.ReadersOnlyRead` | extensions/message-store/src/lib.rs:96-118 | In a paging session the table is what the records and deletes alone make it, so the facts about the table are facts about sessions |
| `MessageStores.MessageStore.RecordHere` | extensions/message-store/src/lib.rs:73-91 | Has the effect of `Record`, on which `ChangeExact` and `RowLife` are proved: one more row under the next `seq`, which is returned, or a failure when none is left |
| `MessageStores.MessageStore.Messages` | extensions/message-store/src/lib.rs:96-118 | Returns the page, or an error exactly when the limit does not fit the driver's integer |
| `MessageStores.MessageStore.DeleteHere` | extensions/message-store/src/lib.rs:130-135 | Removes the row with that `seq`, and says whether there was one |
| `MessageStores.MessageStore.DeleteChatHere` | extensions/message-store/src/lib.rs:138-143 | Removes every row of the chat and says how many |

## Left out

- Everything resting on openmls or de-mls (group conversations, inbox, traces): those state machines are in libraries.
- The Ed25519 curve, signing and Blake2b: parameters, with the hypotheses `Sound` and `CollisionFree`.
- Causal-history payloads not built by `on_send`: the step functions handle them, the run theorems are about honest payloads.
- The empty `retrieval_hint` and bloom-filter fields of a payload: constants.
- CausalHistory.Tick: wraps at the top of the 32-bit range as a release build does; a debug build panics there instead.
- CausalHistory.CausalHistoryStore.Receive: appends gaps and acknowledgements to the pending vectors after the history loop, where the source appends inside it; nothing can observe the difference.
- CausalHistory.PreimageDetermines: for one channel; a channel name may itself contain the separator.
- Log positions beyond 2^32: positions are unbounded here, and the payload cap keeps real ones far below.
- Error texts: errors are constructors naming the fault and where it is; a version segment is kept as bytes.
- `entries_for`, `text_for` and other selections of the log: only the key selections are modelled.
- Accounts.PublishedChain: fetch and store are one step; two devices that interleave them can overwrite each other's log.
- Wakeup.EveryRun: the thread is a state machine, not a running loop; the heap is a multiset from which an earliest timer is taken, lock poisoning is absent, and the channel either accepts an event or is closed.
- Wakeup.ShutdownMissedExactly and Wakeup.ShutdownHangsExactly: clearing the flag and notifying are one step, and nothing is said about when the operating system wakes a waiter.
- KvStores.StoresAgree: SQLite is its documented statement semantics on one table; input and output errors are absent.
- Conversation and identity records of the stores: one-line map operations.
- MessageStores.MessageStore.Messages: rows carry the chat and one content value; the other columns are passed through unread.
- `count` of the message store, its migrations, and writers other than the store on the same table.
- HTTP clients, retries, the embedded node, file transport, key vault, database opening, CBOR message types and the user interface: input and output.
