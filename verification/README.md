# Hypermeow in Dafny

A model of the stateful core of the hypermeow WhatsApp client library and proofs about it. Each module takes the form of
the code it models: objects that the source updates in place are classes, its loops are loops with invariants, its
conversions are functions. Protocols are state machines over the steps one lock holder takes, and the main results are
about every run of them.

What is proved, by subject:

- **App state sync** (`LtHash`, `AppState*`, `LabelChanges`). A collection is a table from index MAC to value MAC and a
  128-byte homomorphic hash kept incrementally. The saved hash equals the hash recomputed from the rows the store would
  return, through snapshots, patches with arbitrary SETs and REMOVEs, failures and the whole fetch loop, unless the
  database refuses a write or a newer row shadows a stored one; when either happens is proved exactly. A full sync of
  growing versions that is not refused repairs the collection, whatever state it was in. The batch written to the store (delete everything removed,
  insert everything added) is the mutations applied one by one. A patch built by the encoder is accepted by the decoder
  from the same state, reaches the state the encoder signed and decodes to what was encoded. A patch of any version is
  accepted exactly if it is signed over the hash of the table it leads to, each of its mutations is authentic and none of
  the rows it adds is added twice or stored already. A slice out of range, which panics in Go, is the failure
  `SliceBounds`.
- **Reporting tokens** (`Varint`, `WireTree`, `ReportingToken*`). The recursive wire parser returns an encoding of exactly
  the pruned tree, sorted by field number at every level; pruning again changes nothing but the order of equal-numbered
  fields. On arbitrary bytes and for any configuration it is proved exactly when the parser stays in bounds at every level
  of its recursion; it then ends after at most two steps per byte and returns no more bytes than it was given. The wire
  format is that of the sections "Base 128 Varints" and "Message Structure" of the Protocol Buffers encoding guide.
- **Prekey upload** (`RemotePreKeys`, `PreKeyProtocol`, `PreKeyContract`, `PreKeyNodes`). In every interleaving of
  prepare, upload, acknowledge, lost responses, restarts and retry keys, only complete uploaded batches are acknowledged;
  against a remote that keeps its contract none is dropped and replays are harmless.
- **Connection lifecycle** (`Lifecycle`, `LifecycleLaws`, `LifecycleOutcomes`, `LifecycleClient`). Socket generations,
  their handler queues, the disconnect flags and the asynchronous reconnect decision: which reconnects start, and which
  never do.
- **Receiving** (`EventBuffer`, `RemoteReceive`, `Padding`). The ratchet commits once per ciphertext, handlers see one
  plaintext, and the remote receive loop says at most one thing to the server and nothing after an outage.
- **Bounded state and codes** (`RecentMessages`, `RetryWindow`, `RetryChain`, `KeyRequests`, `SecurityCode`). The retry
  cache, the hourly counters, the receipts for one undecryptable message, the daily key requests and the sixty-digit
  identity code.

Primitives that are not modelled enter as function-valued fields or parameters: HMAC, AES-CBC, HKDF, SHA-512, protobuf
and JSON marshalling (`AppStateModel.Env`, `SecurityCode.Hash`). Where a law needs it, decryption and parsing are assumed
to undo encryption and printing (`AppStateEncode.RoundTrips`). Clocks, randomness and the answers of servers and stores
are parameters.

Where the code does not keep a property one would expect, there is a lemma with the failing input and one with the exact
condition:

- A patch that SETs one index twice without a later REMOVE passes every MAC check but is refused by the insert without
  upsert, after the new version row was written (`AppStateWitnesses.DoubleSetIsRefused`, `AppStateLaws.RunRefusedIff`,
  `AppStateLaws.SnapshotRefusedIff`, `AppStateWitnesses.RefusedWriteConsistentIff`).
- A SET stored under a lower version than an existing row of its index is not read back (`AppStateStore.StoredTableIff`,
  `AppStateLaws.PatchStaysInStepIff`, `AppStateWitnesses.OlderVersionIsShadowed`,
  `AppStateWitnesses.BackwardVersionsAreShadowed`).
- A snapshot that fails hands back its own state, not the stored one (`AppStateWitnesses.FailedSnapshotState`,
  `AppStateWitnesses.UnknownKeyReturnsForeignState`, `AppStateLaws.ReturnedStateIsStoredIff`).
- The encoder looks for previous values only in the store (`AppStateEncode.SameRemovalsIffDistinct`,
  `AppStateEncode.EncodedValidatesIff`, `AppStateWitnesses.RepeatedRequestIsRejectedIff`).
- The wire parser does not check varints after the tag, so it can run for ever, or slice outside the message
  (`ReportingTokenBytes.NeverEnds`, `ReportingTokenBytes.WrappedLengthIsOutOfRange`, `ReportingTokenBytes.OrderlyIff`,
  `ReportingTokenBytes.InBoundsIff`). In Go such a slice panics, or reads on into spare capacity of the buffer.
- The count of retry receipts is not read from a stanza with a second child, so it begins again after every restart
  (`RetryChain.RestartsBeginAgain`, `RetryChain.CountsUpIff`).
- Overlapping deliveries of one hash can reach a handler after a clear (`EventBuffer.OverlapHandlesAfterClear`,
  `EventBuffer.HandledAfterClearIff`).
- Sending again under a cached key does not renew its slot (`RecentMessages.ResendDoesNotRenew`,
  `RecentMessages.LookupIff`).
- Expired key requests block new ones that arrive in one call (`KeyRequests.ExpiredEntriesBlockNewKeys`,
  `KeyRequests.AsksEveryDueKeyIff`).
- A key id of more than 24 bits is cut on the wire (`PreKeyNodes.KeyRoundTripIff`).

## Model

| member | source | states |
|---|---|---|
| LtHash.PerformPointwiseWithOverflow | appstate/lthash/lthash.go:45-58 | the in-place loop leaves each of the 64 little-endian lanes equal to the wrapped 16-bit sum or difference |
| LtHash.MultipleOp | appstate/lthash/lthash.go:39-43 | the in-place loop adds or subtracts every expanded item |
| LtHash.SubtractThenAddInPlace | appstate/lthash/lthash.go:34-37 | subtracting a list and adding another, in place, as a function of the old hash |
| LtHash.SubUndoesAdd | appstate/lthash/lthash.go:45-58 | subtracting what was added restores the hash, overflow included |
| LtHash.SubIsInjective | appstate/lthash/lthash.go:45-58 | subtracting different values from one hash leaves different hashes |
| LtHash.CombineSwap | appstate/lthash/lthash.go:7-10 | additions and subtractions commute with one another |
| LtHash.SubtractThenAddExtend | appstate/lthash/lthash.go:34-37 | one more item in either list acts as if it were subtracted or added last |
| LtHash.TableHashPick | appstate/lthash/lthash.go:7-10 | the hash of a table does not depend on the order of its entries |
| LtHash.TableHashRemove | appstate/lthash/lthash.go:7-10 | dropping an entry subtracts its value |
| LtHash.TableHashStore | appstate/lthash/lthash.go:7-10 | storing an entry adds its value to the hash without the old entry |
| AppStateModel.GeneratePatchMac | appstate/hash.go:85-95 | the loop computes the MAC over snapshot MAC, value MACs in order, version and name, or fails where a value is too short to slice |
| AppStateTable.PrevReadsAppliedTable | appstate/decode.go:323-336 | searching the patch backwards and then the store reads the table built by the mutations so far |
| AppStateTable.UpdatedHashStep | appstate/hash.go:43-63 | the effect of one more mutation on the hash computed from the two lists |
| AppStateTable.HashTracksTable | appstate/hash.go:39-65 | if the hash is that of the stored table, the updated hash is that of the table with the mutations applied, for any mix of SETs and REMOVEs |
| AppStateTable.WarningsAreAbsentRemoves | appstate/hash.go:54-60 | a REMOVE is reported exactly if its index is absent from the table built so far |
| AppStateTable.SnapshotHashTracksTable | appstate/decode.go:279-281 | without lookups the law holds for SETs of distinct indexes into an empty table |
| AppStateStore.PatchOutput.RemoveMac | appstate/decode.go:122-128 | records the removal and drops every pending addition of that index, in order |
| AppStateStore.PatchOutput.AddMac | appstate/decode.go:130-135 | appends the addition and keeps everything else |
| AppStateStore.BatchEqualsSequence | appstate/decode.go:122-135 | deleting everything removed and then upserting everything added is applying the mutations one by one |
| AppStateStore.AddedDistinctIff | appstate/decode.go:205-213 | the rows to add are distinct exactly if no index is SET twice without a later REMOVE |
| AppStateStore.LiveAfterDelete | store/sqlstore/store.go:977-995 | deleting rows by index removes exactly those indexes from what lookups return |
| AppStateStore.LiveAfterInsertOne | store/sqlstore/store.go:997-1003 | an inserted row is returned by lookups exactly if every other row of its index has a lower version |
| AppStateStore.StoreSucceedsIff | appstate/decode.go:229-243 | the three writes succeed exactly if no index is added twice, the MACs are 32 bytes long and the rows are new |
| AppStateStore.StoredFind | appstate/decode.go:229-243 | what a lookup of any index returns after a successful store |
| AppStateStore.StoredTableIff | appstate/decode.go:229-243 | after a successful store the lookups return the mutations applied in order exactly if no newer row shadows one |
| AppStateStore.FreshStore | store/sqlstore/store.go:940-975 | with only older rows stored, the store succeeds exactly if no index is SET twice without a later REMOVE, and then holds the applied table |
| AppStateDecode.DecodedIsWellFormed | appstate/decode.go:137-183 | a mutation that decodes has a value MAC, and a 32-byte index MAC if MACs are checked |
| AppStateDecode.DecodeAllElements | appstate/decode.go:192-227 | a decoded list is the mutations decoded one by one, in order |
| AppStateDecode.DecodeAllFailsOnPrefix | appstate/decode.go:200-204 | the first mutation that fails decides the outcome |
| AppStateDecode.ApplyPatchCases | appstate/decode.go:381-405 | a patch either leaves the store alone or reaches the three writes with the validated state |
| AppStateDecode.DecodeSnapshotCases | appstate/decode.go:258-311 | the same for snapshots |
| AppStateDecode.Processor.FindPrevious | appstate/decode.go:323-336 | the backward search finds the newest earlier mutation of the index, else asks the store |
| AppStateDecode.Processor.UpdateHash | appstate/hash.go:39-65 | the loop and the in-place update compute the hash and the warnings, or fail on a short SET value |
| AppStateDecode.Processor.ValidatePatch | appstate/decode.go:313-355 | the new state or the first failing check |
| AppStateDecode.Processor.DecodeMutations | appstate/decode.go:192-227 | fills the output with the batch of the mutations, or stops at the first that does not decode |
| AppStateDecode.Processor.StoreMacs | appstate/decode.go:229-243 | the three writes, of which the last can be refused after the others took effect |
| AppStateDecode.Processor.DecodeSnapshot | appstate/decode.go:258-311 | store, state, mutations and error after a snapshot |
| AppStateDecode.Processor.DecodePatches | appstate/decode.go:357-407 | store, state, mutations and error after a snapshot and a list of patches |
| AppStateLaws.PatchStaysInStepIff | appstate/decode.go:381-405 | for a patch of any version accepted where the hash is that of the rows: the rows read as the applied table exactly if no newer row shadows one it stores, and the hash is again that of the rows exactly if they hash like the applied table |
| AppStateLaws.PatchesStayInStep | appstate/decode.go:381-406 | after any patches of any versions hash and rows agree and the returned state is the stored one, unless a write was refused or some accepted patch was shadowed |
| AppStateLaws.GrowingIsUnshadowed | appstate/decode.go:381-406 | patches of growing versions are never shadowed |
| AppStateLaws.PatchPreservesConsistency | appstate/decode.go:381-405 | a patch of a higher version keeps hash and rows in step; success stores the applied table and reports the decoded mutations, failure leaves the store alone unless an index was SET twice |
| AppStateLaws.PatchesPreserveConsistency | appstate/decode.go:381-406 | after any patches of growing versions, with any repeated SETs and REMOVEs, hash and rows agree and the returned state is the stored one, unless the database refused a write |
| AppStateLaws.PatchRefusedIff | appstate/decode.go:381-405 | in any collection, a patch of any version is refused exactly if it validates, decodes and adds a row twice or one that is stored already |
| AppStateLaws.RunRefusedIff | appstate/decode.go:381-406 | a run of any patches is refused exactly if some patch k is reached, validates, decodes and adds a row twice or one that is stored already |
| AppStateLaws.CarefulPatchesAreNotRefused | appstate/decode.go:381-406 | patches without double SETs, of versions not stored before, are never refused |
| AppStateLaws.FailureLeavesPrefix | appstate/decode.go:381-406 | a failure at patch k leaves store, state and mutations as the patches before k left them |
| AppStateLaws.ReturnedStateIsStored | appstate/decode.go:381-406 | the returned version and hash are the stored ones unless a write was refused |
| AppStateLaws.ReturnedStateIsStoredIff | appstate/decode.go:357-407 | for a snapshot and patches together, unless a write was refused: the returned state is the stored one exactly if no snapshot failed with a state of its own |
| AppStateLaws.SnapshotEstablishesConsistency | appstate/decode.go:258-311 | any snapshot into an empty collection is stored whole, in step with its hash, or not at all, unless the database refused it |
| AppStateLaws.SnapshotRefusedIff | appstate/decode.go:258-311 | a snapshot is refused exactly if it passes every check and repeats an index |
| AppStateFetch.Client.FetchAppState | appstate.go:43-106 | the collection and result after a fetch, as a function of the server's replies |
| AppStateFetch.Client.ApplyReplies | appstate.go:80-98 | the loop over replies, refusing snapshots that were not asked for or meet a non-empty state |
| AppStateFetch.ReplyPreservesConsistency | appstate.go:80-98 | one reply of growing versions keeps the stored hash in step with the stored rows unless a write was refused, and returns the stored state |
| AppStateFetch.ReplyStaysInStep | appstate.go:80-98 | one reply of any versions does so unless a write was refused or a patch was shadowed |
| AppStateFetch.FetchPreservesConsistency | appstate.go:43-106 | with growing versions a whole fetch from a consistent collection, and a full sync from any collection, ends consistent unless a write was refused, whatever the patches and snapshots contain and whatever else fails on the way |
| AppStateFetch.FetchStaysInStep | appstate.go:43-106 | with any versions the stored hash ends as that of the stored rows unless a write was refused or a patch was shadowed |
| AppStateFetch.CarefulFetchIsConsistent | appstate.go:43-106 | if no snapshot repeats an index and no patch sets one twice, no write is refused and the collection ends consistent; by a full sync, from any collection |
| AppStateEncode.BuildMutations | appstate/encode.go:330-367 | the loop builds one SET per requested mutation |
| AppStateEncode.EncodePatch | appstate/encode.go:320-394 | the patch built from a state and the stored rows, or a missing key |
| AppStateEncode.DistinctLookupsAgree | appstate/encode.go:369-371 | with distinct indexes the store-only lookup finds what the decoder's lookup finds |
| AppStateEncode.SameRemovalsIffDistinct | appstate/encode.go:369-371 | encoder and decoder subtract the same values for every stored table exactly if the indexes are distinct |
| AppStateEncode.EncodedAllDecode | appstate/encode.go:330-367 | encoded mutations decode, with MACs checked, to the requested indexes, values and versions in order |
| AppStateEncode.EncoderAgreesWithDecoder | appstate/encode.go:320-394 | a patch of distinct indexes, stamped with the next version, passes every check and reaches the state the encoder signed |
| AppStateEncode.EncodedValidatesIff | appstate/encode.go:369-386 | whatever indexes were requested, the decoder accepts the signature exactly if it computes the same hash, and else reports a mismatching hash, where the snapshot MAC does not collide |
| AppStateEncode.EncodedPatchIsStored | appstate/encode.go:320-394 | from a consistent collection it is also stored, and the collection stays consistent |
| AppStateWitnesses.RefusedWriteConsistentIff | appstate/decode.go:229-243 | what a refused write leaves behind, and exactly when hash and rows still agree |
| AppStateWitnesses.DoubleSetIsRefused | store/sqlstore/store.go:904 | in every consistent collection, a patch of one mutation encoded twice, with every MAC right, validates and decodes and is refused, its version saved |
| AppStateWitnesses.RepeatedRequestIsRejectedIff | appstate/encode.go:369-371 | a patch the encoder builds from one mutation requested twice is rejected exactly if the first new value does not expand like what was stored |
| AppStateWitnesses.OlderVersionIsShadowed | store/sqlstore/store.go:907 | a patch that sets an index below the version of a stored row, with every MAC right, is accepted and lookups go on returning the old value |
| AppStateWitnesses.BackwardVersionsAreShadowed | store/sqlstore/store.go:907 | from an empty collection, versions 2 and then 1 of one index are both accepted and the first value is read back |
| AppStateWitnesses.FailedSnapshotState | appstate/decode.go:258-311 | the state returned by a failed snapshot is the snapshot's |
| AppStateWitnesses.UnknownKeyReturnsForeignState | appstate/decode.go:374-379 | with an unknown key the returned version is not the stored one |
| AppStateAuthentic.ContentInputIsInjective | appstate/hash.go:97-101 | operation, content and key id can be read off what a content MAC covers |
| AppStateAuthentic.SnapshotInputIsInjective | appstate/hash.go:81-83 | hash, version and name can be read off what a snapshot MAC covers |
| AppStateAuthentic.PatchInputIsInjective | appstate/hash.go:85-95 | within a collection, snapshot MAC, value MACs and version can be read off what a patch MAC covers |
| AppStateAuthentic.AllDecodeIff | appstate/decode.go:137-183 | a list decodes exactly if every mutation opens and carries the right content and index MACs |
| AppStateAuthentic.ValidatesIff | appstate/decode.go:313-355 | a patch of any version validates exactly if it is signed over the hash recomputed from the table it leads to |
| AppStateAuthentic.AcceptedIff | appstate/decode.go:381-405 | a patch of any version is accepted exactly if it is signed over its resulting table, all its mutations are authentic and no row it adds is added twice or stored already |
| LabelChanges.BuildLabelChatChanges | appstate/encode.go:170-183 | the changes collapse to distinct indexes in order of first mention, with the effect of applying all of them in order |
| LabelChanges.DistinctInfosEncodeDistinct | appstate/encode.go:330-367 | distinct indexes become distinct index MACs where the digest does not collide on them |
| Varint.UvarintPut | reportingtoken.go:103 | reading back a written varint gives the value and consumes exactly its bytes |
| Varint.PutIsMonotone | reportingtoken.go:147-154 | a smaller length never takes more bytes |
| ReportingToken.ExtractsUnique | reportingtoken.go:94-176 | two extractions of one message are the same tree up to the order of fields |
| ReportingToken.ExtractedIsFixed | reportingtoken.go:94-176 | an extraction is its own extraction |
| ReportingToken.ExtractionIsIdempotent | reportingtoken.go:94-176 | extracting again changes nothing but the order of equal-numbered fields |
| ReportingToken.NoSubfieldsReportsNothing | reportingtoken.go:142-156 | a message entry without subfields contributes nothing |
| ReportingToken.ExtractedIsNoLonger | reportingtoken.go:142-156 | re-encoded extractions are never longer than the message |
| ReportingTokenReading.TagIsRead | reportingtoken.go:103-111 | the tag of a field is read back, followed by its value |
| ReportingTokenReading.ValueIsRead | reportingtoken.go:114-128 | the value of a field ends where its encoding ends, for every wire type |
| ReportingTokenParser.GetConfigForField | reportingtoken.go:75-83 | the loop finds the first entry for a field number |
| ReportingTokenParser.SortByNumber | reportingtoken.go:168-169 | some sorted permutation of the collected pieces |
| ReportingTokenParser.SameTrees | reportingtoken.go:168-169 | rearranged pieces still encode a rearrangement of the fields |
| ReportingTokenParser.Concatenate | reportingtoken.go:170-175 | the output is as long as the pieces together and encodes their fields in order |
| ReportingTokenParser.PutIsShortest | reportingtoken.go:147-151 | writing a varint again takes no more bytes than were read for it |
| ReportingTokenParser.Peek | reportingtoken.go:103-128 | on fitting bytes the value after a tag lies in the message and so does the content of a configured one; on a canonical encoding they are those of the next field |
| ReportingTokenParser.ReadMessage | reportingtoken.go:142-156 | a submessage is extracted and re-encoded, no longer than it was, unless nothing is left |
| ReportingTokenParser.ReadField | reportingtoken.go:112-163 | one configured or skipped field yields the piece it contributes, no longer than the field |
| ReportingTokenParser.ReadNext | reportingtoken.go:101-167 | on fitting bytes one turn of the loop moves on within the message or ends it; on a canonical encoding it reads one field, or meets the malformed tail |
| ReportingTokenParser.ReadKnown | reportingtoken.go:112-163 | a field of a known wire type is collected or skipped, and the rest is still to be read |
| ReportingTokenParser.Extract | reportingtoken.go:94-176 | on all fitting bytes it terminates in bounds with no more bytes than its input; on every canonical encoding it returns an encoding of exactly the pruned, sorted tree |
| ReportingTokenWalk.SafeIff | reportingtoken.go:101-176 | whatever a single turn does, the recursive condition that every value and every extracted slice stays in its message holds exactly if no number of steps reaches a turn that leaves one |
| ReportingTokenWalk.SafeTerminates | reportingtoken.go:101-176 | and then the recursion ends after at most two steps per byte |
| ReportingTokenBytes.ValueFitsIff | reportingtoken.go:114-128 | for every wire type and every varint read, the position after a value lies in the message exactly if a condition on that varint and the remaining length holds, wrap-around included |
| ReportingTokenBytes.MessageSliceFitsIff | reportingtoken.go:139-144 | a configured message can be sliced out exactly if its length was read and does not exceed what follows |
| ReportingTokenBytes.OrderlyIff | reportingtoken.go:101-166 | on arbitrary bytes and for any configuration, a turn of the loop slices and moves on within the message exactly if the value it reads fits and so does the content of a configured message |
| ReportingTokenBytes.InBoundsIff | reportingtoken.go:94-176 | on arbitrary bytes and for any configuration, no turn at any level of the recursion leaves its message exactly if every value met, and the content of every configured message in turn, fits |
| ReportingTokenBytes.FittingTerminates | reportingtoken.go:94-176 | and then the whole extraction ends after at most two steps per byte |
| ReportingTokenBytes.CanonicalIsFitting | reportingtoken.go:94-176 | every canonical encoding fits, at every level |
| ReportingTokenBytes.OverlongValueMovesBack | reportingtoken.go:114-117 | after an overlong varint value the position is eleven bytes before the value |
| ReportingTokenBytes.NeverEnds | reportingtoken.go:101-129 | a message of 22 bytes on which, wherever field 2 is not configured, the loop goes through the same six positions for ever, at any depth of the recursion |
| ReportingTokenBytes.WrappedLengthIsOutOfRange | reportingtoken.go:139-144 | a message of 19 bytes whose only value ends inside it, but whose slice is out of range wherever field 3 is a configured message |
| RemotePreKeys.CopyRemotePreKeys | remote_signal.go:276-292 | accepts exactly distinct, public-only 24-bit keys and returns new objects and their ids in order |
| RemotePreKeys.ValidRemotePreKeyBatchId | remote_signal.go:264-274 | true exactly for 32 lower-case hexadecimal digits |
| RemotePreKeys.RemotePreKeyStore.GetOrGenPreKeys | remote_signal.go:236-262 | settles an attempted acknowledgement first, then captures the prepared batch, with the calls made |
| RemotePreKeys.RemotePreKeyStore.MarkPreKeysAsUploaded | remote_signal.go:329-339 | acknowledges only for the last id of the captured batch, and remembers a failed attempt |
| RemotePreKeys.RemotePreKeyStore.AcknowledgeLocked | remote_signal.go:341-348 | acknowledges the complete captured list and forgets it on success |
| RemotePreKeys.RemotePreKeyStore.GenOnePreKey | remote_signal.go:294-319 | a retry key is outside the captured batch and is marked before it is returned |
| RemotePreKeys.UploadPreKeys | prekeys.go:58-103 | the locked sequence of prepare, upload and acknowledge, and every early return |
| PreKeyProtocol.RunKeepsInv | remote_signal.go:219-348 | adapter, uploader and history agree in every reachable state |
| PreKeyProtocol.AcknowledgedWasUploaded | remote_signal.go:329-348 | in every run each acknowledged list was handed out complete and in order and then uploaded, and no retry key or marked key is in the pending list |
| PreKeyProtocol.NoPrepareBeforeAck | remote_signal.go:244-249 | after a failed acknowledgement no batch is prepared in that lifetime until that very one succeeded |
| PreKeyContract.AckKeepsBooks | remote_signal.go:49-52 | an acknowledgement touches no other batch, and a replay changes nothing |
| PreKeyContract.PrepareKeepsBooks | remote_signal.go:45-48 | a prepared batch is pending and will be accepted when acknowledged |
| PreKeyContract.ReachKeepsSound | remote_signal.go:219-348 | client and contract-keeping remote agree after any moves, lost messages and restarts |
| PreKeyContract.NothingDroppedOrMisacknowledged | remote_signal.go:219-348 | every batch is acknowledged, pending or used up; every acknowledged one was uploaded; the outstanding one will be accepted |
| PreKeyContract.ReplayIsHarmless | remote_signal.go:229-231 | a replayed acknowledgement succeeds without altering a newer batch |
| PreKeyNodes.KeyRoundTripIff | prekeys.go:177-195 | a key comes back with its id cut to 24 bits, unchanged exactly if the id fits |
| PreKeyNodes.ReadKeysRoundTrip | prekeys.go:250-286 | every key read from any node survives being sent, and is signed exactly if the node is a signed key |
| LifecycleLaws.RunKeepsInv | client.go:621-830 | the invariant of the lifecycle holds in every reachable state |
| LifecycleLaws.SocketIsPairedWithItsQueue | client.go:672-675 | an installed socket is the newest generation and the queue channel kept is its own |
| LifecycleLaws.StaleCallbackChangesNothing | client.go:684-696 | a disconnect callback of another generation changes none of the client's fields and no other generation |
| LifecycleLaws.ReconnectsAreJustified | client.go:698-722 | each generation starts at most one reconnect, never with a socket installed, never while the disconnect is expected, and only after its queue closed |
| LifecycleLaws.ClosedQueueHandledItsErrors | client.go:1043-1059 | a closed queue handled every stream error it held when its context ended, in order |
| LifecycleLaws.ExpectingErrorShows | client.go:1082-1091 | an expecting error left in the queue, or being handled and waited for, when the context ended shows at the reconnect decision unless the flags were reset since |
| LifecycleOutcomes.QuietWhileExpected | client.go:710-721 | while a disconnect is expected no run of other steps starts a reconnect |
| LifecycleOutcomes.DisconnectIsFinal | client.go:785-798 | after Disconnect no reconnect starts, whatever was under way, until the flags are cleared by a connect or the keepalive |
| LifecycleOutcomes.LostConnectionReconnects | client.go:698-722 | from a live connection, through every run that does not connect, disconnect, clear flags, abandon its task or come to expect the disconnect, a reconnect for its generation is started exactly if its finishDisconnect has run, and then exactly one |
| LifecycleOutcomes.IdleConnectionRecovers | client.go:800-813 | an idle connection that is reset or closed remotely and left alone starts its one reconnect |
| LifecycleOutcomes.DisconnectForgetsQueue | client.go:822-829 | the queue channel of an idle live connection is forgotten if its loop closes it during the wait, and kept otherwise |
| LifecycleClient.Client.CloseSocket | socket/framesocket.go:76-102 | only the first close has an effect; it ends the context, schedules the callback if one is set, and keeps the invariant |
| LifecycleClient.Client.StopSocket | socket/noisesocket.go:78-88 | only the first stop has an effect, and the invariant is kept |
| LifecycleClient.Client.UnlockedDisconnect | client.go:815-830 | stops the socket, lets others run, forgets the queue channel if it was closed by then, starts no reconnect and keeps the invariant |
| LifecycleClient.Client.PerformStep | client.go:1039-1103 | each step others take without the lock, and that it keeps the invariant |
| LifecycleClient.Client.QueueStep | client.go:1060-1102 | each turn of the handler queue loop and of its drain, and that it keeps the invariant |
| LifecycleClient.Client.UnlockedConnect | client.go:621-677 | installs a new generation with its queue unless refused, connected or not dialed, and keeps the invariant |
| LifecycleClient.Client.OnDisconnect | client.go:684-696 | retires the current socket and starts one finishing task, or ignores the callback |
| LifecycleClient.Client.FinishDisconnect | client.go:698-722 | the reconnect decision; true exactly if one was started, for a generation without one |
| LifecycleClient.Client.Disconnect | client.go:789-798 | expects the disconnect, then disconnects; leaves no socket, starts no reconnect and keeps the invariant |
| LifecycleClient.Client.ResetConnection | client.go:802-813 | forces a reconnect, stops the socket with its callback allowed, and keeps the invariant |
| LifecycleClient.Client.EnqueueNode | client.go:1027-1037 | queues the node, drops it, or forces a reconnect when the queue is full, and keeps the invariant |
| LifecycleClient.Client.HandleStreamError | connectionevents.go:19-70 | which stream errors set the expectation, and that the invariant is kept |
| LifecycleClient.Client.DrainAndClose | client.go:1043-1059 | empties the queue handling its stream errors in order, then closes the channel |
| EventBuffer.RunKeepsInv | message.go:571-629 | rows, deliveries in progress and history agree in every reachable state |
| EventBuffer.RatchetCommitsOnce | message.go:590-622 | in every interleaving the decryption commits once per ciphertext hash unless the hash was evicted |
| EventBuffer.NoHandlerAfterClear | message.go:512-530 | if deliveries of one hash do not overlap, no handler sees a hash after it was cleared unless it was evicted |
| EventBuffer.HandledAfterClearIff | message.go:512-530 | in every interleaving, after a clear some continuation without an eviction brings the hash to a handler exactly if another delivery held its plaintext then |
| EventBuffer.ExclusiveClearIsFinal | message.go:512-530 | if deliveries of one hash do not overlap, a clear is final until an eviction |
| EventBuffer.HandlersSeeOnePlaintext | message.go:595-610 | all deliveries of a hash show the one committed plaintext |
| EventBuffer.OverlapHandlesAfterClear | message.go:512-530 | two overlapping deliveries reach a handler after the clear |
| EventBuffer.Receiver.BufferedDecrypt | message.go:571-629 | the outcome for a missing, buffered and processed row, and the only case in which the ratchet runs |
| EventBuffer.Receiver.Deliver | message.go:447-530 | one payload from lookup to clearing is a run of the four steps |
| RemoteReceive.DecryptMessagesRemote | remote_signal.go:357-468 | the loop's replies and deliveries, read off the first payload that ends it |
| RemoteReceive.AtMostOneTerminalReply | remote_signal.go:357-468 | nothing, a receipt, a nack, or a retry receipt with its ack |
| RemoteReceive.SilentIff | remote_signal.go:418-429 | nothing is sent exactly if a payload that was asked about met an outage or a cancellation |
| RemoteReceive.ReceiptIff | remote_signal.go:459-467 | exactly when a receipt is sent |
| RemoteReceive.DeliveredIff | remote_signal.go:451-457 | a message is handed over exactly if it was received and not delivered before |
| RemoteReceive.DeliveredInOrder | remote_signal.go:451-457 | messages are handed over once and in stanza order |
| Padding.UnpadUndoesPad | message.go:742-762 | unpadding restores the message exactly in the versions that pad |
| Padding.UnpadAcceptsIff | message.go:736-752 | exactly which byte strings are accepted, and what is returned |
| RecentMessages.Ring.AddRecentMessage | retry.go:83-102 | map, list and ring position refine the queue, and stay consistent |
| RecentMessages.Ring.GetRecentMessage | retry.go:105-112 | the lookup in the queue, a hit exactly for the keys in the ring |
| RecentMessages.ReplayConsistent | retry.go:83-102 | after any sends there are at most 256 distinct keys and the map holds exactly them |
| RecentMessages.OrderIsLastInsertions | retry.go:94-100 | the ring holds the last 256 insertions, oldest first |
| RecentMessages.LookupIff | retry.go:83-117 | a key is found exactly if it is among the last 256 insertions, with the newest payload |
| RecentMessages.StaysForTheWindow | retry.go:83-117 | a newly cached message is found exactly until 256 further insertions, unless it was inserted again |
| RecentMessages.ResendDoesNotRenew | retry.go:89-93 | sending again under the oldest key does not save it from the next eviction |
| RetryWindow.BoundedCounter.IncrementBoundedCounter | cache.go:36-46 | the table is cleared after an hour, a new key is refused when it is full, and the count is the number of increments |
| RetryWindow.BoundedCounter.AcceptIncomingRetry | retry.go:233-253 | accepts while the count is below ten |
| RetryWindow.BoundedCounter.CountRetryReceipt | retry.go:524-554 | continues from the count of a forgotten message if that is the only child of its stanza, and sends while it is below five |
| RetryWindow.TableIsBounded | cache.go:41-43 | the table never exceeds 1024 entries |
| RetryWindow.ResetsAreApart | cache.go:37-40 | resets are at least an hour apart |
| RetryWindow.AcceptancesAreBounded | cache.go:36-46 | in any interval shorter than an hour at most twice (cutoff - 1) requests are accepted per key, and 2048 times (cutoff - 1) in all |
| RetryWindow.IncomingRetriesAreBounded | retry.go:233-253 | for incoming retries 18 per sender and message and 18432 in all |
| RetryWindow.BoundIsReached | cache.go:37-40 | the bound per key is reached around a reset |
| RetryChain.StepCountsUpIff | retry.go:524-554 | the receipts for a message go on counting exactly if a stanza of a forgotten message tells how many there were, or that there were enough |
| RetryChain.CountsUpIff | retry.go:524-554 | through any restarts, window resets and other messages, the receipts for one message count 1, 2, 3, 4 and stop exactly if that is so at every step |
| RetryChain.AtMostFourReceipts | retry.go:524-554 | if each stanza has one child with the count of the last receipt, at most four receipts go out, counting 1, 2, 3, 4 |
| RetryChain.RestartsBeginAgain | retry.go:526-530 | a message in a stanza with a second child, whatever its count, is sent a first receipt after each of n restarts |
| KeyRequests.KeyRequester.RequestMissingAppStateKeys | appstate.go:559-581 | the pruned table and the filtered keys, as a function of the old table |
| KeyRequests.KeyRequester.PruneExpiredCache | cache.go:48-54 | the loop removes exactly the entries before the cutoff |
| KeyRequests.RunKeepsInv | appstate.go:559-581 | over all runs two requests for one key are more than 24 hours apart, within a call too, and the table holds at most 1024 entries |
| KeyRequests.AsksEveryDueKeyIff | appstate.go:568-578 | a call asks for every due key exactly if the table and its keys fit together |
| KeyRequests.ExpiredEntriesBlockNewKeys | appstate.go:565-574 | with one slot left the second of two new keys is passed over, however old the other entries are |
| SecurityCode.SerializeIdentityKeys | security_code.go:244-255 | the loop writes the sorted keys, each after its type byte |
| SecurityCode.SerializesAlikeIff | security_code.go:244-255 | two key lists serialise alike exactly if they are equal as multisets |
| SecurityCode.Overwrite | security_code.go:333-334 | refilling the reused buffer leaves exactly digest and keys |
| SecurityCode.GenerateSecurityCodeFingerprint | security_code.go:318-347 | the loop over the reused buffer is the iterated hash, or fails exactly if one of its 83 context checks does |
| SecurityCode.Render | security_code.go:337-346 | the loop writes six groups of five digits |
| SecurityCode.DigitsRead | security_code.go:338-345 | each group of digits reads as its five bytes modulo 100000 |
| SecurityCode.GenerateNumericSecurityCode | security_code.go:223-242 | the code, or the cancellation of either half |
| SecurityCode.BothPartiesSeeTheSameCode | security_code.go:223-255 | sixty digits, the same for both parties and for any order of either's keys |
| SecurityCode.SmallerHalfFirst | security_code.go:238-241 | the smaller half comes first and both halves are there |

## Left out

- ReportingTokenParser.Extract: what is extracted is stated for canonical encodings (shortest varints); for other bytes that fit, only that it ends in bounds and returns no more than it was given. On bytes that do not fit, `ReportingTokenBytes.InBoundsIff` says that some turn leaves its message.
- ReportingTokenParser.Peek: reads the varint after every tag; the source does so only where it is needed, with no other effect.
- AppStateFetch.FetchPreservesConsistency: the server is taken to send growing versions; `FetchStaysInStep` is for any versions.
- AppStateFetch.Client.FetchAppState: store reads that fail and the collection of events are not modelled.
- AppStateEncode.EncodePatch: marshalling, encryption and store reads that fail are not modelled.
- AppStateDecode.Processor.StoreMacs: the only write failures are refusals by the table's constraints; a store that fails for other reasons, and reads that fail, are not modelled.
- AppStateDecode.Processor.DecodePatches: one collection at a time, and the always empty map of substitute indexes is dropped.
- RemotePreKeys.UploadPreKeys: the early returns of shadow clients and of disabled Signal features are not modelled, and the contents of the upload query are not.
- EventBuffer.NoHandlerAfterClear: holds if deliveries of one hash do not overlap; `HandledAfterClearIff` is the exact condition without that.
- EventBuffer.Receiver.Deliver: the buffer is enabled and the ciphertext hash is given; the receipts of the local loop and bot messages are not modelled.
- RetryWindow.AcceptancesAreBounded: the clock does not go backwards.
- RetryChain.AtMostFourReceipts: every stanza has one child, which carries the count of the receipt it answers; `CountsUpIff` is the exact condition without that.
- RemoteReceive.DecryptMessagesRemote: a retry receipt is the request to send one; whether it goes out is the counter of `RetryWindow`.
- KeyRequests.RunKeepsInv: the clock does not go backwards; which keys are missing is a parameter.
- RecentMessages.Ring.AddRecentMessage: marshalling, the persistent retry store and the parsing of a cached payload are not modelled.
- LifecycleLaws.ReconnectsAreJustified: counts the reconnects started by finishDisconnect; the retry loop after it and the keepalive's own reconnects are not modelled.
- LifecycleClient.Client.UnlockedDisconnect: the five seconds are whatever steps others take meanwhile; no time is measured.
- SecurityCode.SerializeIdentityKeys: the library's sort is an insertion sort; by `SortedIsUnique` every correct sort gives the same list.
- Sockets, the Noise handshake, HTTP, media transfer and queries to the server: input and output.
- Signal sessions, HKDF, AES, HMAC, SHA and curve operations: parameters.
- Recovery of app state from the primary device: its hash is trusted, so the table law is not established there.
- Dispatching app state events, notifications, pairing, newsletters, business features and message builders: wide switches and field checks without a deep invariant.
- QR codes of identities, group and device caches, trusted-contact tokens: easy beside the rest.
