# Supgang, modelled and verified

Supgang keeps a small hive of computers in contact: each device holds a root-issued membership, signs short-lived endpoint records,
remembers its peers in a journal, and authenticates every connection. This project models the parts where its guarantees are decided
and proves what they promise over every input, every run and every crash. `dafny verify dfyconfig.toml` checks it.

| part | modules | what is proved |
|---|---|---|
| journal | `JournalFormat`, `JournalStore`, `JournalCrash`, `JournalHandle` | the frame format is exact, opening accepts exactly what was committed, and every run of appends, compactions, cuts and reopenings, from the first opening of an empty disk on, is atomic and durable |
| peer directory | `PeerHistory`, `PeerMerge`, `PeerReplay`, `PeerRuns`, `PeerPages`, `DialHints`, `PeerDirectory` | merging converges, quarantine is final, histories trimmed step by step equal one trim, and over every run on the byte journal, with any operation cut, what opens replays to a directory that is dialled the same |
| local state | `StateEvents`, `StateReplay`, `StateRuns`, `RootRuns`, `LocalState`, `Canonical` | no record is ever signed twice under one sequence, over all failures and restarts; compaction keeps the state; over the life of a root its snapshot's serial counts the revoked members |
| revocation and membership | `Revocation`, `RevocationGossip`, `MembershipCodec`, `Cbor` | canonical codecs are exact; gossip converges without error |
| session handshake | `SessionWire`, `SessionMessages`, `Session`, `SessionRuns`, `SessionCompletes` | mutual, injective agreement over all interleavings on a network that delivers anything; undisturbed handshakes complete |
| authority manifests | `Authority`, `AuthorityStore`, `AuthorityRuns` | revisions and key identifiers are never reused and revoked keys never return, over the whole life of a device |
| algorithms | `EditDistance`, `GateCache`, `DialOrder` | the two-row bounded distance is the least edit cost, the pruned closure is exact, cache keys change exactly when a relevant file does, dial orders put a routed address early |

`Contacts` holds the record and certificate checks, `Sorting` and `Prelude` what the others share.

What is idealized: hashes, signature checks and key decoding are arbitrary functions. The journal witness digest stands for the bytes it
absorbed, and the hash in a pending authority reservation for its content. A write that is cut leaves a prefix of its bytes; a rename happens
or does not. In the handshake a proof that a call relies on and that verifies for an honest key was made by that key, nonces do not repeat, and the TLS
exporter value is a parameter of the connection (section 7.5 of RFC 8446). Clocks, random nonces, the kernel's routing answer and the outcome
of each write are parameters. CBOR is the deterministic profile of section 4.2.1 of RFC 8949. Integers are bounded where the source
checks or saturates them.

Where the code does not meet a promise, that is stated and the exact condition is proved: a compacted history replays identically
exactly when it is empty or its newest element differs in dial state from the current contact (`PeerMerge.CompactionReplays`), and the difference is never
visible in what is dialled; a journal handle used after a cut append stays openable exactly when the cut left no bytes
(`JournalCrash.AppendAfterTornAppend`); a cut opening changes nothing about the next one exactly when
it did not leave a new file with part of its header (`JournalCrash.RecoverOpen`), and such a file is refused as invalid for good
(`JournalCrash.CutHeaderIsFinal`), the one way to lose a journal on which nothing was ever written; a cut compaction is refused as a rollback
exactly when the rename outran the witness (`JournalCrash.RecoverCompact`), in the state and in the peer directory; the merge
converges exactly for consistent records (`PeerMerge.ConvergesExactly`). A page of contacts does not persist all that its contacts imported one by one
would: a known peer reaches the newest record of its generation exactly when no contact of a higher generation came with a newer one
(`PeerPages.PageReachesNewest`, `PageLosesNewer`), and an equivocation goes unrecorded exactly when it is not at the newest version held or is hidden
there by two certificates with one record (`PeerPages.PageMissesExactly`, `PageLosesEvidence`, `PageLosesThird`).

The objects (`LocalState.State`, `PeerDirectory.Directory`) carry the world of their run as a ghost field: every method's contract says that
steps of the run relation lead from its old world to its new one, so the results over runs hold of the code. A state lets go of its handle at the first
failure. A peer directory does not, although `journal.rs` asks for that: its runs include appends through a handle that failed. What opens after them is
still one of the frame lists the run accounts for, but opening may be refused until a compaction succeeds.

## Model

| member | source | states |
|---|---|---|
| `JournalFormat.LengthRoundTrip` | crates/supgang/src/journal.rs:465-475 | four big-endian length bytes and the sizes they can hold determine each other |
| `JournalFormat.ParseFrames` | crates/supgang/src/journal.rs:538-569 | the cursor loop ends on all bytes, moving by at least 37, and returns what the recursive parse defines |
| `JournalFormat.ParseSerialized` | crates/supgang/src/journal.rs:538-569 | parsing written frames, followed by nothing or by an interrupted frame, returns those frames and their full length |
| `JournalFormat.ParsedIsSerialized` | crates/supgang/src/journal.rs:538-569 | whenever parsing succeeds, the part called valid is byte for byte the writing of the returned frames, and only an interrupted frame follows |
| `JournalFormat.CutSerialization` | crates/supgang/src/journal.rs:465-475 | any byte prefix of written frames is whole frames and one interrupted frame |
| `JournalFormat.WholeFramesIsLongest` | crates/supgang/src/journal.rs:538-569 | no longer list of whole frames fits the cut |
| `JournalFormat.ParseCutImage` | crates/supgang/src/journal.rs:538-569 | a journal cut anywhere past its header parses without error to the longest prefix of whole frames |
| `JournalFormat.ParseImage` | crates/supgang/src/journal.rs:538-569 | a whole journal parses to its payloads and full length |
| `JournalFormat.ImageInjective` | crates/supgang/src/journal.rs:465-475 | two payload lists never have the same bytes |
| `JournalStore.ReadCommittedExactly` | crates/supgang/src/journal.rs:211-219 | a prefix passes the witness check exactly when it is the committed bytes |
| `JournalStore.OpenExactly` | crates/supgang/src/journal.rs:91-179 | with a witness, opening succeeds if and only if the file is readable and still starts with the committed journal; it returns exactly the committed frames and leaves exactly them |
| `JournalStore.OpenAgreesWithRead` | crates/supgang/src/journal.rs:181-220 | reading without repair returns what opening returns, frames or error |
| `JournalStore.OpenCommitted` | crates/supgang/src/journal.rs:91-179 | a journal in agreement with its witness opens unchanged to its frames |
| `JournalStore.OpenRepairs` | crates/supgang/src/journal.rs:91-179 | after any successful opening, file and witness agree, so opening again changes nothing |
| `JournalStore.RepairOnlyTruncates` | crates/supgang/src/journal.rs:91-179 | a repair never writes frame bytes and writes a witness only where there was none |
| `JournalStore.CutHeaderIsRefused` | crates/supgang/src/journal.rs:453-455 | of the files that hold part of a header, exactly the proper, non-empty ones are refused as invalid |
| `JournalCrash.RecoverAppend` | crates/supgang/src/journal.rs:229-302 | after an append cut anywhere, opening finds all of the batch or none, by whether the witness was written |
| `JournalCrash.RecoverCompact` | crates/supgang/src/journal.rs:343-415 | after a compaction cut anywhere, opening finds the old frames, the new ones, or reports a rollback; the last exactly when the rename outran the witness |
| `JournalCrash.RecoverOpen` | crates/supgang/src/journal.rs:91-179 | an opening may itself be cut anywhere: the next one gives the same result if and only if the cut did not leave a new file with part of its header; otherwise it is refused as an invalid header |
| `JournalCrash.AppendAfterTornAppend` | crates/supgang/src/journal.rs:222-263 | going on with a handle after a cut append leaves an openable journal if and only if the cut left no bytes |
| `JournalCrash.FreshOpens` | crates/supgang/src/journal.rs:91-179 | a disk on which no opening ever finished opens empty, or is refused as an invalid header exactly when a first opening was cut inside it |
| `JournalCrash.SoundOpens` | crates/supgang/src/journal.rs:91-179 | whatever cut a sound journal, it opens to one of the frame lists it had or was about to have; only a cut replacement may be refused, as a rollback, only a cut first header, as invalid, and a journal that was appended to after a failure, in any way |
| `JournalCrash.StepSound` | crates/supgang/src/journal.rs:222-415 | every append, compaction, stop, repair and reopening, cut or not, and appends and compactions through a handle that failed, keep the journal sound |
| `JournalCrash.RunIsAtomicAndDurable` | crates/supgang/src/journal.rs:91-415 | over every run, from the first opening of an empty disk on and also through handles that go on after a failure, whenever the journal is open its frames come from a frame list the run started with by the acknowledged operations and all or none of each cut one |
| `JournalCrash.CutHeaderIsFinal` | crates/supgang/src/journal.rs:453-455 | once a first opening was cut inside the header no step changes the disk any more |
| `JournalHandle.Journal.Open` | crates/supgang/src/journal.rs:91-179 | the opening code leaves the disk and the handle in agreement with the opening function, on success and on each error |
| `JournalHandle.Journal.Read` | crates/supgang/src/journal.rs:189-220 | reading returns the reading function's answer |
| `JournalHandle.Journal.Append` | crates/supgang/src/journal.rs:229-263 | success commits exactly one more frame; a refusal changes nothing; an I/O error leaves a state a cut append can leave; a handle that failed before writes to the file it holds and hashes the frames it stands for |
| `JournalHandle.Journal.AppendBatch` | crates/supgang/src/journal.rs:265-302 | the same for a batch under one witness move |
| `JournalHandle.Journal.Compact` | crates/supgang/src/journal.rs:343-415 | success commits exactly the given payloads, also through a handle that failed before; a refusal changes nothing; an I/O error leaves a state a cut replacement can leave |
| `JournalHandle.Journal.Reconcile` | crates/supgang/src/journal.rs:91-179 | the comparison with the witness keeps, cuts or refuses as the opening function says |
| `Contacts.VerifyWindow` | crates/supgang/src/record.rs:397-428 | of the checks that `Contacts.VerifyExactly` says outright only time ever changes: an accepted contact is acceptable exactly from five minutes before its issue until it expires, and always on historical replay |
| `Contacts.VerifyExactly` | crates/supgang/src/record.rs:397-428 | a contact is accepted if and only if the root signed a sound certificate, its device key signed a sound record, both name the same hive and node, the record ends within the certificate, each capability has its role and now is in both windows; no check function is named |
| `Contacts.MembershipVerifyExactly` | crates/supgang/src/membership.rs:172-190 | a membership verifies if and only if its certificate is sound, hive and node are the hashes of root and device key, and the root's 64-byte signature is over it |
| `Contacts.RecordShapeExactly` | crates/supgang/src/record.rs:276-312 | a record passes its shape check if and only if version, name, counts, order, lifetime and advertisements are as promised |
| `Canonical.SortDedupCanonical` | crates/supgang/src/record.rs:324-333 | the canonical list is strictly ordered and has exactly the given elements |
| `Canonical.CanonicalUnique` | crates/supgang/src/record.rs:324-333 | there is only one such list |
| `Canonical.CanonicalRecord` | crates/supgang/src/record.rs:324-333 | canonical candidates always pass the order check; services do exactly when no name is claimed with two contents |
| `PeerHistory.UniqueAddresses` | crates/supgang/src/peer_directory.rs:657-675 | the loop over candidates returns the unseen dialable addresses within the limit and adds exactly them to the shared set |
| `PeerHistory.TrimHistory` | crates/supgang/src/peer_directory.rs:646-655 | retaining with one shared set computes the trim |
| `PeerHistory.TrimIncrementally` | crates/supgang/src/peer_directory.rs:586-594 | trimming whenever a contact is superseded equals one trim of everything superseded |
| `PeerHistory.TrimBounds` | crates/supgang/src/peer_directory.rs:646-675 | every contact kept adds an address, the counted distinct addresses stay within the limit, and the dropped contacts add none to them |
| `PeerMerge.HistoryIsOneTrim` | crates/supgang/src/peer_directory.rs:574-624 | after any contacts in any order, the history is one trim of all superseded contacts whose dial state changed |
| `PeerMerge.QuarantineIsSticky` | crates/supgang/src/peer_directory.rs:550-627 | once conflicting evidence is kept no contact changes the entry |
| `PeerMerge.Convergence` | crates/supgang/src/merge.rs:24-37 | consistent records, in every order and with every repetition, end at the record of greatest sequence without a conflict |
| `PeerMerge.InconsistentDiverges` | crates/supgang/src/merge.rs:24-37 | two different records of one sequence, or records of two generations, end with different current records by which came first, whatever follows |
| `PeerMerge.ConvergesExactly` | crates/supgang/src/merge.rs:24-37 | the current record is independent of the order of arrival if and only if the records are consistent |
| `PeerMerge.NextAlike` | crates/supgang/src/peer_directory.rs:574-624 | entries that differ only in an undialled duplicate stay so whatever is applied to both |
| `PeerMerge.ReplayHistory` | crates/supgang/src/peer_directory.rs:492-504 | replaying a trimmed history, oldest first, rebuilds it |
| `PeerMerge.CompactionReplays` | crates/supgang/src/peer_directory.rs:492-504 | the frames of an entry replay without error to an entry dialled alike, and to the identical entry if and only if it has no history or its newest history element differs in dial state from the current contact |
| `PeerMerge.CompactionCanShortenHistory` | crates/supgang/src/peer_directory.rs:492-504 | an entry whose compacted history replays shorter |
| `PeerReplay.ChangesExactly` | crates/supgang/src/peer_directory.rs:550-627 | a contact is logged if and only if it changed the directory |
| `PeerReplay.AnswerExactly` | crates/supgang/src/peer_directory.rs:550-627 | each answer to an import, by an if-and-only-if in terms of local node, known node, count, generation, sequence, endpoint and kept conflict |
| `PeerReplay.ApplyExactly` | crates/supgang/src/peer_directory.rs:550-627 | the entry after a contact, in the same terms: first, newer, superseding with or without history, conflicting, or unchanged; no other entry changes |
| `PeerReplay.ReplayAppend` | crates/supgang/src/peer_directory.rs:232-237 | replaying one more logged contact never fails and gives the applied directory |
| `PeerReplay.CompactedLogReplays` | crates/supgang/src/peer_directory.rs:486-504 | from any good directory, in any node order, the compacted log replays without error and keeps every current contact and conflict, and every history up to what is never dialled |
| `PeerReplay.ApplyAlike` | crates/supgang/src/peer_directory.rs:550-627 | directories that are dialled alike answer and change alike |
| `PeerRuns.LogRoundTrip` | crates/supgang/src/contact.rs:118-168 | the frames written for storable contacts are payloads and are read back as those contacts |
| `PeerRuns.ReplayFramesIsReplay` | crates/supgang/src/peer_directory.rs:232-237 | opening frame by frame is the replay of the decoded contacts, and fails when a frame is none |
| `PeerRuns.ApplyAllSound` | crates/supgang/src/peer_directory/import_batch.rs:14-56 | applying a page to memory and to the replayed directory logs the same contacts and keeps both alike |
| `PeerRuns.StepSafe` | crates/supgang/src/peer_directory.rs:432-548 | imports, pages and compactions, also after a failure, stops and reopenings, each cut anywhere, leave a disk whose every possible frame list replays to entries alike one of those the operations account for |
| `PeerRuns.RunSafe` | crates/supgang/src/peer_directory.rs:211-548 | so over every run on the byte journal, from an empty disk on |
| `PeerRuns.SafeReopens` | crates/supgang/src/peer_directory.rs:211-244 | a directory that went down opens again to frames that replay, to entries alike; the journal is refused only as a rollback after a cut compaction, as an invalid header after a cut first opening, or after appends through a failed handle |
| `PeerRuns.RunHints` | crates/supgang/src/peer_directory.rs:368-424 | at every moment of every run at which the directory is up its disk opens to its frames, and the reopened directory would give the very same dial hints, for all claims, routes and revocations |
| `PeerRuns.QuarantineSurvives` | crates/supgang/src/peer_directory.rs:486-627 | a recorded conflict is, at every later moment of every run, in memory and in every frame list that opening can find |
| `PeerRuns.PeersSurvive` | crates/supgang/src/peer_directory.rs:426-443 | until the next import, every compaction, cut, stop and reopening leaves the same peers, current contacts and conflicts in memory and in whatever opening can find |
| `PeerRuns.ExactBetweenCompactions` | crates/supgang/src/peer_directory.rs:232-237 | without compaction every frame list that opening can find rebuilds exactly, history included, the entries before or after the operation that was cut |
| `PeerRuns.ReplayAnyLimit` | crates/supgang/src/peer_directory.rs:211-244 | a journal replays under every history limit to the same error or to the same peers, contacts and conflicts |
| `PeerRuns.SafeAnyLimit` | crates/supgang/src/peer_directory.rs:211-244 | so a directory that is down can be opened with another limit, with the same peers in view |
| `PeerPages.KeepsNewest` | crates/supgang/src/peer_directory/import_batch.rs:67-85 | of any contacts of a node, one of the newest version is kept, or two different ones whenever there are several |
| `PeerPages.Coalesce` | crates/supgang/src/peer_directory/import_batch.rs:58-88 | the loop over the first nine contacts keeps, per node, what retaining its eligible contacts in order keeps |
| `PeerPages.PageOnKnown` | crates/supgang/src/peer_directory/import_batch.rs:30-37 | a known peer sees of a whole page exactly the contacts kept for it, in order |
| `PeerPages.PageOnPeer` | crates/supgang/src/peer_directory/import_batch.rs:14-56 | so importing a page merges into each known peer what is kept of its own eligible contacts |
| `PeerPages.PageEffect` | crates/supgang/src/peer_directory/import_batch.rs:67-85 | all cases: an older version or another generation changes nothing; the peer's own version leaves it and a newer one is taken, with the first kept contact of another record as evidence; a quarantined peer stays |
| `PeerPages.PageReachesNewest` | crates/supgang/src/peer_directory/import_batch.rs:12-56 | after a page the peer is at the newest record of its generation that the page held, if and only if no contact of a higher generation came with a newer one |
| `PeerPages.EquivocationExactly` | crates/supgang/src/peer_directory.rs:597-624 | one by one, some order of some contacts quarantines a peer if and only if two records of one version, not below the current one, are among them and the current record |
| `PeerPages.PageAgreesExactly` | crates/supgang/src/peer_directory/import_batch.rs:12-56 | without an equivocation a page and its contacts one by one in any order quarantine nobody, and end at the same record if and only if no contact of a higher generation came with a newer one |
| `PeerPages.PageQuarantinesExactly` | crates/supgang/src/peer_directory/import_batch.rs:12-56 | a page quarantines a peer if and only if the newest version held by page and peer equivocates and is not shadowed by two certificates with one record |
| `PeerPages.PageMissesExactly` | crates/supgang/src/peer_directory/import_batch.rs:12-56 | so an equivocation goes unrecorded if and only if a higher generation or a newer version without one came along, or it is shadowed |
| `PeerPages.PageLosesNewer` | crates/supgang/src/peer_directory/import_batch.rs:12-56 | a page that loses a newer contact to one of a higher generation |
| `PeerPages.PageLosesEvidence` | crates/supgang/src/peer_directory/import_batch.rs:12-56 | a page that loses evidence against the current record to a newer contact |
| `PeerPages.PageLosesThird` | crates/supgang/src/peer_directory/import_batch.rs:12-56 | a page whose first two contacts, one record under two certificates, hide a third with another record |
| `DialHints.AlikeHints` | crates/supgang/src/peer_directory.rs:368-424 | entries alike give the same hints, address by address |
| `DialHints.CurrentDialled` | crates/supgang/src/peer_directory.rs:368-424 | for the current contact exactly the distinct claims come first, then its local, direct, mapped and relayed candidates but no reflexive ones, then its routes, each address once and at its first place |
| `DialHints.EntryExactly` | crates/supgang/src/peer_directory.rs:368-424 | an entry's hints are that one, when there is anything to dial, then one per history contact that adds an address, from the newest on, within the budget; unless the budget is used up nothing is left out |
| `DialHints.HistoryPlaces` | crates/supgang/src/peer_directory.rs:387-420 | each historical hint names a history contact and has only new addresses of it, of its direct, mapped and relayed candidates and then its routes, in their order, hints in order of history |
| `DialHints.HistoryComplete` | crates/supgang/src/peer_directory.rs:387-420 | the historical hints use up the budget or name every address the history offers |
| `DialHints.AllHintsExactly` | crates/supgang/src/peer_directory.rs:368-424 | at its place among the peers each one contributes its hints exactly when it is neither quarantined nor revoked |
| `DialHints.UsableExactly` | crates/supgang/src/peer_directory.rs:319-347 | a peer resolves, or is an authority for recovery, exactly when known, not quarantined, not revoked and, to resolve, verified now; what is returned is its current contact |
| `DialHints.DeniedIsNeverUsed` | crates/supgang/src/peer_directory.rs:319-424 | a quarantined or revoked peer is never resolved, never pinned for recovery and named by no dial hint |
| `DialHints.HistoryHintsBounded` | crates/supgang/src/peer_directory.rs:368-424 | historical hints stay within the address budget and never repeat an address |
| `PeerDirectory.ReplayAllFrames` | crates/supgang/src/peer_directory.rs:232-237 | the opening loop computes the replay, stopping at the first error |
| `PeerDirectory.CanonicalContacts` | crates/supgang/src/peer_directory.rs:492-504 | the nested loops write, per node in ascending order, history from the oldest, current contact and evidence |
| `PeerDirectory.TakeUnseen` | crates/supgang/src/peer_directory.rs:657-675 | unseen addresses in order up to a limit, each added to the shared set |
| `PeerDirectory.HintsOf` | crates/supgang/src/peer_directory.rs:368-424 | one shared seen set over claims, current contact and history gives the entry's hints, which `DialHints.EntryExactly` says outright |
| `PeerDirectory.CanonicalCount` | crates/supgang/src/peer_directory.rs:506-513 | the counting loop gives the number of frames compaction would write |
| `PeerDirectory.Preview` | crates/supgang/src/peer_directory/import_batch.rs:30-37 | merging into a copy notes exactly the contacts that change it |
| `PeerDirectory.Directory.Open` | crates/supgang/src/peer_directory.rs:211-244 | limit, journal, snapshot and replay are checked in that order, with their errors; success holds the replayed entries over a journal of canonical size; from a disk a safe run left, the replay never fails and the run goes on |
| `PeerDirectory.Directory.Import` | crates/supgang/src/peer_directory.rs:432-443 | unless the journal fails the answer and the entries are those `PeerReplay.AnswerExactly` and `ApplyExactly` say outright; an unverified, revoked or unwritable contact changes nothing; a failed append may be followed by a compaction whose failure takes over; whatever happens, also after an earlier failure, memory, handle and disk are at a safe point of the run |
| `PeerDirectory.Directory.ImportPage` | crates/supgang/src/peer_directory/import_batch.rs:14-56 | the kept contacts in node order are merged, and those that change anything are persisted in one batch, all or none; the answer says whether there were any; on error the entries are unchanged |
| `PeerDirectory.Directory.Persist` | crates/supgang/src/peer_directory.rs:529-548 | a contact is refused exactly when it has no bytes; otherwise a large journal is compacted first and a full one once more, and success appends exactly its bytes |
| `PeerDirectory.Directory.PersistPage` | crates/supgang/src/peer_directory/import_batch.rs:45-53 | the same for a page under one synchronization |
| `PeerDirectory.Directory.Compact` | crates/supgang/src/peer_directory.rs:486-490 | the journal becomes the bytes of the canonical contacts, which never fail to encode; too large a journal is refused with nothing changed; an I/O error leaves a cut replacement the run accounts for |
| `PeerDirectory.Directory.SetRevocations` | crates/supgang/src/peer_directory.rs:451-478 | a newer snapshot is taken exactly when it verifies and extends the old one, with the error otherwise |
| `PeerDirectory.Directory.AllDialHints` | crates/supgang/src/peer_directory.rs:368-424 | the loop gives the hints of every peer neither quarantined nor revoked, in ascending node order, which `DialHints.AllHintsExactly` and `EntryExactly` say outright |
| `Cbor.ReadsHead` | crates/supgang/src/revocation.rs:231-278 | reading a head inverts writing it, for every major type and 64-bit argument, whatever follows |
| `Revocation.WriteNodes` | crates/supgang/src/revocation.rs:231-245 | the writing loop computes the encoding of the identifiers |
| `Revocation.ReadNodes` | crates/supgang/src/revocation.rs:247-278 | the reading loop computes their decoding, or its error |
| `Revocation.EncodeSucceeds` | crates/supgang/src/revocation.rs:149-165 | every valid snapshot with a 64-byte signature encodes to at most 8832 bytes, so it is never oversized |
| `Revocation.CodecExact` | crates/supgang/src/revocation.rs:149-194 | bytes decode to a snapshot if and only if the snapshot is valid and the bytes are its encoding |
| `RevocationGossip.MergeFeedsDirectory` | crates/supgang/src/peer_directory.rs:451-478 | a merge returns true exactly when a directory with the same prior snapshot would advance and something new is revoked |
| `RevocationGossip.VerifySnapshotExactly` | crates/supgang/src/revocation.rs:119-134 | a snapshot verifies if and only if it is of this hive, strictly ordered, of at most 256 nodes, empty exactly at serial 0, and signed by the root |
| `RevocationGossip.MergeExactly` | crates/supgang/src/state.rs:366-393 | each answer of a merge by an if-and-only-if on serials, times and revoked nodes; another snapshot of the same serial is an equivocation |
| `RevocationGossip.SetExactly` | crates/supgang/src/peer_directory.rs:451-478 | the same for a peer directory, which refuses an older snapshot |
| `RevocationGossip.NextListShape` | crates/supgang/src/state.rs:336-356 | revoking a new node keeps the list strictly ordered and adds just that node |
| `RevocationGossip.MergeInChain` | crates/supgang/src/state.rs:366-393 | merging two snapshots of one root's run takes the later one, without error |
| `RevocationGossip.GossipConverges` | crates/supgang/src/state.rs:322-393 | snapshots of one root's run merged in any order with any repeats give, without error, the greatest serial and the union of all revoked nodes |
| `MembershipCodec.MembershipCodecExact` | crates/supgang/src/membership.rs:195-239 | bytes decode to a membership if and only if its certificate is well shaped, its signature full and the bytes are its encoding |
| `StateEvents.EventRoundTrip` | crates/supgang/src/state/event.rs:209-308 | every event decodes from its encoding, and only from it |
| `StateReplay.ReplayFrames` | crates/supgang/src/state/event.rs:78-153 | the replay loop computes the replay, with the first error |
| `StateReplay.ReplayAppend` | crates/supgang/src/state/event.rs:155-207 | replaying one more persisted event gives the next state |
| `StateReplay.GenesisExactly` | crates/supgang/src/state/event.rs:78-153 | a journal starts if and only if its first event carries this device's membership and a snapshot, both signed by the root; the state it gives |
| `StateReplay.EventExactly` | crates/supgang/src/state/event.rs:155-207 | each event is taken if and only if it is the next sequence, a signed membership of a new node with the next serial, or a later signed snapshot that forgets nobody; the state it gives |
| `StateReplay.CheckpointExactly` | crates/supgang/src/state/event.rs:110-150 | a checkpoint is taken if and only if it is the first, before any sequence, and signed by this device over the frames before it |
| `StateReplay.ReplayMeans` | crates/supgang/src/state/event.rs:78-207 | of every journal that replays: every member and the snapshot are signed by the root, no event ever revoked a node that is not revoked in the end, only the first event founds, and at most one checkpoint stands, signed over what precedes it |
| `StateReplay.ApplyKeepsReachable` | crates/supgang/src/state/event.rs:155-207 | every event from a reachable state, members issued with consecutive serials, leads to a reachable state |
| `StateReplay.CompactionReplays` | crates/supgang/src/state/compaction.rs:26-53 | replaying the compacted frames gives the same members, revocations, sequence and serials, and passes its own signed checkpoint |
| `StateRuns.NothingIsSafe` | crates/supgang/src/state.rs:409-464 | an empty disk is a safe start of the runs below |
| `StateRuns.StepSafe` | crates/supgang/src/state.rs:119-162 | founding, signing, recording, compacting, failing, crashing and reopening keep every signed sequence covered by what is on disk |
| `StateRuns.NoSequenceIsSignedTwice` | crates/supgang/src/state.rs:145-230 | over every run of any failures, crashes and reopenings, signed sequences strictly increase, so no two records share one |
| `StateRuns.SignedIsCommitted` | crates/supgang/src/state.rs:145-162 | when a record is signed, what is on disk already opens and replays to its sequence |
| `StateRuns.SafeReopens` | crates/supgang/src/state.rs:472-478 | after any crash what opens also replays, or nothing was ever founded and signed; only a cut compaction can be refused, as a rollback, and only a cut first header, as invalid |
| `LocalState.StartIsSafe` | crates/supgang/src/state.rs:472-478 | every journal that opens and replays is a safe start for those runs |
| `LocalState.SortedMembers` | crates/supgang/src/state/compaction.rs:26-53 | the loop lists all other members in serial order, each once |
| `LocalState.CompactFrames` | crates/supgang/src/state/compaction.rs:26-53 | the frames written are those whose replay gives the state back |
| `LocalState.CompletedPublishes` | crates/supgang/src/state.rs:199-229 | of all records exactly one has the draft's candidates and services as sets, in strict order, its name, transport key, times and capabilities, the device's hive and node, and version 3 exactly when something is advertised |
| `LocalState.RevokesExactly` | crates/supgang/src/state.rs:336-356 | the next snapshot has the next serial, the given time and one more node in order; it is ill shaped exactly when 256 are revoked |
| `RootRuns.FounderCounts` | crates/supgang/src/state.rs:409-464 | a founded state has serial 0 and nobody revoked |
| `RootRuns.RootEventCounts` | crates/supgang/src/state.rs:238-357 | every event the root persists keeps the revoked nodes members other than the root, counted by the serial |
| `RootRuns.RevokedBelowMembers` | crates/supgang/src/state.rs:322-357 | then fewer nodes are revoked than there are members, so fewer than 256 |
| `RootRuns.NothingIsRootSafe` | crates/supgang/src/state.rs:409-464 | an empty disk is a start of such runs |
| `RootRuns.RootRunCounts` | crates/supgang/src/state.rs:238-478 | over every run of a root from an empty disk, with any cuts and reopenings, the serial counts the revoked nodes, all are members other than the root, and they are fewer than the at most 256 members |
| `RootRuns.RootMergeIsIdle` | crates/supgang/src/state.rs:366-393 | merging any snapshot of the root's own run into its newest one changes nothing |
| `LocalState.State.Found` | crates/supgang/src/state.rs:409-464 | founding succeeds only on an empty journal with a root; the state is the founder alone, with a root-signed membership from now on for the longest lifetime and an empty signed snapshot; a failed founding, also one whose time is at its end, leaves a disk the run accounts for |
| `LocalState.State.Open` | crates/supgang/src/state.rs:472-478 | opening succeeds exactly with a journal that opens and replays, and holds its state; from a disk a safe run left it is the run's next step, and on the root the revoked nodes still count |
| `LocalState.State.Compact` | crates/supgang/src/state/compaction.rs:16-24 | the state is unchanged; on failure the handle is gone and the disk still recovers every sequence |
| `LocalState.State.AppendAuthoritative` | crates/supgang/src/state.rs:119-143 | success makes the event the journal's last; after any failure, the length query included, the handle is gone, so no later change succeeds, and the disk recovers to before or after |
| `LocalState.State.ReserveNextSequence` | crates/supgang/src/state.rs:145-162 | the sequence returned is one more than before and already recoverable from disk |
| `LocalState.State.SignEndpointRecord` | crates/supgang/src/state.rs:172-230 | a signed record has exactly the draft's candidates and services in strict order, its other fields, and the fresh, already durable sequence, with the device's signature over it, within membership lifetime and roles; a refusal spends no sequence and each has its exact reason: no member, time, role, shape, an exhausted counter, or the journal |
| `LocalState.State.IssueMembership` | crates/supgang/src/state.rs:238-280 | an issued membership is signed by the root, is exactly the arguments under the next serial, and is of a node neither known nor revoked; on error members and serial are unchanged and each error has its exact reason |
| `LocalState.State.AuthorizeJoinRequest` | crates/supgang/src/state.rs:289-311 | repeating a request returns the same membership and changes nothing; a different key or nonce for that node is refused; a new one is issued with exactly the arguments, and each error has its exact reason |
| `LocalState.State.Revoke` | crates/supgang/src/state.rs:322-357 | one more node is revoked at the given time under the next serial, signed by the root, or nothing changes when it already was; each error has its exact reason; on a root, where revoked nodes count, no serial or size limit is ever hit |
| `LocalState.State.MergeRevocations` | crates/supgang/src/state.rs:366-401 | the snapshot taken, the answer and the error are those of the merge, unless the journal fails |
| `SessionWire.ReadsFields` | crates/supgang/src/session.rs:548-580 | typed reads get back every list of fields that was written, whatever follows |
| `SessionWire.MessageInjective` | crates/supgang/src/session.rs:582-594 | two different field lists never have the same bytes |
| `SessionMessages.ClientHelloExact` | crates/supgang/src/session.rs:342-374 | bytes decode to a client hello if and only if they are its encoding |
| `SessionMessages.ServerHelloExact` | crates/supgang/src/session.rs:392-448 | the same for a server hello, with a reportable observed address |
| `SessionMessages.ClientProofExact` | crates/supgang/src/session.rs:450-495 | the same for a client proof |
| `SessionMessages.ServerAckExact` | crates/supgang/src/session.rs:497-515 | the same for the acknowledgement |
| `SessionMessages.TranscriptExists` | crates/supgang/src/session.rs:517-537 | the frame budget never prevents a transcript of two encodable contacts |
| `SessionMessages.TranscriptInjective` | crates/supgang/src/session.rs:517-537 | equal transcripts name the same contacts, nonces, channel binding and observed address |
| `SessionMessages.HelloTranscriptInjective` | crates/supgang/src/session.rs:376-390 | equal hello transcripts name the same contact, nonce and channel binding |
| `SessionMessages.ExtendedInjective` | crates/supgang/src/session.rs:539-546 | equal extended transcripts have the same base and server address |
| `SessionMessages.DomainSeparation` | crates/supgang/src/identity.rs:188-198 | equal signed bytes have one zero-terminated domain and one message |
| `Session.CheckServerExactly` | crates/supgang/src/session.rs:127-170 | an outbound call takes a server hello if and only if the contact is accepted, unrevoked and the dialled one, the nonce is its own, and the proof over the transcript and the claim about the observed address verify |
| `Session.CheckClientExactly` | crates/supgang/src/session.rs:226-245 | an inbound call takes a client hello if and only if the contact is accepted and unrevoked and its device key signed the hello for this nonce and channel; the error otherwise |
| `SessionRuns.HearServerSound` | crates/supgang/src/session.rs:127-170 | whatever frame an outbound call gets, what it signs is over a hello that it decoded and that passes every check, and it only moves forward |
| `SessionRuns.HearClientSound` | crates/supgang/src/session.rs:226-262 | the same for an inbound call, under its own nonce; what passing the checks means `Session.CheckClientExactly` says outright |
| `Session.ProofsDiffer` | crates/supgang/src/session.rs:32-34 | a hello, server or client proof never stands for another |
| `Session.ClientBytesInjective` | crates/supgang/src/session.rs:539-546 | one client proof fits one handshake and one reported server address on both sides |
| `SessionRuns.ReceiveSound` | crates/supgang/src/session.rs:98-310 | every delivered frame moves a call only forward, and all it signs is about what it has accepted |
| `SessionRuns.ReceiveAgrees` | crates/supgang/src/session.rs:98-310 | a call that accepts an unforged proof of an honest device has that device's matching call |
| `SessionRuns.StepKeepsInv` | crates/supgang/src/session.rs:98-310 | dialling, listening, delivering any bytes anywhere and signing in other domains keep agreement and fresh nonces |
| `SessionRuns.OutboundAgreement` | crates/supgang/src/session.rs:98-196 | over all interleavings, an outbound call that returns an honest peer has exactly one inbound call of that device with the same contacts, nonces, channel and observed address; the peer is authorized, unrevoked, has the dialled node and transport key, and vouches for the observed address |
| `SessionRuns.InboundAgreement` | crates/supgang/src/session.rs:207-310 | an inbound call that returns an honest peer has exactly one outbound call of that device that had accepted the same handshake and dialled the reported address; the peer is authorized, unrevoked and vouches for that address |
| `SessionRuns.HelloAgreement` | crates/supgang/src/session.rs:207-262 | over all interleavings, an inbound call that signed anything heard a hello of an authorized, unrevoked device whose proof verifies for this channel; if that device is honest, exactly one of its outbound calls sent that contact and nonce on that channel |
| `SessionRuns.AnswersOnce` | crates/supgang/src/session.rs:98-196 | one answer never serves two outbound calls |
| `SessionCompletes.StartsExactly` | crates/supgang/src/session.rs:107-126 | a call goes out if and only if the device is authorized and unrevoked by a valid snapshot, the peer was authorized once and is unrevoked, and the contact can be written; the frame budget never prevents it |
| `SessionCompletes.FinishesExactly` | crates/supgang/src/session.rs:183-195 | a call ends well on exactly one frame, the acknowledgement of its own nonce |
| `SessionCompletes.UndisturbedHandshake` | crates/supgang/src/session.rs:98-310 | two mutually authorized devices with every frame delivered authenticate each other if and only if both observed addresses may be reported, and each learns the other's contact and its own observed address |
| `EditDistance.NoCheaperScript` | crates/supgang/src/cli_peer.rs:476-504 | no script of insertions, deletions and substitutions costs less than the recursive distance |
| `EditDistance.CheapestScript` | crates/supgang/src/cli_peer.rs:476-504 | some script costs exactly that |
| `EditDistance.LengthBounds` | crates/supgang/src/cli_peer.rs:477-479 | the distance is at least the difference of the lengths and at most the longer one, so nothing saturates |
| `EditDistance.RowsStayAbove` | crates/supgang/src/cli_peer.rs:497-499 | once a row is above the limit every later row is |
| `EditDistance.FillRow` | crates/supgang/src/cli_peer.rs:482-496 | one pass turns a row of prefix distances into the next and returns its least entry |
| `EditDistance.BoundedEditDistance` | crates/supgang/src/cli_peer.rs:476-504 | the result is the distance exactly when it is within the limit, and nothing otherwise, with both early exits and the row swap |
| `EditDistance.FuzzyTextScore` | crates/supgang/src/cli_peer.rs:448-474 | a text scores exactly when it starts with, contains, or is near the query, with the exact score of each reason from length, first position and distance; every near miss scores below every text that contains or starts with the query |
| `GateCache.AddClosure` | crates/supgang-quality/src/gate_cache.rs:203-216 | ends on every graph; adds only reachable directories, and all dependencies of what it adds; an error names a reachable unknown package |
| `GateCache.Closure` | crates/supgang-quality/src/gate_cache.rs:185-188 | from nothing, the directories are exactly those of reachable packages; it fails if and only if a reachable name is unknown |
| `GateCache.ClosureUnique` | crates/supgang-quality/src/gate_cache.rs:203-216 | there is one such set |
| `GateCache.CommonExactly` | crates/supgang-quality/src/gate_cache.rs:185-201 | a file is in every key exactly when it is outside the crates or in the quality crate |
| `GateCache.PackageKey` | crates/supgang-quality/src/gate_cache.rs:185-201 | the loop hashes exactly the context, stage, name and the selected files of the exact closure |
| `GateCache.KeyBytesInjective` | crates/supgang-quality/src/gate_cache.rs:263-266 | the hashed bytes determine context, stage, name and every path and digest |
| `GateCache.BytesChangeExactly` | crates/supgang-quality/src/gate_cache.rs:185-201 | for one set of directories two inventories feed the same bytes if and only if they agree on every selected file |
| `GateCache.KeyChangesExactly` | crates/supgang-quality/src/gate_cache.rs:185-201 | under a hash without collisions the keys returned for two inventories are equal if and only if these agree on every common file and every file of a reachable package |
| `Authority.ValidExactly` | crates/supgang/src/authority.rs:594-619 | validation accepts exactly bounded, strictly sorted, disjoint live and revoked sets of possessed keys of this epoch |
| `Authority.ManifestExactly` | crates/supgang/src/authority.rs:577-619 | a manifest verifies if and only if its content is valid, small enough and signed by the device key, and every certificate is of this hive and issued by that device |
| `Authority.BuildContent` | crates/supgang/src/authority/update.rs:33-108 | the pushing, sorting and retaining loops compute the proposal, with the first error |
| `Authority.ProposalExactly` | crates/supgang/src/authority/update.rs:43-108 | revoked is old and new, live is what is kept and added; nothing added was known; times and services are those asked for; the epoch moves by one exactly when asked and then starts with nothing revoked |
| `Authority.ProposalSucceedsExactly` | crates/supgang/src/authority/update.rs:43-108 | an update is accepted if and only if its keys are new, distinct and issued here, and counts, times and size are in bounds |
| `AuthorityStore.ReserveGuarantees` | crates/supgang/src/authority/revision_store.rs:159-210 | a reservation only sets the revision, which moves forward; every live key was retained or has an identifier never used; all identifiers are remembered |
| `AuthorityStore.ReserveExactly` | crates/supgang/src/authority/revision_store.rs:159-210 | a reservation is granted if and only if it follows the verified current manifest, keeps its revocations, moves at most one epoch, never back in time, uses only new identifiers for new keys, and fits identifiers and revisions |
| `AuthorityStore.CommitExactly` | crates/supgang/src/authority/revision_store.rs:212-225 | a manifest is committed if and only if it verifies and its content is the one reserved |
| `AuthorityStore.Store.Open` | crates/supgang/src/authority/revision_store.rs:74-121 | a reservation left behind is dropped and everything else kept |
| `AuthorityStore.Store.Persist` | crates/supgang/src/authority/revision_store.rs:129-155 | success means file and memory are the new state; failure poisons the handle over the old or the new file |
| `AuthorityStore.Store.Apply` | crates/supgang/src/authority/update.rs:33-118 | what is returned is committed; a failure leaves nothing, a burned reservation, or the commit; without failures an acceptable update goes through |
| `AuthorityRuns.StepKeeps` | crates/supgang/src/authority/revision_store.rs:129-225 | updates with any failures, and reopenings, keep order, memory and the finality of revocation |
| `AuthorityRuns.NothingIsReused` | crates/supgang/src/authority/revision_store.rs:23-44 | over the whole life of a store no two signed contents share a revision and no identifier ever names two keys |
| `AuthorityRuns.RevokedForLife` | crates/supgang/src/authority.rs:507-514 | a committed revocation is never live again in any epoch; within an epoch revocations only grow; epochs advance by one and start empty |
| `DialOrder.PreferredLocal` | crates/supgang/src/network.rs:155-160 | the first local candidate on an attached prefix, if any |
| `DialOrder.CandidateDialOrder` | crates/supgang/src/network.rs:151-182 | a permutation of all positions, strictly ordered by route, rank and position, where the preferred candidate is the first local one on an attached prefix |
| `DialOrder.RoutesFirst` | crates/supgang/src/network.rs:151-182 | every candidate with a route precedes every one without |
| `DialOrder.DialledBefore` | crates/supgang/src/network.rs:151-182 | of two candidates alike in route the earlier is the preferred one, or of a sooner kind, relay, mapped, reflexive, direct and local in this order, or of the same kind and listed earlier |
| `DialOrder.HasRouteExactly` | crates/supgang/src/network.rs:191-214 | a candidate has a route if and only if the kernel has one and some interface contains it, when it is loopback or link local, or else is routable in its family |
| `DialOrder.RoutedRemoteIsEarly` | crates/supgang/src/network.rs:10-10 | if any candidate that is not local has a route, one is in the first two places, inside the four-attempt round |
| `DialOrder.PreferredIsFirst` | crates/supgang/src/network.rs:151-182 | a routed preferred local candidate comes first |

## Left out

- Service event loop, sync exchange, introductions, relays and the command line: asynchronous plumbing around what is modelled.
- Transport setup: QUIC and TLS are a channel with an exporter value; stream and frame-length errors are not modelled.
- Real cryptography: signatures, hashes and key decoding are arbitrary functions, so forging and collisions are excluded by the statements, not proved impossible.
- Endpoint record wire bytes: contacts are encoded by an arbitrary canonical codec of bounded, non-empty bytes, in the handshake and in the peer journal.
- Reachability claims: only subject, reporter and address are modelled; claim tables and remembered routes are a parameter of the dial hints.
- Which error comes first inside a malformed CBOR item: the decoders refuse the same bytes, with the decoding errors merged.
- IPv6 flow and scope fields: an address is its number and port.
- Selector matching over rows and its sorting: lookups around the modelled score.
- Joining: creating requests and installing bundles are left out; founding, opening and running are modelled.
- Key files and locks: founding and opening start from loaded identities and a held lock.
- Threshold signing, status policies, updates and the certificate scope checks: separate features.
- GateCache.AddClosure: requires packages to have distinct directories, which a Cargo workspace guarantees; for two packages in one directory the second is not entered.
- GateCache.Closure: the same.
- GateCache.PackageKey: the same.
- Remembered routes: opening the peer directory does not open the route history file.
- Session runs are values: a call is a state that moves with each frame, so its buffers and nonce clearing are not modelled.
- AuthorityStore.Store: the sorted list of used identifiers is a set, and the state file's bytes are not modelled.
