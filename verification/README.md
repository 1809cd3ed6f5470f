# Pollis: a verified model

Pollis is an end-to-end encrypted messenger. This project models the parts of it that have to be
right for the rest to mean anything, and proves what they promise, for every input and every run:

- **The transparency log** (`Merkle`, `TransparencyLog`, `KeyDirectory`). The RFC 6962 tree, its
  inclusion and consistency proofs, the two bit-shifting verifiers, and the append-only log with
  per-tenant rules. Both verifiers are complete and sound for trees of every size; a monitor that
  checks a chain of heads can never be shown two histories. Soundness is stated relative to the
  strings that were actually hashed: it fails only if two of them collide.
- **The commit control plane** (`CommitLog`, `CommitProtocol`, `CommitRuns`). The Delivery Service's
  conditional append, its retention pruning, and the whole protocol around it as a state machine:
  staging, late and repeated submissions, lost answers, settlement, replay, Welcomes, external
  joins, sends, restarts, reports by anybody and pruning, interleaved in any order.
- **Accounts and devices** (`SignedPayloads`, `GroupHandoff`, `Accounts`, `DeviceTrust`). The
  account-key log with its compare-and-swap rotation, device rows and certificates, revocation,
  and the group handoff that reset and deletion run. A transaction works on a copy of the tables.
  The model takes a flag for whether foreign keys are enforced; every result holds either way.
- **Message delivery** (`Watermark`, `Delivery`). The cursor a catch-up pass may advance to, and passes,
  arrivals and moves of the group interleaved in any order: which messages can still be read.
- **The per-conversation lock** (`GroupLocks`), **the capture wire protocol** (`CaptureWire`), **the
  camera conversion** (`Camera`), **byte ranges** (`ByteRange`) and **the learn page's Merkle walk**
  (`LearnPage`).

`Common` and `Encoding` hold the shared vocabulary: bytes, fixed-width integers, decimal and hex.

Objects that the program updates in place are classes whose methods are proved against
specification functions; the theorems are about those functions. Hash functions, Ed25519, JSON,
UTF-8 decoding and the clock are parameters.

## Where the code and its documentation differ

- The lock in `pollis-core/src/state.rs` is documented as covering every change to a group's local
  state. Sending a message does not take it, and merges whatever commit is pending
  (`group_state.rs:562-597`, `send.rs:123-146`). `StepKeepsInv` gives the exact condition under
  which such a send is harmless, `QuietRunsNeverFork` a condition on the schedule alone, and
  `SendInsideSubmissionForks` shows that without it two devices fork.
- An external join is written to the local store before it is submitted (`group_state.rs:380-472`),
  so that for a while a device stores a group nobody else may ever hold. `StoredGroupsAgree` says
  exactly when two stored groups agree; `SendInsideJoinForks` reaches two different ones at one
  epoch without a restart or a send, and shows that a send in that window is encrypted under a
  history that is not the log's.
- `commit.rs` promises that the head never moves back. Pruning keeps that promise exactly when its
  floor is below the head (`PruneKeepsInv`), that is, when some device of the roster has not reported
  an epoch eight or more past the head (`PruneKeepsHead`, `PlannedFloor`). Reports are neither signed
  nor checked against the head when they arrive, so one report can empty the log
  (`OverstatedReportResetsHead`) and let one epoch be won twice, by two different commits
  (`OverstatedReportForks`). Reports up to the head always satisfy the condition (`FloorWithin`).
- `group_state.rs:1241-1249` clears a pending commit as safe even if it had landed, because a future
  pass would adopt it again from the log. It never does: without the pending commit replay stays
  behind the device's own row for good (`ReplayNeverPasses`), and `CatchUpIsExact` says when replay
  alone reaches the head.
- `ingest.rs:75-88` promises that a current member reads every message. Envelopes are fetched before
  the replay, so one that arrives in between is at risk in two ways: the pass may move the cursor past
  it (`LostBetweenFetchAndFinish`), or move the group past its epoch, whose keys are then gone
  (`LeftBehindByReplay`; the next pass counts it as handled). `ArrivesAheadIsExact` says exactly which
  arrivals the passes under way can make missed, `MissedForGood` that this is final, `NoLostMessage`
  that every other message can still be read, and `StepKeepsAhead` exactly which steps put a message
  at risk: besides arrivals, a commit of the device's own or a rejoin over unread messages, and a
  replay whose hook fires for an epoch the group did not reach. That last case is a row of the
  device's own without its pending commit (`group_state.rs:1170-1185`, `group_state.rs:1223-1237`);
  `LostAtOwnRow` loses a message there with a single pass and no other activity.
- The account endpoints promise to touch the signed-in user's rows only (`account.rs:27-34`), and
  registration is bound to the session's user (`bootstrap.rs:222-225`). Registering a device id that is
  on file for somebody else nevertheless updates its last-seen time, which its owner is shown
  (`pollis-core/src/commands/auth.rs:1258-1275`), and fills in its name if it has none
  (`bootstrap.rs:234-238`).
  `StepIsSelfScoped` shows that this is the only way these endpoints change another user's rows,
  seats aside: a handoff may promote another member (`SeatAfterHandoff`). `StepKeepsApart` says that
  keys, certificates and revocations are out of reach.
- Re-signing device certificates stores them unchecked (`devices.rs:415-443`), so a stored
  certificate need not verify; `StepKeepsCerts` says exactly when it does. The signing key itself
  stays vouched for in every run (`AuthenticatedIsVouched`).
- `read_msg` is documented to return nothing at a clean end of stream. It does so for a stream cut
  inside a header as well; `CutStream` follows the code.
- `next_watermark` moves back under extension when send times tie (`TieMovesBack`);
  `MonotoneUnderExtension` gives the exact condition.

## Model

| member | source | states |
|---|---|---|
| Merkle.LargestPowerOfTwoBelow | verifiable-log/src/merkle.rs:18-25 | the doubling loop finds the unique power of two k with k < n <= 2k |
| Merkle.VerifyInclusion | verifiable-log/src/merkle.rs:99-131 | the bit-shifting loop accepts exactly when the level-by-level climb ends at the claimed root |
| Merkle.VerifyConsistency | verifiable-log/src/merkle.rs:136-193 | the loop accepts exactly when the double climb ends at both claimed roots, the trivial sizes included |
| Merkle.LevelRootIsRoot | verifiable-log/src/merkle.rs:33-42 | combining a list level by level gives the root of the recursive split tree |
| Merkle.PathByLevel | verifiable-log/src/merkle.rs:49-64 | the recursive inclusion path is the sibling on each level, from the leaf up |
| Merkle.SuppliedIsLevelProof | verifiable-log/src/merkle.rs:69-94 | the recursive consistency proof, with the older root put back, is the largest complete subtree ending the older tree and its inclusion path |
| Merkle.InclusionComplete | verifiable-log/src/merkle.rs:49-131 | the path generated for any leaf of any tree is accepted against that tree's root |
| Merkle.InclusionSound | verifiable-log/src/merkle.rs:99-131 | barring a collision among the pairs combined, an accepted proof is for the tree's own leaf and is the tree's own path |
| Merkle.ConsistencyComplete | verifiable-log/src/merkle.rs:69-193 | the proof generated for any prefix of any tree is accepted against both roots |
| Merkle.ConsistencySound | verifiable-log/src/merkle.rs:136-193 | against a tree's root the only older root accepted for a size is the root of that prefix, and the only proof is the tree's own |
| Merkle.RootInjective | verifiable-log/src/merkle.rs:33-42 | one root has one list of leaves of a given length, barring a collision |
| Merkle.AppendOnly | verifiable-log/src/merkle.rs:136-193 | an accepted consistency proof between two trees means the older leaves are the first leaves of the newer tree |
| TransparencyLog.EncodeInjective | verifiable-log/src/log.rs:55-62 | two entries whose tenants are shorter than 2^32 bytes never encode alike |
| TransparencyLog.UnambiguousIsShort | verifiable-log/src/log.rs:55-62 | no other entry at all encodes like this one exactly when its tenant and its data are both shorter than 2^32 bytes |
| TransparencyLog.EncodeAmbiguous | verifiable-log/src/log.rs:55-62 | at 2^32 bytes the 32-bit cast makes two different entries encode alike |
| TransparencyLog.LeafLayout | verifiable-log/src/log.rs:55-67 | what is hashed for an entry, byte by byte: zero, the tenant's length most significant byte first, the tenant, the data |
| TransparencyLog.RootOfParts | verifiable-log/src/hash.rs:17-45 | the tree hash of section 2.1 of RFC 6962 at every size, with its prefix bytes and its empty case |
| TransparencyLog.OfTenantIsExact | verifiable-log/src/log.rs:128-141 | a tenant's entries are the log's at rising positions, and those are all the tenant's positions |
| TransparencyLog.VerifiableLog.TenantEntries | verifiable-log/src/log.rs:128-141 | collects exactly one tenant's entries, in order |
| TransparencyLog.VerifiableLog.Append | verifiable-log/src/log.rs:128-141 | appends one leaf exactly when the tenant's rule admits the entry, otherwise changes nothing; every entry stays admitted |
| TransparencyLog.VerifiableLog.Root | verifiable-log/src/log.rs:153-155 | the root of all entries, the empty digest for none |
| TransparencyLog.VerifiableLog.RootAt | verifiable-log/src/log.rs:159-167 | the root the log had at any earlier size, refused past the end |
| TransparencyLog.VerifiableLog.ProveInclusion | verifiable-log/src/log.rs:180-193 | a proof for every index in range, and the verifier accepts it |
| TransparencyLog.VerifiableLog.ProveConsistency | verifiable-log/src/log.rs:197-207 | a proof exactly for 0 < first <= second <= size, and the verifier accepts it against both historical roots |
| TransparencyLog.VerifyInclusionProof | verifiable-log/src/proof.rs:44-63 | accepts exactly when the sizes agree and the climb ends at the head's root |
| TransparencyLog.VerifyConsistencyProof | verifiable-log/src/proof.rs:68-91 | accepts exactly when both sizes agree and the double climb ends at both heads' roots |
| TransparencyLog.InclusionBinds | verifiable-log/src/proof.rs:44-63 | an accepted inclusion proof shows the entry the log really holds there |
| TransparencyLog.ConsistencyBinds | verifiable-log/src/proof.rs:68-91 | an accepted consistency proof means nothing already published was rewritten |
| TransparencyLog.RootCommits | verifiable-log/src/hash.rs:24-45 | two logs of any sizes with one root are the same log: the leaf and node prefixes keep a leaf from passing for a node |
| TransparencyLog.LeafIsNotNode | verifiable-log/src/hash.rs:24-45 | no entry's leaf hash is an inner node's hash, barring a collision |
| TransparencyLog.ChainBinds | verifiable-log/src/proof.rs:68-91 | every head of a checked chain of any length is the head of a prefix of the last log |
| TransparencyLog.NoSplitView | verifiable-log/src/sth.rs:116-121 | two heads of one size that are both consistent with a common later head have one root |
| KeyDirectory.Check | verifiable-log-builder/src/account_key.rs:103-135 | admits a leaf exactly when it parses, every earlier leaf parses, and no earlier version of the same user is as great |
| KeyDirectory.BuilderAdmitsExactly | verifiable-log-builder/src/account_key.rs:78-135 | every row of a key log is admitted exactly when every user's versions strictly rise |
| KeyDirectory.BuilderNeverRefuses | verifiable-log-builder/src/account_key.rs:78-135 | the rule admits every row of a key log numbered as the migration and the endpoints number it |
| KeyDirectory.DirectoryIsConsistent | pollis-delivery/src/account.rs:44-53 | over every run of the account endpoints the published directory admits every row, and any two of its heads are joined by a proof that verifies |
| CommitLog.DeliveryService.Head | pollis-delivery/src/commit.rs:106-143 | one past the greatest stored epoch, zero for an empty log |
| CommitLog.DeliveryService.FetchCommits | pollis-delivery/src/commit.rs:146-168 | exactly the rows from an epoch on, each once, in epoch order |
| CommitLog.DeliveryService.SubmitCommit | pollis-delivery/src/commit.rs:179-288 | accepted exactly when built on the head, and then the row is the submission's, the GroupInfo on file is its own unless one at least as new was there, the last Welcome for each recipient is filed for delivery, and nothing else changes; otherwise nothing changes and the answer carries the true head and the missing rows |
| CommitLog.WonIsExact | pollis-delivery/src/commit.rs:237-281 | the same of the specification: what an accepted submission leaves, field by field, frames included |
| CommitLog.DeliveryService.RecordCommitSince | pollis-delivery/src/commit.rs:363-385 | what is on file becomes the greater of the old report and the new one, and no other device's changes |
| CommitLog.DeliveryService.UpsertGroupInfo | pollis-delivery/src/writes.rs:312-338 | the stored epoch is the greatest ever published, with the blob that came with it first |
| CommitLog.DeliveryService.SlowestReport | pollis-delivery/src/commit.rs:478-492 | the loop computes the least report of the roster and whether everyone reported |
| CommitLog.DeliveryService.PruneCommitLog | pollis-delivery/src/commit.rs:438-497 | deletes exactly the outdated rows and counts them: more than 512 below the head, or more than eight below every report when the whole roster reported |
| CommitLog.MinReportedIsLeast | pollis-delivery/src/commit.rs:483-491 | the value is attained by a device of the roster and is a lower bound for all that reported; absent exactly when none did |
| CommitLog.DeliveredIsLatest | pollis-delivery/src/commit.rs:259-281 | a recipient's row is the newest Welcome sent to it, armed again, or the row it had |
| CommitLog.PruneFloorSafe | pollis-delivery/src/commit.rs:347-356 | the floor passes the slowest report only if the length cap does, is the cap alone while someone has not reported, and never falls as head or reports rise |
| CommitLog.FloorIsExact | pollis-delivery/src/commit.rs:316-356 | an epoch is below the floor exactly when it is outdated, slack and cap to the epoch |
| CommitLog.PruneIsExact | pollis-delivery/src/commit.rs:469-497 | a prune keeps exactly the rows that are not outdated, unchanged |
| CommitLog.FloorBelowHead | pollis-delivery/src/commit.rs:347-356 | the floor is below the head exactly when the roster is empty or some device has not reported eight or more past it, also for a head read earlier |
| CommitLog.PruneKeepsHead | pollis-delivery/src/commit.rs:438-497 | a prune leaves the head alone exactly when the log or roster is empty or some device has not reported eight or more past the head |
| CommitLog.OverstatedReportResetsHead | pollis-delivery/src/lib.rs:427-458 | one overstated report empties a one-row log and the head falls to zero |
| CommitProtocol.NextRowIsFirstFetched | pollis-core/src/commands/mls/group_state.rs:942-955 | the row the replay loop looks at is the first one the catch-up read returns |
| CommitProtocol.SettleIsExact | pollis-core/src/commands/mls/invariants.rs:140-154 | a staged commit is adopted exactly when it landed and that can be told: confirmed, or its row readable and not pruned |
| CommitProtocol.SettleLeaves | pollis-core/src/commands/mls/reconcile.rs:749-838 | what a device holds after settling, for every outcome: the history with its commit if that landed and it can tell, else the history it was built on, or no group if it was joining; nothing else in the system changes |
| CommitProtocol.SettleWithoutStaged | pollis-core/src/commands/mls/reconcile.rs:749-838 | a device whose staged commit or group is gone by then keeps what it has, unless it was joining and cannot tell that it won |
| CommitProtocol.SettleKeepsInv | pollis-core/src/commands/mls/reconcile.rs:749-838 | settling under any outcome keeps every history a prefix of the log |
| CommitProtocol.DeliverKeepsInv | pollis-delivery/src/commit.rs:179-288 | delivering any request ever sent, late or twice, keeps the invariant |
| CommitProtocol.AnswersAreGiven | pollis-delivery/src/commit.rs:179-288 | a submission on the head is accepted and can be reported so, any other is refused, changes nothing and can be reported lost |
| CommitProtocol.ReplayKeepsInv | pollis-core/src/commands/mls/group_state.rs:1008-1223 | a turn of replay keeps the invariant exactly unless it merges a pending commit that is not the device's own row in the log |
| CommitProtocol.ReplayLeaves | pollis-core/src/commands/mls/group_state.rs:1008-1223 | what a device holds after a turn of replay in every case: it waits at the head, drops a group behind the retained rows, and otherwise moves by the row at its epoch, its own pending commit, or not at all |
| CommitProtocol.MergeKeepsInv | pollis-core/src/commands/mls/group_state.rs:562-597 | merging the pending commit unasked keeps the invariant exactly when that commit has landed |
| CommitProtocol.SendKeepsInv | pollis-core/src/commands/messages/send.rs:116-147 | a send keeps the invariant exactly when the history it encrypts under has landed |
| CommitProtocol.CrashKeepsInv | pollis-core/src/commands/mls/group_state.rs:380-472 | a restart keeps the invariant exactly unless it strands an external join whose commit did not land |
| CommitProtocol.CrashLeaves | pollis-core/src/commands/mls/group_state.rs:380-472 | a restart forgets the open submission and nothing else; a written join counts as the group |
| CommitProtocol.ReplacedLeaves | pollis-core/src/commands/mls/welcomes.rs:26-74 | a Welcome replaces the group by the history it was made for |
| CommitProtocol.RejoinIsExact | pollis-core/src/commands/mls/group_state.rs:227-488 | a join can be opened exactly by an idle, registered member with a GroupInfo to join by |
| CommitProtocol.PublishArrives | pollis-delivery/src/writes.rs:309-338 | a history published and delivered is the stored GroupInfo unless one as new is there |
| CommitProtocol.ReportArrives | pollis-core/src/commands/mls/group_state.rs:1321-1349 | a report sent and delivered is on file unless a greater one is, and no other device's changes |
| CommitProtocol.PruneKeepsInv | pollis-delivery/src/commit.rs:469-497 | whatever was read before, a deletion keeps the invariant exactly when its floor is below the head by then, and then the head stays |
| CommitProtocol.PlannedFloor | pollis-delivery/src/commit.rs:469-497 | the floor computed from an old head, an old roster and the reports is below the head exactly when some device of that roster holds it back |
| CommitProtocol.PlannedRows | pollis-delivery/src/commit.rs:469-497 | a prune plans to take exactly the rows outdated by what it read |
| CommitProtocol.PruneReadsRoster | pollis-delivery/src/commit.rs:469-476 | the roster it reads is the registered members at that moment |
| CommitProtocol.PruneEnds | pollis-delivery/src/commit.rs:494-497 | it then deletes exactly the rows below its floor and is over |
| CommitProtocol.FloorWithin | pollis-delivery/src/commit.rs:469-497 | with no report past the head it always is |
| CommitProtocol.StepKeepsInv | pollis-core/src/commands/mls/reconcile.rs:749-838 | every step of the protocol keeps the whole invariant exactly when it relies on no unlanded commit and prunes no head away |
| CommitRuns.ForkFreedom | pollis-core/src/state.rs:120-131 | in every run without such a step, every settled group and every message's history is a prefix of the one log, any two of them agree, and the head is the number of commits ever accepted |
| CommitRuns.StoredGroupsAgree | pollis-core/src/commands/mls/group_state.rs:380-472 | two stored groups, open joins included, agree exactly when both landed, or the landed one is shorter, or neither landed and they are equal |
| CommitRuns.LogAppendOnly | pollis-delivery/src/commit.rs:170-178 | over every run the log only grows and an acceptance is never withdrawn |
| CommitRuns.PublishedAtHead | pollis-delivery/src/commit.rs:237-258 | a publishing commit accepted at the head leaves the GroupInfo at the new head, and every join opened then is built on the whole log |
| CommitRuns.GroupInfoMonotone | pollis-delivery/src/writes.rs:309-338 | the stored GroupInfo never goes back, its epoch is its history's, and that history is a prefix of the log |
| CommitRuns.OneWinnerPerEpoch | pollis-delivery/src/commit.rs:116-127 | two accepted requests for one epoch, however far apart, are the same commit on the same history |
| CommitRuns.AnswersAreTrue | pollis-delivery/src/commit.rs:179-288 | in every run a device is told that it lost only when its epoch was won, and that it won only when its commit landed |
| CommitRuns.LoserCatchesUp | pollis-core/src/commands/mls/reconcile.rs:749-838 | the loser of a race, once settled, reaches the winner's head by replay alone, one step per row, if the rows it misses are retained and others' |
| CommitRuns.QuietKeepsPendingOpen | pollis-core/src/state.rs:240-246 | without restarts, sends or new stagings inside an open submission only a device with an open submission has a pending commit |
| CommitRuns.QuietNeverDiverges | pollis-core/src/state.rs:240-246 | with pending commits only inside open submissions and reports up to the head, no restart, merge, send or prune of a quiet schedule diverges |
| CommitRuns.QuietRunsNeverFork | pollis-core/src/state.rs:120-131 | a run in which no device restarts, sends or stages anew inside its own open submission, and no report passes the head, never has two different histories in use |
| CommitRuns.SendInsideSubmissionForks | pollis-core/src/commands/messages/send.rs:116-147 | from any state with two idle devices at the head, a send inside the first one's open submission leads to one epoch with two histories |
| CommitRuns.SendInsideJoinForks | pollis-core/src/commands/mls/group_state.rs:380-472 | from any state with a device at the head and the GroupInfo published there, quiet steps alone reach two different stored groups at one epoch, with nothing in use forked; a send then puts both in use |
| CommitRuns.OverstatedReportForks | pollis-delivery/src/lib.rs:427-458 | one overstated report and a prune let a second, different commit win the first epoch, so that the stored row is not the one accepted first |
| CommitRuns.FloorSpares | pollis-delivery/src/commit.rs:347-356 | the floor passes no device of the roster that is within the cap and has not reported past its epoch, whether or not others report |
| CommitRuns.StepKeepsCovered | pollis-delivery/src/commit.rs:469-497 | a device stays covered over every step, prunes with stale reads included, if it is within the cap when the head is read and in the roster when that is read |
| CommitRuns.CoveredNeverGaps | pollis-core/src/commands/mls/invariants.rs:190-200 | such a device applies the row at its own epoch or is at the head, and never recovers from a gap |
| CommitRuns.RetentionSafety | pollis-delivery/src/commit.rs:290-315 | the same over every run: the row such a device needs is always there |
| CommitRuns.StepKeepsHonest | pollis-core/src/commands/mls/group_state.rs:1321-1349 | unless somebody else files it, a report on file was sent by its device, and none was sent past an accepted join still open |
| CommitRuns.RunKeepsHonest | pollis-core/src/commands/mls/group_state.rs:1321-1349 | the same in every run without reports for somebody else |
| CommitRuns.JoinIsCovered | pollis-core/src/commands/mls/group_state.rs:227-488 | in every such run a device that rejoins by an external commit is covered as soon as the join is settled, exactly unless a prune, done or under way, has passed it |
| CommitRuns.WelcomeFiled | pollis-delivery/src/commit.rs:259-281 | when a Welcome is filed the rows from its epoch on are there and no prune under way will take them, unless one read the roster before |
| CommitRuns.WelcomeIsCovered | pollis-core/src/commands/mls/welcomes.rs:26-74 | over every run such a device is covered whenever it applies its Welcome, if prunes in between found the Welcome within the cap and the device in the roster |
| CommitRuns.CatchUp | pollis-core/src/commands/mls/group_state.rs:867-1319 | a device whose missing rows are retained and are others', or the commit it has pending, reaches the head in one replay step per row |
| CommitRuns.CatchUpIsExact | pollis-core/src/commands/mls/group_state.rs:867-1319 | some replay-only run reaches the head exactly then |
| CommitRuns.ReplayNeverPasses | pollis-core/src/commands/mls/group_state.rs:1163-1249 | no replay-only run of any length gets past a pruned row or an own row that is no longer pending |
| CommitRuns.OwnRowStalls | pollis-core/src/commands/mls/group_state.rs:1163-1185 | one turn of replay at such a row leaves the group as it is or drops it |
| SignedPayloads.CertPayloadInjective | pollis-delivery/src/cert.rs:27-47 | one signed payload vouches for one device id, key, version and issue time |
| SignedPayloads.CertPayloadLayout | pollis-delivery/src/cert.rs:19-47 | the offset and contents of every field of the payload |
| SignedPayloads.CertPayloadExists | pollis-delivery/src/cert.rs:27-47 | there is a payload exactly when device id and key each fit a one-byte length |
| SignedPayloads.CertVerifiesExactly | pollis-delivery/src/cert.rs:49-81 | a certificate verifies exactly when key and signature have their lengths and the signature is over the claim's payload |
| Encoding.BigEndianAt | pollis-delivery/src/cert.rs:27-47 | byte i of a big-endian number is its digit for 256 to the power of the bytes after it |
| SignedPayloads.HexLower | pollis-delivery/src/auth.rs:107-115 | the loop writes two lower-case digits per byte |
| Encoding.HexAt | pollis-delivery/src/auth.rs:107-115 | byte i becomes the digits of its high and low half at twice its position |
| SignedPayloads.CanonicalMessageInjective | pollis-delivery/src/auth.rs:97-103 | a request with newline-free method and path shares its message with no other method, path, time or body digest, whatever the other request holds |
| SignedPayloads.CanonicalMessageLines | pollis-delivery/src/auth.rs:97-103 | the message splits into method, path, time and body digest, in that order |
| Encoding.SignedDecimalReads | pollis-delivery/src/auth.rs:97-103 | the printed time reads back to the time, sign included |
| SignedPayloads.NewlineIsAmbiguous | pollis-delivery/src/auth.rs:97-103 | a newline in a path could as well have ended the method |
| SignedPayloads.UnambiguousIsNewlineFree | pollis-delivery/src/auth.rs:97-103 | a request is the only one with its message exactly when its method and path hold no newline |
| GroupHandoff.Memberships | pollis-delivery/src/account.rs:772-783 | lists each of the user's groups once with the user's role |
| GroupHandoff.HandoffOne | pollis-delivery/src/account.rs:786-843 | one turn treats one group as specified and touches no other |
| GroupHandoff.HandoffGroupOwnership | pollis-delivery/src/account.rs:771-846 | every group is handed off as if it were the only one, in any row order and for any choice of successor |
| GroupHandoff.SeatAfterHandoff | pollis-delivery/src/account.rs:771-846 | no other user loses a seat or is demoted, and a promotion happens only in place of a sole admin |
| GroupHandoff.OwnSeatAfterHandoff | pollis-delivery/src/account.rs:771-846 | the user's own seats stay, except in a group of one whose deletion takes them along |
| GroupHandoff.LeavingIsSafe | pollis-delivery/src/account.rs:771-846 | once the user's seats are gone, no surviving group of the user is empty, none that had an admin lacks one, and groups without the user are unchanged |
| GroupHandoff.AtMostOnePromotion | pollis-delivery/src/account.rs:820-841 | at most one member of a group is promoted |
| Accounts.HeadIsCount | pollis-delivery/src/account.rs:270-281 | the head the database computes is the version before the user's first row plus the number of the user's rows |
| Accounts.VersionsExactly | pollis-delivery/src/account.rs:44-53 | the user's versions are exactly those from the first row's up to the head, without a gap |
| Accounts.VersionsRise | pollis-core/src/db/migrations/000005_account_key_log.sql:11-22 | a later row of a user has a greater version, so no pair of user and version repeats |
| Accounts.EstablishNeverFails | pollis-delivery/src/bootstrap.rs:131-173 | a first identity is applied exactly for an account without one, never meets a constraint error, and keeps the identity invariant |
| Accounts.RotateIsExact | pollis-delivery/src/account.rs:199-266 | a rotation wins exactly when based on the true head, and then log, account and recovery row hold its key, version and blob; a loser changes nothing and is told the head; the invariant is kept |
| Accounts.IdentityFrame | pollis-delivery/src/account.rs:199-266 | a first identity and a rotation write one log row, the account row and the recovery row of that user and nothing more, or nothing at all |
| Accounts.MigratedAgrees | pollis-core/src/db/migrations/000005_account_key_log.sql:24-30 | the log the migration seeds agrees with account and recovery rows, at whatever versions they had |
| Accounts.StepKeepsIdentity | pollis-delivery/src/account.rs:199-266 | every endpoint keeps log, account row and recovery row in agreement |
| Accounts.RunKeepsIdentity | pollis-delivery/src/bootstrap.rs:131-173 | the agreement holds in every state reachable from a migrated or an empty database |
| Accounts.LogGrowthIsWins | pollis-delivery/src/account.rs:180-266 | over any stretch of any run a user's log grows by exactly the number of wins |
| Accounts.OneWinPerVersion | pollis-delivery/src/account.rs:44-53 | two wins for one user are built on different versions, in order |
| Accounts.RereadWins | pollis-delivery/src/account.rs:131-140 | a client that read the head wins exactly if nothing was won for its user since |
| Accounts.MainDb.EstablishIdentity | pollis-delivery/src/bootstrap.rs:131-173 | the transaction publishes all three writes or none; devices, key packages, groups, seats, messages and other users' rows stay |
| Accounts.MainDb.RotateIdentity | pollis-delivery/src/account.rs:199-266 | the transaction publishes log, account row and recovery row together or none; devices, key packages, groups, seats, messages and other users' rows stay |
| Accounts.MainDb.RegisterDevice | pollis-delivery/src/bootstrap.rs:226-266 | a device on file is marked as seen now and keeps owner, keys, revocation and any name it has; a new row is the user's and has no keys; nothing else changes |
| Accounts.MainDb.ReadAccountKey | pollis-delivery/src/bootstrap.rs:420-436 | in every reachable state the key read is the newest one logged for the account |
| Accounts.MainDb.WriteDeviceCert | pollis-delivery/src/bootstrap.rs:438-475 | writes exactly for a certificate that verifies under the key read before on a row the user owns, and then only that row's certificate and key |
| Accounts.MainDb.ResignDeviceCerts | pollis-delivery/src/devices.rs:415-443 | the loop replaces certificates on the user's own rows only |
| Accounts.MainDb.RevokeDevice | pollis-delivery/src/account.rs:507-530 | marks the user's own row, keys or no keys, drops the device's key packages, and changes nothing else |
| Accounts.MainDb.LogoutDevice | pollis-delivery/src/account.rs:577-592 | removes the user's own row and changes nothing else |
| Accounts.MainDb.ResetRecover | pollis-delivery/src/account.rs:636-685 | if any statement or the commit fails nothing changes; otherwise the new tables are those of the handoff with the actor's rows removed |
| Accounts.MainDb.DeleteAccount | pollis-delivery/src/account.rs:726-763 | likewise for deletion, sent messages included, with or without cascading deletes |
| DeviceTrust.ResignRow | pollis-delivery/src/devices.rs:415-443 | a row's certificate becomes the last one listed for it; every other column stays |
| DeviceTrust.LookupIsExact | pollis-delivery/src/auth.rs:160-199 | a request is checked against a key exactly if it is the live row's own and a verifying key can be made of it |
| DeviceTrust.StepKeepsOwner | pollis-delivery/src/bootstrap.rs:226-266 | no step changes a row's owner or clears its revocation |
| DeviceTrust.RevocationIsFinal | pollis-delivery/src/auth.rs:160-199 | over every run, while its row exists a device keeps its owner, and once revoked passes no lookup |
| DeviceTrust.RevokedStaysOut | pollis-delivery/src/account.rs:507-530 | over every run a device revoked by its owner, with or without a key then, passes no lookup while its row stays, whatever is registered or published later |
| DeviceTrust.RemovedByOwner | pollis-delivery/src/account.rs:577-685 | a row disappears only by its owner's logout, reset or deletion |
| DeviceTrust.RegisterTakesEffect | pollis-delivery/src/bootstrap.rs:226-266 | a new row has no keys; registering an existing device changes what no request is checked against |
| DeviceTrust.PublishTakesEffect | pollis-delivery/src/bootstrap.rs:438-475 | published exactly for a verifying certificate on the user's own row, and then requests are checked against that key unless the device is revoked or the key is no point of the curve |
| DeviceTrust.RevokeTakesEffect | pollis-delivery/src/account.rs:507-530 | the device passes no lookup and has no key package; no other device is affected |
| DeviceTrust.LogoutTakesEffect | pollis-delivery/src/account.rs:545-592 | the row is gone, every other row stays, and registering again starts clean |
| DeviceTrust.DeviceFrames | pollis-delivery/src/account.rs:507-592 | revocation and logout change what they name and nothing else |
| DeviceTrust.IdentityKeepsLookups | pollis-delivery/src/account.rs:199-266 | establishing or rotating an identity changes no lookup of any device |
| DeviceTrust.CreateIsExact | pollis-delivery/src/otp.rs:412-447 | an account is new exactly if no identity table knows it, and starts without an identity |
| DeviceTrust.LeavingTakesEffect | pollis-delivery/src/account.rs:636-763 | after a reset in a run the user has the kept device at most and no seat, after a deletion neither account nor seat |
| DeviceTrust.EnrolledIsAccepted | pollis-delivery/src/bootstrap.rs:131-475 | from nothing, creating an account, its identity, a device and a verifying certificate leads to a device whose requests are checked against the certified key |
| DeviceTrust.StepKeepsTrust | pollis-delivery/src/bootstrap.rs:411-475 | every stored signing key stays certified under a logged key of its owner, rotations between read and write included |
| DeviceTrust.AuthenticatedIsVouched | pollis-delivery/src/auth.rs:160-199 | in every run from vouched-for device rows, none included, a device accepted for a user has a signing key certified under a key in that user's log |
| DeviceTrust.StepKeepsCerts | pollis-delivery/src/devices.rs:415-443 | a step keeps a verifying certificate beside every signing key exactly unless it re-signs with one that does not verify |
| DeviceTrust.RunKeepsCerts | pollis-delivery/src/bootstrap.rs:411-475 | in every run without such a re-signing every stored certificate verifies under a logged key |
| DeviceTrust.EmptyCertIsStored | pollis-delivery/src/devices.rs:415-443 | re-signing with an empty certificate is accepted |
| DeviceTrust.ResetFrame | pollis-delivery/src/account.rs:636-685 | the actor keeps the named device at most and no seat, direct message or key package; sent messages stay; other users' rows change only by promotion |
| DeviceTrust.DeleteFrame | pollis-delivery/src/account.rs:726-763 | nothing of the actor is left that the flag says is removed, sent messages included; without cascading deletes devices, recovery and direct messages stay; the key log stays, other users' rows change only by promotion |
| DeviceTrust.GroupsSurvive | pollis-delivery/src/account.rs:771-846 | after reset or deletion every surviving group of the actor has a member, and an admin if it had one |
| DeviceTrust.StepIsSelfScoped | pollis-delivery/src/account.rs:27-34 | an endpoint leaves what the tables hold for any other user alone, group seats aside, exactly unless it registers a device of theirs at a new time, or one without a name |
| DeviceTrust.StepKeepsApart | pollis-delivery/src/bootstrap.rs:234-238 | apart from last-seen times it leaves them alone exactly unless it registers a device of theirs that has no name |
| DeviceTrust.RegisteringMarksSeen | pollis-delivery/src/bootstrap.rs:234-238 | registering somebody else's device a second later changes the last-seen time its owner is shown |
| DeviceTrust.RunNamed | pollis-delivery/src/bootstrap.rs:226-266 | from device rows that all have names no step ever fills one in |
| DeviceTrust.RunIsSelfScoped | pollis-delivery/src/account.rs:27-34 | over any stretch of any run in which nothing acts for a user or registers a device of theirs, that user's rows stay exactly as they were |
| DeviceTrust.RunKeepsApart | pollis-delivery/src/account.rs:27-34 | over any stretch in which nothing acts for a user or names a device of theirs, only last-seen times change |
| GroupLocks.LockTable.Entry | pollis-core/src/state.rs:251-256 | one lock per conversation, made the first time, and exactly the table step of the interleaved model |
| GroupLocks.StepKeepsInv | pollis-core/src/state.rs:247-258 | every step of every task keeps the lock invariant |
| GroupLocks.MutualExclusion | pollis-core/src/state.rs:247-258 | in no run do two tasks hold guards for one conversation |
| GroupLocks.BindingIsFixed | pollis-core/src/state.rs:247-258 | the lock bound to a conversation never changes and is shared with no other |
| GroupLocks.WaitsOnlyForSameConversation | pollis-core/src/state.rs:247-258 | a task waits for its entry only behind a guard of its own conversation |
| GroupLocks.NeverStuck | pollis-core/src/state.rs:247-258 | while a task is inside the routine some task can move |
| GroupLocks.AcquireAlone | pollis-core/src/state.rs:247-258 | with the table free and nobody holding the conversation a task gets its guard in five steps of its own |
| GroupLocks.CancelIsExact | pollis-core/src/state.rs:247-258 | exactly a waiting task can be dropped, and that changes nothing else |
| CaptureWire.Writer.WriteMsg | pollis-capture-proto/src/lib.rs:289-317 | a message's encoding is appended to the stream, a frame in two writes |
| CaptureWire.Reader.ReadExact | pollis-capture-proto/src/lib.rs:325-437 | all the bytes asked for, or none after using up the rest |
| CaptureWire.Reader.ReadMsg | pollis-capture-proto/src/lib.rs:325-437 | reads exactly what the decoder specification says and uses exactly the message's bytes |
| CaptureWire.ReadRoundTrip | pollis-capture-proto/src/lib.rs:210-437 | a message within the cap is read back in front of any bytes |
| CaptureWire.ReadBackExactly | pollis-capture-proto/src/lib.rs:210-437 | any message is read back exactly when it is within the cap, or is 2^32 bytes or longer and the bytes its cut length keeps parse as the same message |
| CaptureWire.ReadIsExact | pollis-capture-proto/src/lib.rs:325-437 | a read gives a message exactly when the stream begins with its type, a length within the cap and that many bytes standing for it, and ends cleanly exactly with less than a header left |
| CaptureWire.OversizedFrameIsLost | pollis-capture-proto/src/lib.rs:222-239 | a frame is read back exactly when it is within the cap, the 32-bit cast included |
| CaptureWire.OversizedIsLost | pollis-capture-proto/src/lib.rs:210-437 | so is every message, if no proper prefix of a JSON or text encoding decodes to the same value |
| CaptureWire.FormatLayout | pollis-capture-proto/src/lib.rs:210-217 | the thirteen bytes of a format message, least significant byte first |
| CaptureWire.StreamRoundTrip | pollis-capture-proto/src/lib.rs:210-437 | any sequence of messages decodes to itself and then a clean end |
| CaptureWire.WholeIsExact | pollis-capture-proto/src/lib.rs:325-437 | the whole messages and the leftover bytes make up any cut, and the next message is not whole |
| CaptureWire.CutStream | pollis-capture-proto/src/lib.rs:325-437 | a stream cut anywhere yields exactly its whole messages, then a clean end at or inside a header and an error inside a payload |
| Watermark.FindStop | pollis-core/src/commands/messages/watermark.rs:105-108 | the send time of the first envelope that must be retried |
| Watermark.ComputeWatermark | pollis-core/src/commands/messages/watermark.rs:98-120 | the loop adopts send times until one is not below the stop |
| Watermark.WatermarkIsGreatestBelow | pollis-core/src/commands/messages/watermark.rs:84-97 | the result is the greatest send time strictly below the first one to retry |
| Watermark.StopsExactlyAt | pollis-core/src/commands/messages/watermark.rs:65-108 | the cursor stops for the first message or edit whose epoch was not reached and for nothing else: deletes and envelopes without an epoch never hold it back |
| Watermark.UnhandledStaysAbove | pollis-core/src/commands/messages/watermark.rs:8-30 | an unhandled envelope stays strictly above the cursor, ties included |
| Watermark.AllHandledReachesEnd | fuzz/fuzz_targets/next_watermark.rs:153-166 | with everything handled the cursor reaches the newest envelope |
| Watermark.MonotoneInEpoch | pollis-core/src/commands/messages/watermark.rs:65-82 | a pass that reaches a later epoch never moves the cursor less far |
| Watermark.MonotoneUnderExtension | fuzz/fuzz_targets/next_watermark.rs:138-151 | a longer list never moves the cursor back, exactly unless the newcomers tie the last envelope with one to retry |
| Watermark.DistinctTimesMonotone | fuzz/fuzz_targets/next_watermark.rs:138-151 | with distinct send times it never does |
| Watermark.TieMovesBack | fuzz/fuzz_targets/next_watermark.rs:138-151 | two messages at one send time, of which one is handled, for which it does |
| Delivery.CursorMonotone | pollis-delivery/src/messages.rs:652-678 | over every run the stored cursor never moves back, nor does the group's epoch |
| Delivery.PassEnds | pollis-core/src/commands/messages/ingest.rs:180-340 | a pass that finishes moves the cursor to its own if later, one that fails leaves it; either way it is over |
| Delivery.NoLostMessage | pollis-core/src/commands/messages/ingest.rs:75-88 | from any state some continuation reads a stored message exactly if it is not missed: behind the cursor with no pass left to read it, or sealed at an epoch the group has left |
| Delivery.MissedForGood | pollis-core/src/commands/mls/group_state.rs:839-861 | what is missed is never read in any continuation |
| Delivery.BehindNeverFetched | pollis-core/src/commands/messages/ingest.rs:141-180 | an envelope at or below the cursor is never fetched again |
| Delivery.StepKeepsAhead | pollis-core/src/commands/messages/ingest.rs:180-340 | every step keeps every message read or within reach, exactly unless it is an arrival at risk, a move over an unread message, or a replay that leaves one behind |
| Delivery.PlainReplayIsSafe | pollis-core/src/commands/mls/group_state.rs:1223-1237 | a replay that ends where its hook last fired leaves none behind |
| Delivery.AheadNoLoss | pollis-core/src/commands/messages/ingest.rs:75-88 | in every run without such steps no message is ever missed |
| Delivery.ArrivesAheadIsExact | pollis-core/src/commands/messages/ingest.rs:141-180 | the passes under way, in any number of steps, can make an arrival missed exactly if it is at or below the cursor, at an epoch already left, or not clear of one of them: needing keys while one has yet to replay, or no newer than what one has fetched |
| Delivery.LostBetweenFetchAndFinish | pollis-core/src/commands/messages/ingest.rs:141-180 | a run in which an envelope that arrives above the cursor is lost |
| Delivery.LeftBehindByReplay | pollis-core/src/commands/messages/ingest.rs:141-180 | a run in which one that arrives above the cursor, at the group's epoch and newer than everything fetched is never read, and the cursor moves past it |
| Delivery.LostAtOwnRow | pollis-core/src/commands/mls/group_state.rs:1170-1237 | a single pass at a row of the device's own loses a message of the next epoch |
| Delivery.FullPassReachesNewest | pollis-core/src/commands/messages/watermark.rs:84-97 | a pass that handles all it fetched brings the cursor to the newest of them |
| ByteRange.ParseSingleRange | pollis-core/src/media_server.rs:225-273 | an accepted range lies within the body |
| ByteRange.PrintedRange | pollis-core/src/media_server.rs:256-273 | a printed pair is read back with its end clamped, or refused when it starts past the body or is reversed |
| ByteRange.PrintedOpenRange | pollis-core/src/media_server.rs:256-273 | an open range runs to the last byte |
| ByteRange.PrintedSuffix | pollis-core/src/media_server.rs:243-254 | a suffix range is the last n bytes or all of them; zero is refused |
| ByteRange.PartialIsExact | pollis-core/src/media_server.rs:159-180 | a partial response carries exactly the bytes it announces |
| ByteRange.ChunksAddUp | pollis-core/src/media_server.rs:159-180 | for any body and chunk size successive ranges add up to the body |
| Camera.NoOverflow | pollis-capture-linux/src/camera.rs:382-393 | no intermediate leaves the 32-bit range |
| Camera.ChannelsRound | pollis-capture-linux/src/camera.rs:378-393 | each channel is the byte nearest to its fixed-point sum |
| Camera.NearBt601 | pollis-capture-linux/src/camera.rs:378-393 | each channel of a pixel is within 0.8 of the BT.601 conversion over the reals clamped to a byte |
| Camera.GreyAxis | pollis-capture-linux/src/camera.rs:378-393 | grey stays grey, and the limits of the range are black and white |
| Camera.WriteBgrx | pollis-capture-linux/src/camera.rs:382-393 | writes one pixel of the clamped integer formula and nothing else |
| Camera.YuyvToBgrx | pollis-capture-linux/src/camera.rs:312-334 | converts exactly when both buffers suffice; every paired pixel is the formula of its own samples, every other byte is unchanged |
| Camera.FrameDetermined | pollis-capture-linux/src/camera.rs:254-302 | with an even width the reused buffer keeps nothing of earlier frames |
| Camera.EmittedDetermined | pollis-capture-linux/src/camera.rs:241-304 | with an even width all that is emitted follows from what was dequeued |
| Camera.CaptureLoop | pollis-capture-linux/src/camera.rs:241-304 | the format once before the first frame, then exactly the convertible frames that found room, in order and under their own times; ends cleanly on a stop or a closed queue, with an error on a failing dequeue or a zero dimension |
| LearnPage.Widget.Recompute | website/learn.js:137-157 | repaints every level from the entries up to the root |
| LearnPage.Widget.UpdateSteps | website/learn.js:292-337 | the walk with the reader's siblings, and the verdict against the published root |
| LearnPage.ClimbReachesRoot | website/learn.js:199-205 | with the tree's own siblings the walk ends at the root, for any depth and entry |
| LearnPage.OnlyOwnSiblingsReachRoot | website/learn.js:252-337 | barring a collision, a walk that ends at the root used the tree's own digest and siblings, whatever was typed |
| LearnPage.VerdictIsExact | website/learn.js:320-337 | the walk is judged good exactly when every typed sibling is the tree's own |

## Left out

- HTTP handlers, sessions, header parsing and the choice of the acting user: the actor is a parameter.
- SHA-256, Ed25519, base64, JSON and lossy UTF-8 decoding: parameters, with only the assumptions a lemma names.
- The hex form of proofs on the wire, signed tree heads and their signing contexts: the model's heads are a size and a root.
- The commit-log and binary tenants of the transparency log and the builder's database reading: their rules would add easy members.
- The contents of MLS groups: a group is the list of commits it was built from, and how the group library treats a row (merged, unchanged, dropped) is chosen freely.
- The commit log is modelled for one conversation; two users reporting under one device id are one report.
- Welcome acknowledgement and re-arming: a device may apply its stored Welcome at any time, which includes every delivery order.
- Conversation watermarks on registration, enrollment rows and security events: single statements on tables nothing else here reads.
- 64-bit overflow of epochs and versions: epochs and versions are unbounded integers.
- Envelope garbage collection, more than one device and more than one conversation of a group in the delivery model: each device has its own cursor in each conversation, and passes for the others appear as moves of the group.
- Decryption that fails at the right epoch: an envelope fetched by a pass that is at its epoch counts as read.
- MJPG frames: decoding is a foreign library, and the packing after it is a plain copy.
- UnambiguousIsShort: tenants are byte strings; whether 2^32 bytes can be moved out of a tenant and leave UTF-8 text is not modelled.
- MigratedAgrees: takes account and recovery rows to agree before the migration, as the endpoints of that time wrote them; device rows older than the certificate check are left to `AuthenticatedIsVouched`'s condition on the start.
