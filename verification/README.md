# Verification of the secure messenger's client and session core

This project models, in Dafny, the parts of the secure messenger whose
correctness is hardest to see from the code: the synchronisation of MLS groups
from a server log, the encrypted browser vault, sending with retries, folding
decrypted events into a message list, the payload and storage codecs, session
and device handling, and two small arithmetic kernels.  Everything is stated for
all inputs, all runs and all failure points.

| files | component |
|---|---|
| `GroupSync`, `GroupScan`, `GroupReconcile`, `GroupRuns`, `GroupRoles`, `Directory` | one client's group synchronisation, when the two-pass scan succeeds, the coordinator's reconciliation, runs of them, who may change a group, the device directory |
| `Vault` | the worker that owns the MLS client and its encrypted record in IndexedDB |
| `ProviderState` | the length-prefixed format of the MLS provider's storage |
| `Lifecycle`, `LifecycleLaws`, `LifecycleView` | events to message list, what it depends on, what each event shows |
| `Delivery`, `DeliveryRuns`, `DeliveryMisses` | ciphertext cache, deduplicating envelope table, lossy network, interleaved senders, how often one message can be stored |
| `SessionStores`, `AuthDevices` | the two token stores, and login, refresh, logout and revocation over them |
| `RateLimit`, `Usernames` | the fixed-window limiter, generated usernames |
| `Base64`, `Json`, `Payload`, `PayloadLaws`, `PayloadShapes` | the application payload, its round trip, its shapes field by field |
| `Sorting`, `Feed`, `FeedView`, `SafetyCode`, `SafetyLaws`, `SafetyView` | the merged message feed, the safety code, what both show |

Where the source changes state step by step, the model is a class or a method
with loops, proved against a specification function; the laws are lemmas about
that function.  Cryptography is symbolic: sealing is an injective constructor,
opening needs the same key, nonce and associated data, and hashes of tokens and
envelopes are injective.  A commit applies exactly in the epoch it was made in,
and its envelope carries the epoch after it, following section 12.4.2 of
RFC 9420.  The base64 rules are those of sections 3.5 and 4 of RFC 4648.
Browser functions (JSON, UTF-8, `Date.parse`, `localeCompare`, `toLowerCase`,
SHA-256) are parameters known only by stated laws.

## What the proofs show about the code

Where a property one would expect does not hold, the code is modelled as it is
and the exact condition is proved.

- One descent in the order of commits on a page is absorbed by the second pass,
  but already leaves sending blocked until an explicit resync (`GroupScan.TwoPassExact`).
- A coordinator whose commit is not accepted has moved on alone: observers
  follow if and only if every commit was accepted, over one reconciliation and
  over any run of them, wherever they scan (`GroupReconcile.ObserverFollows`,
  `GroupRuns.ObserverFollowsScans`).
- The listing has no page beyond the first 500 rows: later rows stay hidden from
  a device exactly until fewer than 500 earlier rows it may read are left
  unexpired (`GroupReconcile.LaterRowsHiddenExactly`).
- A migration candidate that reads back with another iteration count is
  promoted, and the next passphrase change makes the vault unreadable
  (`Vault.OtherIterationsStrandTheVault`).
- Two concurrent sends of one message can both miss the cache and store two
  envelopes (`DeliveryRuns.ConcurrentCallsCanStoreTwice` is such a run).  A message
  can still be stored more than once if and only if more than one ciphertext of it
  is live or under way, and each of those took a cache miss
  (`DeliveryMisses.StoredOnceExactly`, `DeliveryMisses.StoredAtMostMisses`); the
  receiver shows one in any case (`DeliveryRuns.ReceiverShowsOnce`).
- Dropping foreign edits before replays is not neutral
  (`LifecycleLaws.ForeignEditHoldsItsClientId` has the inputs); it is exactly when no
  foreign edit holds back a later event with its client id
  (`LifecycleLaws.DroppingCommutesExactly`).
- The payload encoding is unique only up to a leading byte order mark, which the
  text decoder strips before the comparison (`PayloadLaws.DecodedAlikeExactly`).
- The in-memory limiter admits at most one call less than twice the maximum in a
  window's length, the Redis limiter up to twice the maximum, and both bounds are
  reached for every maximum and window (`RateLimit.MemoryBoundIsReached`,
  `RateLimit.RedisBoundIsReached`).
- The feed and the safety code depend on the order of their inputs exactly where
  the collation ties (`Feed.ShownAlikeExactly`, `SafetyLaws.ListedAlikeExactly`).
  With the colon-free device ids the server issues, two devices tie only if the
  collation equates two different keys (`SafetyLaws.DeviceIdsSeparate`).

## Model

| member | source | states |
|---|---|---|
| `GroupScan.TwoPassExact` | frontend/src/crypto/e2eeMessaging.js:117-143 | On any page with exactly one attributable commit for each epoch e+1..n, one scan from epoch e ends at n without throwing if and only if the row positions in epoch order descend at most once; with no descent the send block is left as it was, with one the chat is blocked although the scan succeeds, with more it throws `MissingCommit` and the chat is blocked |
| `GroupScan.RoundsConverge` | frontend/src/crypto/e2eeMessaging.js:117-143 | However the page is shuffled, as many scans in a row as it has descents (at least one) reach the newest epoch without throwing |
| `GroupScan.RepeatChangesNothing` | frontend/src/crypto/e2eeMessaging.js:117-143 | After a scan that did not throw, scanning the same page again changes neither the group nor the block and defers nothing, on any page whose epoch labels are honest |
| `GroupScan.EpochNeverDecreases` | frontend/src/crypto/e2eeMessaging.js:77-176 | Whatever the log, the directory and the network do, the local epoch never decreases and a local group never disappears |
| `GroupScan.SyncNeverUnblocks` | frontend/src/crypto/e2eeMessaging.js:24-33 | A synchronisation by itself never lifts a send block, and one that throws on an envelope always leaves one |
| `GroupSync.Client.ReportMlsIssue` | frontend/src/crypto/e2eeMessaging.js:24-33 | Blocks the chat exactly for unexpected error classes, and no other chat |
| `GroupSync.Client.JoinFromWelcome` | frontend/src/crypto/e2eeMessaging.js:98-116 | The Welcome loop stops at the first Welcome that opens or the first unexpected error; nothing of other chats changes |
| `GroupSync.Client.ScanPage` | frontend/src/crypto/e2eeMessaging.js:117-133 | The first pass refines the fold of its step function over the page: skip by sender, type and epoch, apply, defer `MissingCommit`, throw on anything unexpected |
| `GroupSync.Client.RetryDeferred` | frontend/src/crypto/e2eeMessaging.js:134-143 | The second pass refines the fold over the deferred rows; a second `MissingCommit` throws |
| `GroupSync.Client.ScanEnvelopes` | frontend/src/crypto/e2eeMessaging.js:117-143 | Both passes together compute the scan the laws above speak about |
| `GroupSync.Client.EnsureGroup` | frontend/src/crypto/e2eeMessaging.js:145-152 | Founds a group only when there is none, and tells whether it did |
| `GroupSync.Client.RemoveStale` | frontend/src/crypto/e2eeMessaging.js:153-162 | Removes exactly the members that left the directory, never the own device; the local group has moved on even when publishing the commit fails |
| `GroupSync.ClaimPackages` | frontend/src/crypto/e2eeMessaging.js:165-169 | Claims one package for every missing device, and fails exactly when one has none |
| `GroupSync.Client.AddMembers` | frontend/src/crypto/e2eeMessaging.js:163-175 | The adding half refines its specification for every failure point, including a failed claim |
| `GroupSync.Client.InviteMembers` | frontend/src/crypto/e2eeMessaging.js:171-175 | Publishes the commit unless the group was just founded, then one Welcome a device, cut off where the network fails |
| `GroupSync.Client.ReconcileMembers` | frontend/src/crypto/e2eeMessaging.js:145-176 | The coordinator part refines the reconciliation function, for every failure point |
| `GroupSync.Client.SynchronizeMlsGroup` | frontend/src/crypto/e2eeMessaging.js:77-176 | The whole call: owners, local device, join, scan and reconciliation in this order, with every early exit; other chats are untouched |
| `GroupSync.Client.ResynchronizeMlsGroup` | frontend/src/crypto/mlsSendPolicy.js:24-28 | Only a synchronisation that succeeds lifts the block; one that throws leaves what it left |
| `GroupReconcile.ReconcileMatchesDirectory` | frontend/src/crypto/e2eeMessaging.js:145-176 | The reconciliation returns normally if and only if every missing device has a key package to claim and the server accepts every row, and then the tree holds exactly the devices of the directory |
| `GroupReconcile.CoordinatorSyncMatchesDirectory` | frontend/src/crypto/e2eeMessaging.js:77-176 | A coordinator that starts in its group, or without one, and whose page holds neither a foreign commit that takes it out nor a Welcome that does not list it: a normal return of the whole synchronisation leaves exactly the devices of the directory in the tree |
| `GroupReconcile.OneWelcomeEach` | frontend/src/crypto/e2eeMessaging.js:163-175 | Each device that was missing gets exactly one Welcome, at the final epoch, with the final members and sealed to its own key package |
| `GroupReconcile.NoOtherWelcome` | frontend/src/crypto/e2eeMessaging.js:163-175 | Nobody but a missing device is sent a Welcome |
| `GroupReconcile.ObserverFollows` | frontend/src/crypto/e2eeMessaging.js:158-172 | An observer in the starting group that reads the published rows never throws, and ends in the coordinator's group if and only if the server accepted every commit |
| `GroupReconcile.NewDeviceJoins` | frontend/src/crypto/e2eeMessaging.js:98-143 | A device the coordinator just added joins from its Welcome into the final group, behind any earlier Welcomes whose key packages it used up, and the rest of its page leaves it there unblocked |
| `GroupReconcile.WithheldRowsDoNotMatter` | app/routers/e2ee.py:127-131 | A scan over the rows the server shows a device ends like a scan over the whole log |
| `GroupReconcile.PageUnchangedExactly` | app/routers/e2ee.py:127-132 | Rows behind a log leave the page of a device as it is if and only if 500 earlier rows are visible to it or none of the new ones is |
| `GroupReconcile.LaterRowsHiddenExactly` | app/routers/e2ee.py:118-133 | The same over stored rows, after the listing deleted the expired ones: later rows stay hidden exactly as long as 500 visible earlier rows have not expired, or none of them is for the device |
| `GroupRuns.ObserverFollowsScans` | frontend/src/crypto/e2eeMessaging.js:117-172 | Over any run of reconciliations with any directories, claims and failures, an observer that stood where the coordinator started and scans after any of them, as often as it likes and also past scans that threw, stands where the coordinator stood at the last scan if and only if every commit up to there was stored |
| `GroupRuns.ObserverFollowsRun` | frontend/src/crypto/e2eeMessaging.js:117-172 | In particular one scan at the end of the run suffices |
| `GroupRuns.JoinsAndFollows` | frontend/src/crypto/e2eeMessaging.js:98-143 | A device that was just added and scans for the first time only after further reconciliations joins from its Welcome and ends where the coordinator is, in the same call, if and only if every commit since was stored |
| `GroupRuns.SynchronizedAgain` | frontend/src/crypto/e2eeMessaging.js:77-176 | A synchronisation that returned normally and is called again, over the same directory and a page of the same honestly labelled rows and those it published, publishes nothing and leaves group and block as they are |
| `GroupRuns.StaysBehind` | frontend/src/crypto/e2eeMessaging.js:117-133 | An observer that lost its place applies none of the coordinator's later rows |
| `GroupRoles.OnlyTheCoordinatorActs` | frontend/src/crypto/e2eeMessaging.js:77-176 | A device that is not the listed coordinator publishes nothing, never fails on a claim or on publishing, and ends with the group, block and error its page gives it; nobody publishes after a page that threw, and an unlisted device stays as it was |
| `GroupRoles.OthersNeverFound` | frontend/src/crypto/e2eeMessaging.js:145-152 | A device that is not the coordinator, has no group and finds no Welcome of a known sender still has none |
| `GroupRoles.KnownSenders` | frontend/src/crypto/e2eeMessaging.js:16-22 | A sender is known if and only if its last entry in the directories read so far names a non-empty login |
| `GroupRoles.OpenedRow` | frontend/src/crypto/e2eeMessaging.js:117-133 | What a row does to a member, kind of payload by kind of payload: which rows are opened at all, which commits apply, which are deferred and which end the scan with which error |
| `GroupRoles.OpenedWelcome` | frontend/src/crypto/e2eeMessaging.js:98-116 | What a Welcome does to a device without a group: joined exactly when it is sealed to a package the device holds |
| `GroupRoles.UnknownSendersMoveNobody` | frontend/src/crypto/e2eeMessaging.js:16-22 | On any page, rows of senders the directory does not name never change the group, as Welcome or as commit |
| `GroupRoles.UnknownSenderStops` | frontend/src/crypto/e2eeMessaging.js:16-33 | The first row of an unknown sender that has to be opened ends the scan with that error and blocks the chat, whatever stands behind it |
| `GroupRoles.PublishesExactly` | frontend/src/crypto/e2eeMessaging.js:153-175 | A successful reconciliation costs one epoch for the departed and one for the newcomers: a commit that removes exactly the former, then, unless the group was just founded, one that adds exactly the latter, then only Welcomes |
| `GroupRoles.FailureIsPrefix` | frontend/src/crypto/e2eeMessaging.js:153-175 | When the network fails, exactly the first rows of the whole reconciliation are stored, as many as it carried |
| `Directory.CoordinatorRanksFirst` | app/routers/e2ee.py:143-159 | The coordinator is the oldest device of the chat's creator and, where the creator has no device, the oldest of all; among equally old ones it has the first id |
| `Directory.ListingInOrder` | app/routers/e2ee.py:143-159 | The devices are listed with the creator's first, then the older, then by id, and the first of them coordinates |
| `Directory.OneCoordinator` | app/routers/e2ee.py:143-159 | Every caller is told the same coordinator and the same device list, whatever order the rows come in |
| `Directory.ListingIsComplete` | app/routers/e2ee.py:143-159 | The listing names exactly the published devices, each once |
| `Vault.RunQueue` | frontend/src/crypto/mls.worker.js:325-337 | Over every run of commands with failing writes and crashes at any transaction boundary, and any read-backs but one that opens under a foreign iteration count: committed vault, client, lock state and replies are those of the pure step function folded over the commands, the stored record opens with exactly the committed passphrase to the committed state, and the positions of all released ciphertexts strictly increase |
| `Vault.AccessFollows` | frontend/src/crypto/mls.worker.js:325-337 | With faithful read-backs the vault belongs, after any run, to the passphrase of the last committed create, change or migration |
| `Vault.CommittedState` | frontend/src/crypto/mls.worker.js:181-192 | After a command the committed state is that of the client it offered if the vault is open, there is such a client and the write takes effect, and in every other case what it was before |
| `Vault.LeavesOpen` | frontend/src/crypto/mls.worker.js:205-255 | A create, unlock, change or migration that replies leaves the vault open with its device active; a refused unlock, a failed write of a change and a failed migration lose the key, every other refusal keeps it, a lock or crash drops all memory |
| `Vault.OpenedVaultInitializes` | frontend/src/crypto/mls.worker.js:256-270 | After any run, once such a command replied, an initialisation of at most a hundred packages whose write commits replies too, if the stored state restores or a client is loaded |
| `Vault.Performs` | frontend/src/crypto/mls.worker.js:271-309 | A request that changes the group leaves the client where the operation takes it, also when its write fails, and drops all memory when the worker dies |
| `Vault.ReloadsLastStored` | frontend/src/crypto/mls.worker.js:171-179 | After a command that stored a client, reloading after a crash gives that client back |
| `Vault.Worker.Perform` | frontend/src/crypto/mls.worker.js:271-309 | A handler that changes the group stores the new state or leaves the vault as it was; a ciphertext is released only after the state that produced it was stored |
| `Vault.OnlyThePassphraseOpens` | frontend/src/crypto/mls.worker.js:157-169 | In every reachable state exactly one passphrase opens the stored record, to the last committed state; every other passphrase is refused |
| `Vault.Worker.MigrateVault` | frontend/src/crypto/mls.worker.js:211-240 | Whatever the candidate reads back as, and wherever the writes fail, either the legacy record and key are both untouched or the new record opens under the new passphrase to the legacy plaintext; with a faithful read-back the migration commits exactly when the passphrase is long enough and both transactions take effect, and after a normal reply the worker holds the key |
| `Vault.Worker.MigrateV1ToV2` | frontend/src/crypto/vaultCrypto.js:97-131 | The steps of the migration: nothing is promoted unless the candidate read back opened to the same bytes, and the returned key is the one the promoted record wraps |
| `Vault.Worker.CreateVault` | frontend/src/crypto/mls.worker.js:205-210 | Creates a vault exactly when there is none and the passphrase has ten characters, and then holds its key; a failed write leaves none, a refusal keeps the key, a crash drops it |
| `Vault.Worker.UnlockVault` | frontend/src/crypto/mls.worker.js:241-245 | Succeeds exactly with the committed passphrase, and then holds the key the record wraps |
| `Vault.Worker.ChangePassphrase` | frontend/src/crypto/mls.worker.js:246-255 | Changes the passphrase and keeps the state exactly when the old one is right, the new one is long enough and the write takes effect; after a normal reply it holds the key |
| `Vault.Worker.LoadLegacyState` | frontend/src/crypto/mls.worker.js:80-97 | Reads the legacy plaintext when record and key are both there |
| `Vault.Worker.Persist` | frontend/src/crypto/mls.worker.js:181-192 | Stores the exported state under the held key and leaves the wrapped key alone; refuses when locked |
| `Vault.Worker.LoadClient` | frontend/src/crypto/mls.worker.js:171-179 | A reloaded client stands where the stored state stands, which is ahead of every released ciphertext |
| `Vault.Worker.Initialize` | frontend/src/crypto/mls.worker.js:256-270 | Initialisation replies only after its state is stored, and neither makes nor loses a vault or a passphrase |
| `Vault.Worker.Forget` | frontend/src/crypto/mls.worker.js:310-322 | Locking, like a crash, drops everything held in memory and nothing stored |
| `Vault.Worker.PromoteOrCleanUp` | frontend/src/crypto/mls.worker.js:223-239 | Whatever the candidate reads back as and wherever a write fails, the outcome is that of the migration step: the legacy record and key both untouched, or the record that was read back alone |
| `Vault.Worker.EnsureClient` | frontend/src/crypto/mls.worker.js:257-261 | Keeps the client of the active device, else loads the stored one, which stands where the stored state stands |
| `Vault.Dispatch` | frontend/src/crypto/mls.worker.js:325-337 | One queued request leaves vault, client, lock state and reply as the pure step function says, and the vault intact |
| `Vault.RewrapNeedsStandardIterations` | frontend/src/crypto/mls.worker.js:108-137 | Changing the passphrase of a record that opens keeps it openable if and only if the record carries the standard iteration count; otherwise nothing opens the result |
| `Vault.OtherIterationsStrandTheVault` | frontend/src/crypto/vaultCrypto.js:109-128 | A candidate that reads back with another iteration count passes every check of the migration, and the next passphrase change strands it |
| `Vault.BytesEqual` | frontend/src/crypto/vaultCrypto.js:143-149 | The comparison loop decides equality of byte strings |
| `ProviderState.ProviderRoundTrip` | frontend/src-wasm/src/lib.rs:88-130 | Every storage map within the 32-bit limits comes back from its serialised form, whatever order it was written in |
| `ProviderState.DecodeExact` | frontend/src-wasm/src/lib.rs:101-130 | A magic-prefixed input is accepted with some records if and only if it is exactly their encoding: the split is unique and fills the input |
| `ProviderState.ExtensionRejected` | frontend/src-wasm/src/lib.rs:129 | No proper extension of a valid encoding is accepted |
| `ProviderState.PrefixRejected` | frontend/src-wasm/src/lib.rs:106-128 | No proper prefix of a valid encoding that still holds the magic is accepted |
| `ProviderState.LastEntryWins` | frontend/src-wasm/src/lib.rs:117-128 | A repeated key maps to the value of its last record |
| `ProviderState.EncodedBytes` | frontend/src-wasm/src/lib.rs:88-99 | The bytes on the wire: five letters, the number of records, and each record as its two lengths, key and value, in order |
| `ProviderState.ToBeAt` | frontend/src-wasm/src/lib.rs:91-94 | Integers are written with their highest byte first |
| `ProviderState.SerializeProvider` | frontend/src-wasm/src/lib.rs:88-99 | The loop writes the encoding of the entries in iteration order |
| `ProviderState.DeserializeProvider` | frontend/src-wasm/src/lib.rs:101-130 | The cursor loop accepts exactly what the format describes and returns its map |
| `ProviderState.ReadEntries` | frontend/src-wasm/src/lib.rs:118-128 | The record loop follows the parse and leaves the cursor behind the last record |
| `ProviderState.ReadEntry` | frontend/src-wasm/src/lib.rs:119-126 | One turn reads one record or fails, also where a 64-bit length does not fit the address space |
| `ProviderState.ReadU64` | frontend/src-wasm/src/lib.rs:106-115 | Reads eight bytes big-endian or fails at the end of the input |
| `LifecycleLaws.ReplayChangesNothing` | frontend/src/crypto/messageLifecycle.js:9-10 | An event whose client id was met before, or that did not decrypt, never changes the list, wherever it stands |
| `LifecycleLaws.InterleavingDoesNotMatter` | frontend/src/crypto/messageLifecycle.js:7-54 | With distinct client ids the list depends only on the order of the messages among themselves and of the mutations among themselves |
| `LifecycleLaws.ShownOnce` | frontend/src/crypto/messageLifecycle.js:9-10 | No client id is ever shown twice |
| `LifecycleLaws.FinalContent` | frontend/src/crypto/messageLifecycle.js:28-45 | A message ends empty and deleted if and only if its author deleted it at some point, whatever edits surround that; otherwise it shows its author's last edit or what it was sent with; the author is the same sender where both are known, else the same device |
| `LifecycleLaws.OnlyAuthorsCount` | frontend/src/crypto/messageLifecycle.js:28-45 | Among the first occurrences of each client id, dropping every edit and deletion of another sender, or where a sender is missing of another device, leaves the whole list as it is |
| `LifecycleLaws.DroppingCommutesExactly` | frontend/src/crypto/messageLifecycle.js:9-10 | On any events, dropping foreign edits and deletions before replays leaves the same first occurrences as dropping them afterwards if and only if no foreign one that came first with its client id is followed by a kept event with that id |
| `LifecycleLaws.DroppingForeignIsNeutral` | frontend/src/crypto/messageLifecycle.js:7-54 | Under that condition dropping them from the raw events leaves the whole list as it is; and where everything held back is a message, only under that condition |
| `LifecycleLaws.HeldBackMessages` | frontend/src/crypto/messageLifecycle.js:9-26 | In every case the list without the foreign edits is longer by exactly the messages they held back |
| `LifecycleLaws.ForeignIgnored` | frontend/src/crypto/messageLifecycle.js:28-45 | Edits and deletions by another sender, or where a sender is missing by another device, leave a message as if they had never been sent |
| `LifecycleLaws.ReactionsUnique` | frontend/src/crypto/messageLifecycle.js:36-39 | One device has at most one reaction for each emoji on a message |
| `LifecycleLaws.ReactionsComplete` | frontend/src/crypto/messageLifecycle.js:36-39 | With colon-free device ids a reaction shows if and only if that device sent it |
| `LifecycleView.MessageIsShown` | frontend/src/crypto/messageLifecycle.js:11-25 | A message, attachment or device event with a new client id is appended to the list with its own fields, and changes nothing else that is shown |
| `LifecycleView.MetadataIsInvisible` | frontend/src/crypto/messageLifecycle.js:26 | Group metadata is not shown and changes nothing that is |
| `LifecycleView.ChangeIsShown` | frontend/src/crypto/messageLifecycle.js:28-45 | Each message after an edit, deletion, reaction or receipt with a new client id: the one it names with exactly that change, every other as it was |
| `LifecycleView.OnlyTheAuthorEdits` | frontend/src/crypto/messageLifecycle.js:28-34 | A text shows an edit of it if and only if the two senders are equal, whatever the devices, or, where a sender is missing on either side, the devices are |
| `LifecycleView.OnlyTheAuthorDeletes` | frontend/src/crypto/messageLifecycle.js:28-35 | The same for a deletion |
| `LifecycleView.QuotesWhatIsShown` | frontend/src/crypto/messageLifecycle.js:47-54 | A reply quotes what its target finally shows: the sender, the final content, nothing of a deleted or missing one |
| `Lifecycle.Collect` | frontend/src/crypto/messageLifecycle.js:7-26 | The first loop collects the messages, their index and the pending mutations of the first event of each client id |
| `Lifecycle.Mutate` | frontend/src/crypto/messageLifecycle.js:28-45 | The second loop leaves each message as the fold of the mutations that name it |
| `Lifecycle.ResolveReplies` | frontend/src/crypto/messageLifecycle.js:47-54 | The third loop resolves every reply against the final state of its target |
| `Lifecycle.ApplyMessageLifecycle` | frontend/src/crypto/messageLifecycle.js:1-56 | The three loops together compute the view the laws speak about |
| `Delivery.EnvelopeTable.Publish` | app/routers/e2ee.py:56-113 | The publish handler: every error branch, deduplication by sender and digest among unexpired rows, and the one branch that stores a row |
| `Delivery.Resend` | app/routers/e2ee.py:76-105 | Re-sending one ciphertext within retention, with any lost requests and replies, stores it at most once; as many replies come as requests arrived, and each names that row |
| `Delivery.DigestDetermines` | app/routers/e2ee.py:77-78 | With device ids free of the separator, a digest determines both the payload and the route |
| `Delivery.Sender.GetRetryableEnvelope` | frontend/src/crypto/outgoingEnvelopeCache.js:5-10 | A cached ciphertext is reused; only a ciphertext that was made is cached |
| `Delivery.Sender.EncryptAndPublish` | frontend/src/crypto/e2eeMessaging.js:178-194 | One send: nothing is encrypted or sent while the chat is blocked or unsynchronised; the row that is stored carries the cached or new ciphertext and its epoch; the cache is confirmed only by an acknowledgement |
| `Delivery.Sender.SendUntilAcknowledged` | frontend/src/crypto/e2eeMessaging.js:178-194 | Retrying one message in sequence sends only its first ciphertext: one row of it is stored if and only if some request arrives, and the sending succeeds with that row if and only if one is acknowledged |
| `DeliveryRuns.RunSound` | frontend/src/crypto/e2eeMessaging.js:185-193 | Under any interleaving of concurrent calls, with encryptions that fail and a network that loses requests and replies, each ciphertext is stored once and an acknowledgement names a row of its own message |
| `DeliveryRuns.StoredAtMostEncrypted` | frontend/src/crypto/e2eeMessaging.js:185-193 | A message is stored at most as often as it was encrypted |
| `DeliveryRuns.SequentialRetriesStoreOnce` | frontend/src/crypto/outgoingEnvelopeCache.js:5-14 | With a single caller up to the first acknowledgement at most one row of a message is stored and every reply named it |
| `DeliveryMisses.StoredAtMostPotential` | frontend/src/crypto/outgoingEnvelopeCache.js:5-14 | From any reachable state, under every continuation, the rows of a message are at most its live ciphertexts and encryptions under way plus the new cache misses |
| `DeliveryMisses.PotentialIsReached` | frontend/src/crypto/outgoingEnvelopeCache.js:5-14 | From any reachable state some continuation without a cache miss stores exactly that many rows |
| `DeliveryMisses.StoredOnceExactly` | frontend/src/crypto/outgoingEnvelopeCache.js:5-14 | So from any reachable state every continuation without a cache miss stores at most one row if and only if at most one ciphertext of the message is live or under way |
| `DeliveryMisses.StoredAtMostMisses` | frontend/src/crypto/outgoingEnvelopeCache.js:6 | Over every run a message is stored at most as often as a call found the cache empty |
| `DeliveryRuns.ReceiverShowsOnce` | frontend/src/crypto/messageLifecycle.js:9-10 | However the senders interleaved, the receiver's fold shows every client id at most once, and only client ids that were sent |
| `SessionStores.RunInMemory` | app/services/session_store.py:21-62 | Over every admissible command sequence the in-memory store answers like the plain map from token to session and expiry |
| `SessionStores.RunRedis` | app/services/session_store.py:68-111 | The Redis store gives the same answers, key expiry included |
| `SessionStores.RevokedStaysRevoked` | app/services/session_store.py:52-57 | A token that is gone never resolves again |
| `SessionStores.SessionsNeverOutliveTtl` | app/services/session_store.py:28-50 | No later command extends a session beyond one lifetime from its issue |
| `SessionStores.ResolvedExactly` | app/services/session_store.py:21-62 | From the commands alone: a token is resolved to a user and device if and only if an earlier command issued it to them less than one lifetime ago, and since then neither it nor its device was revoked |
| `SessionStores.InMemorySessionStore.Issue` | app/services/session_store.py:28-37 | Adds the session and keeps the device index exact: it holds a key if and only if the token map gives the key to that device |
| `SessionStores.InMemorySessionStore.Resolve` | app/services/session_store.py:39-50 | Answers like the plain map; an expired entry goes from the token map and the index together |
| `SessionStores.InMemorySessionStore.Revoke` | app/services/session_store.py:52-57 | Removes the token from the map and the index |
| `SessionStores.InMemorySessionStore.RevokeDevice` | app/services/session_store.py:59-62 | Kills all and only the tokens of the device |
| `SessionStores.RedisSessionStore.Issue` | app/services/session_store.py:73-86 | Adds the session; the device set lives at least as long as every live token in it |
| `SessionStores.RedisSessionStore.Resolve` | app/services/session_store.py:88-96 | Answers like the plain map |
| `SessionStores.RedisSessionStore.Revoke` | app/services/session_store.py:98-104 | Removes the token; a device set that loses its last member goes with it |
| `SessionStores.RedisSessionStore.RevokeDevice` | app/services/session_store.py:106-111 | Kills all and only the tokens of the device, though it reads nothing but the device set |
| `AuthDevices.ServeAll` | app/routers/auth.py:143-297 | Over every run of logins, refreshes, logouts and revocations: every token, also one issued during the run, belongs to the family of the login the served requests trace it to and no access token resolves once both lifetimes have passed since that login; at most five active devices a user; every device revoked before or during the run stays revoked and holds nothing; and no refresh token that was exchanged or logged out is accepted later |
| `AuthDevices.AuthService.Login` | app/routers/auth.py:143-193 | Succeeds exactly for a usable user with the right password and fewer than five active devices, counted from the device records, with one new device, row and access token, all of a family that starts now; the failing branches change nothing |
| `AuthDevices.AuthService.Refresh` | app/routers/auth.py:196-236 | Succeeds if and only if the presented token stands in an unrevoked, unexpired row of an active, unrevoked device and an active user who is no placeholder; the row changes its token and nothing else, so it keeps its expiry, the presented token is spent, and both new tokens join its family; a refusal revokes at most the row that was presented |
| `AuthDevices.AuthService.Logout` | app/routers/auth.py:239-259 | Revokes the access token and, if it is still unrevoked, the presented refresh row, and leaves every other session and row as it was |
| `AuthDevices.AuthService.RevokeDevice` | app/routers/auth.py:277-297 | Succeeds exactly for one of the caller's own devices and revokes it with all its refresh rows and access tokens; every other device, row and session stays as it was |
| `AuthDevices.AuthService.IssueTokens` | app/routers/auth.py:50-78 | Stores the row with its new refresh token and issues one access token for its device |
| `AuthDevices.AuthService.GetCurrentUser` | app/dependencies.py:18-39 | Authenticates exactly the bearer of a live token of an active device and a usable user; takes the token away exactly when its device is neither active nor pending |
| `AuthDevices.AuthService.GetCurrentDevice` | app/dependencies.py:48-69 | Admits exactly unrevoked devices of usable users, pending ones included, and takes a refused live token away |
| `AuthDevices.AuthService.GetActiveDevice` | app/dependencies.py:72-80 | Admits exactly active devices of usable users; a pending device is refused and keeps its token |
| `AuthDevices.FamilyExpires` | app/routers/auth.py:50-66 | No access token descended from a login resolves once both lifetimes have passed since that login |
| `AuthDevices.RevokedDeviceHoldsNothing` | app/routers/auth.py:284-297 | No token of a revoked device is left in the store and none of its refresh rows can be exchanged |
| `AuthDevices.ExchangedIsSpent` | app/routers/auth.py:64-65 | An exchanged refresh token matches no row and is never accepted again |
| `AuthDevices.DeadStays` | app/routers/auth.py:196-259 | A refresh token no unrevoked row holds stays so under every request that does not draw it anew, and an exchanged or logged out token is such a one |
| `AuthDevices.RevokesOneDevice` | app/routers/auth.py:277-297 | Revoking a device marks that device and its unrevoked rows and no other |
| `RateLimit.MemoryBound` | app/services/rate_limit.py:26-33 | In memory any interval of one window's length admits fewer than twice the maximum |
| `RateLimit.RedisBound` | app/services/rate_limit.py:20-24 | In Redis it admits at most twice the maximum |
| `RateLimit.MemoryBoundIsReached` | app/services/rate_limit.py:26-33 | For every maximum and window some calls in one window's length are admitted twice the maximum less one times |
| `RateLimit.RedisBoundIsReached` | app/services/rate_limit.py:20-24 | For every maximum and window some calls in one window's length are admitted twice the maximum times |
| `RateLimit.RunAdmits` | app/services/rate_limit.py:28-33 | One window admits at most the maximum |
| `RateLimit.RefusedOnlyWhenFull` | app/services/rate_limit.py:33-38 | A call is refused only after the maximum was admitted in its own window |
| `RateLimit.MemoryCountsByWindow` | app/services/rate_limit.py:26-33 | A call in memory either opens a window, at least one window's length behind the call that opened the last one, or counts one more than the call before it |
| `RateLimit.RedisCountsByBucket` | app/services/rate_limit.py:20-24 | A call in Redis counts the calls so far whose time divided by the window has the same floor |
| `RateLimit.MemoryLimiter.Check` | app/services/rate_limit.py:17-38 | One call admits exactly when its count in the running window is within the given limit, or the default where none or zero is given; other keys do not matter |
| `RateLimit.RedisLimiter.Check` | app/services/rate_limit.py:17-38 | One call admits exactly when the hits of its aligned bucket so far are within the given limit or the default, although the counter key expires |
| `RateLimit.BucketIsFloorDivision` | app/services/rate_limit.py:20 | The bucket number is the floor of time over window |
| `Usernames.Upgrade` | migrations/versions/20260730_16_public_usernames.py:37-50 | The migration gives every user the first candidate of the own login that no earlier user has; the names match the published pattern and are all different |
| `Usernames.FirstFree` | migrations/versions/20260730_16_public_usernames.py:27-32 | The suffix loop stops within one more try than there are names in use, at the first candidate that is free |
| `Usernames.AvailableUsername` | app/routers/auth.py:98-110 | Registration always finds a free name of the published pattern, the first candidate of the login that is not taken |
| `Usernames.CandidatesDistinct` | migrations/versions/20260730_16_public_usernames.py:29-32 | Different suffixes never give the same candidate, although long bases are cut to make room |
| `Usernames.TriedAtMostUsed` | migrations/versions/20260730_16_public_usernames.py:29-32 | The pigeonhole step: n failed candidates mean n names in use |
| `Usernames.BasesWellFormed` | migrations/versions/20260730_16_public_usernames.py:21-26 | Whatever the login was, both base names match the pattern |
| `Usernames.NthWellFormed` | app/schemas.py:145 | Every candidate matches the pattern |
| `Usernames.MigrationBaseIs` | migrations/versions/20260730_16_public_usernames.py:21-26 | The migration's base is the cleaned login without underscores at its ends, cut to 32 characters, or the user's number where less than three characters are left |
| `Usernames.RegistrationBaseIs` | app/routers/auth.py:99-102 | Registration's base is the cleaned login without underscores at its ends, with a prefix where less than three characters are left |
| `Usernames.CollapseRun` | migrations/versions/20260730_16_public_usernames.py:21 | Words stay as they are and each run of other characters becomes one underscore |
| `Usernames.GoodLoginIsKept` | migrations/versions/20260730_16_public_usernames.py:21-26 | A login that is a well-formed name without underscores at its ends is its own base |
| `Usernames.NthIs` | migrations/versions/20260730_16_public_usernames.py:29-31 | A candidate is the base, or as much of it as fits into 32 characters with an underscore and the number |
| `Base64.DecodeBase64` | frontend/src/crypto/applicationPayload.js:133-143 | Accepts a value if and only if it is the padded encoding, with zero trailing bits, of some string of the expected length, and returns that string |
| `Base64.DecodeEncode` | frontend/src/crypto/applicationPayload.js:133-143 | The forgiving decoder undoes the encoder |
| `Base64.AcceptedIsCanonical` | frontend/src/crypto/applicationPayload.js:133-143 | The characterisation of accepted values by their shape alone |
| `Base64.EncodeInjective` | frontend/src/crypto/applicationPayload.js:141 | Different byte strings have different encodings |
| `Base64.EncodedAt` | frontend/src/crypto/applicationPayload.js:141 | The encoding letter by letter: six bits a letter of each group of three bytes, from the standard alphabet, then padding |
| `Json.CanonicalExact` | frontend/src/crypto/applicationPayload.js:115-121 | Two values have one canonical form if and only if they are equal up to field order at every depth |
| `Json.CanonicalIsFixed` | frontend/src/crypto/applicationPayload.js:115-121 | Canonical values are left alone |
| `Json.CanonicalizeIsCanonical` | frontend/src/crypto/applicationPayload.js:115-121 | Canonicalising sorts every object inside and repeats no key |
| `Payload.ValidateBody` | frontend/src/crypto/applicationPayload.js:177-232 | The validator loops accept exactly the valid bodies; the error names a field that is really forbidden, not allowed or missing |
| `Payload.ForbiddenIsNotAllowed` | frontend/src/crypto/applicationPayload.js:48-99 | The forbidden fields are in no schema |
| `PayloadLaws.EncodeDecodes` | frontend/src/crypto/applicationPayload.js:234-308 | Decoding an encoded message gives back its type, identifiers and time and exactly its allow-listed fields in canonical form |
| `PayloadShapes.EncodesExactly` | frontend/src/crypto/applicationPayload.js:145-272 | A message is encoded if and only if it has two UUIDs and a timestamp, the fields of its kind in their shapes and sizes and no unknown ones, and fits 64 KiB; its kind is one of six operations, else attachment where it carries a descriptor, else message; the bytes are the canonical text of exactly those fields |
| `PayloadShapes.DecodesExactly` | frontend/src/crypto/applicationPayload.js:278-344 | A byte string is decoded if and only if it is at most 64 KiB of the canonical text of a payload with exactly the fields and shapes of its type |
| `PayloadShapes.ContentIs` | frontend/src/crypto/applicationPayload.js:177-232 | The body validator accepts exactly the required fields of each kind in their shapes and sizes |
| `PayloadShapes.DescriptorIs` | frontend/src/crypto/applicationPayload.js:157-175 | An attachment descriptor is valid if and only if it has exactly its eight fields, a UUID, three canonical base64 texts of 32, 12 and 32 bytes, and sizes that differ by 16 within the limit |
| `PayloadShapes.UuidIs` | frontend/src/crypto/applicationPayload.js:103-105 | Accepted identifiers are exactly the five groups of hexadecimal digits with a version from 1 to 8 and the RFC variant |
| `PayloadLaws.EncodeIgnoresFieldOrder` | frontend/src/crypto/applicationPayload.js:234-272 | Messages equal up to field order at any depth are both refused or have the same bytes |
| `PayloadLaws.DecodedAlikeExactly` | frontend/src/crypto/applicationPayload.js:278-308 | Two accepted byte strings decode to the same payload if and only if they are equal once a leading byte order mark is dropped |
| `PayloadLaws.MarkIsTolerated` | frontend/src/crypto/applicationPayload.js:283-296 | An accepted encoding with the mark in front is accepted with the same result if and only if it still fits the size limit |
| `PayloadLaws.ValueRoundTrip` | frontend/src/crypto/applicationPayload.js:123-125 | A valid value, canonically printed, is accepted and decoded to its canonical form |
| `PayloadLaws.ValidAlike` | frontend/src/crypto/applicationPayload.js:317-344 | Validity does not depend on field order at any depth |
| `Feed.MergeMessageFeed` | frontend/src/crypto/messageFeed.js:16-30 | The merged list is sorted, has one message for each id and holds exactly the shown messages: the last decrypted one of an id, else the first pending one |
| `FeedView.EarlierFirst` | frontend/src/crypto/messageFeed.js:11-29 | Of two shown messages the one above was sent earlier; sent at one time it has the smaller number; with one number its client id does not collate behind the other |
| `FeedView.PlacedExactly` | frontend/src/crypto/messageFeed.js:4-9 | The number of a message is the row its `mls:` id names in decimal, else its safe sequence number, else the greatest safe integer |
| `FeedView.ShownExactly` | frontend/src/crypto/messageFeed.js:16-24 | A message is shown if and only if it has a client id and is the last decrypted one with it, or no decrypted one has it and it is the first pending one |
| `Feed.ShownAlikeExactly` | frontend/src/crypto/messageFeed.js:25-29 | Any two pairs of inputs give one list if and only if messages that tie arrive in the same order |
| `Feed.OrderDoesNotMatter` | frontend/src/crypto/messageFeed.js:16-30 | With distinct ids that the collation keeps apart, rearranging either input changes nothing |
| `Feed.TwoMessages` | frontend/src/crypto/messageFeed.js:25-29 | Two messages keep their places under a swap if and only if they do not tie |
| `Feed.MergingAgain` | frontend/src/crypto/messageFeed.js:16-30 | Merging a shown list again with pending messages it covers leaves it as it is |
| `Sorting.SortsAlikeExactly` | frontend/src/crypto/messageFeed.js:25-29 | Under a stable sort two lists sort alike if and only if they order every class of equal elements alike |
| `Sorting.SeparatesExactly` | frontend/src/crypto/safetyCode.js:20 | Every rearrangement of a list sorts alike if and only if no two different elements tie |
| `SafetyCode.CreateSafetyCode` | frontend/src/crypto/safetyCode.js:15-46 | Succeeds if and only if directory and tree hold the same devices, at least two, each named and proved by its credential; the code is that of the sorted devices |
| `SafetyView.AgreeExactly` | frontend/src/crypto/safetyCode.js:15-38 | From the records alone: a code is made exactly for two or more named records with distinct devices, as many credentials with distinct devices, and for each record a credential of the same device and key whose fingerprint, like the claimed one, is the hexadecimal SHA-256 of the decoded key |
| `SafetyView.MismatchIsRefused` | frontend/src/crypto/safetyCode.js:30-35 | A key that differs from the one in the tree, or a fingerprint on either side that is not the key's, is refused |
| `SafetyView.StrangerIsRefused` | frontend/src/crypto/safetyCode.js:21-33 | A device in only one of directory and tree is refused |
| `SafetyView.CodeShows` | frontend/src/crypto/safetyCode.js:36-46 | The code lists one device a record with its key's fingerprint, sorted by login and device id, and its digest and display are of one hash of their text |
| `SafetyView.TextIs` | frontend/src/crypto/safetyCode.js:39-40 | The hashed text: the prefix and a line of login, device id and fingerprint for each device |
| `SafetyView.DisplayShows` | frontend/src/crypto/safetyCode.js:41-43 | The display shows the first twenty bytes by their three decimal digits each, with a space behind every fifth digit |
| `SafetyView.HexAt` | frontend/src/crypto/safetyCode.js:1 | The hexadecimal text shows each byte by its two digits, the higher first |
| `SafetyCode.VerifyDevices` | frontend/src/crypto/safetyCode.js:25-38 | The matching loop succeeds exactly when every identity is named, new and proved |
| `SafetyCode.NoCredentialLeftOver` | frontend/src/crypto/safetyCode.js:22-24 | Equal sizes and every identity proved leave no credential without an identity |
| `SafetyCode.AgreeBothWays` | frontend/src/crypto/safetyCode.js:22-35 | On agreement every credential proves an identity too |
| `SafetyCode.TwelveGroups` | frontend/src/crypto/safetyCode.js:41-43 | The display is twelve groups of five digits |
| `SafetyCode.DisplayedAlikeExactly` | frontend/src/crypto/safetyCode.js:41-43 | Two digests are displayed alike if and only if their first twenty bytes agree |
| `SafetyLaws.ListedAlikeExactly` | frontend/src/crypto/safetyCode.js:17-20 | For any number of devices, rearranging directory and tree gives a code with the same device list if and only if devices that tie in the sort stay in the same order, and then the same code |
| `SafetyLaws.CodeIgnoresOrder` | frontend/src/crypto/safetyCode.js:17-20 | The outcome does not depend on any order of the inputs; every order of the directory lists the devices alike if and only if no two devices tie in the sort, and then every order gives the same code |
| `SafetyLaws.DeviceIdsSeparate` | frontend/src/crypto/safetyCode.js:20 | Device ids without a colon keep the sort keys of different devices apart, whatever the logins hold; a tie then needs a collation that equates two different keys |
| `SafetyLaws.TwoDevices` | frontend/src/crypto/safetyCode.js:20 | Two devices keep their places under a swap if and only if their sort keys do not tie |
| `SafetyLaws.TextInjective` | frontend/src/crypto/safetyCode.js:39 | The hashed text determines the devices, their logins and their fingerprints: with logins of at most 64 characters, which may hold colons and line breaks, none is long enough to be taken for a line |
| `SafetyLaws.EqualCodesMeanEqualDevices` | frontend/src/crypto/safetyCode.js:39-45 | Equal digests mean the same devices with the same public keys in the same order, or a SHA-256 collision, for every login registration accepts |

## Left out

- Real cryptography and the internals of OpenMLS: the ratchet tree, key schedules, signatures and the TLS codec are an abstract epoch machine; a device that is removed itself is not modelled, and proposals change nothing.
- Error classification by message text: error classes are outcomes of the model; a wrong epoch in either direction is `MissingCommit`.
- Decrypting single envelopes for display, custom browser events and WebSocket broadcasts.
- Key packages already claimed when a later claim fails stay consumed on the server; the model keeps no inventory between synchronisations.
- The worker holds one group and one device id; the legacy key shared between devices and the zeroing of buffers are not modelled.
- The legacy JSON form of the provider state (the result is `LegacyJson`), and the memory a forged record count would reserve.
- Which error a validator or the safety code reports first where several apply, beyond the field named by `Payload.ValidateBody`.
- JSON numbers that are not integers, lone surrogates, and the regular expression behind ISO timestamps.
- Sequence numbers in `mls:` message ids beyond the range of a floating-point number.
- Device approval, two-factor login, user deactivation, password hashing, cookies and security events; the rate limiter's part in authentication.
- Handlers, and the commands one Redis operation consists of, are atomic steps; row locks and isolation levels are not modelled, nor the retry after a unique-constraint violation.
- Membership and device checks of the publish handler are answers passed in; the stored rows of interleaved senders are those of one retention period, without purging.
- The message feed's pending-status update, sticker payload fields, media, stickers, chats, roles, invitations, presence and the user interface: each would add only simple members.
- SafetyLaws.TextInjective: takes logins within the 64 characters that registration accepts (app/schemas.py:14), for directories the server built from its users.
- SafetyLaws.EqualCodesMeanEqualDevices: takes the same logins.
- Usernames.AvailableUsername: takes the login already lower-cased, because Unicode case folding and whitespace stripping are not modelled; it holds for every string.
- Usernames.Upgrade: is limited to fewer than ten to the thirtieth users, so that a suffix fits beside the first character of a base.
- RateLimit.RedisLimiter.Check: takes a window of at least one second and times from zero on.
