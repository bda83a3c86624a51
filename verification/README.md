# Verified model of the pseudonym-resolution server and its two-message exchange

This project models the device and server of the hybrid ECC IoT authentication
protocol (Section III exchange of Al-Rasheed et al.) and proves, for every input, every
call sequence and every run, the properties its code and documentation rely on. Verify it
with `dafny verify dfyconfig.toml`.

| File | Part of the system |
|---|---|
| `Terms.dfy` | identities, pseudonyms, keys, sealed bodies, M1 and M2 as symbolic terms |
| `SessionLog.dfy` | replay window, failure counts, block-list and listeners, and whole call sequences |
| `CounterResolvers.dfy` | LinearScan (O1) and CounterTable (O2), their answers and probe costs |
| `ClockResolvers.dfy` | ClockScan (O3), ClockTable (O4), the nonce cache and its replay safety |
| `Rainbow.dfy` | TimeMemoryTable: chains, look-up, coverage, costs |
| `Entities.dfy` | Device, Server, the pairwise-root cache; both sides also as functions on states |
| `Accounts.dfy` | failure accounting of both sides over whole call sequences, and every error answer |
| `ServerRuns.dfy` | whole runs of one server: O2 refines O1, replays detected |
| `Network.dfy` | devices, servers and an adversarial network as one step system, with its invariants |
| `Sessions.dfy` | how often a device completes: sessions counted against builds |
| `Theorems.dfy` | injective authentication and agreement, permanent blocking |
| `ClockReplays.dfy` | when a server with clock epochs accepts one M1 again, for any clock |
| `Lockout.dfy` | the exact lock-out threshold of counter epochs, dropped messages, device restarts |
| `KeyTree.dfy` | the key tree: construction by loops, descent, storage |
| `Rfc4648.dfy` | the base64 of section 4 of RFC 4648 bit by bit, and what it says of the C encoder and decoder |
| `Base64.dfy` | base64 (section 4 of RFC 4648) and 64-bit big-endian integers of the C device |
| `JsonField.dfy` | the M2 text Python prints and the field extractor of the C device (section 7 of RFC 8259) |
| `CDevice.dfy` | json_str as its loops, and hea_complete up to the key-derivation input |

The main results:

- **Injective device authentication with replay state.** In every interleaving of builds,
  deliveries, replays, drops, redirections, injections and device restarts, for all five
  resolvers, each acceptance of an honest device answers to an earlier build of exactly that
  (peer, epoch, N_i) for that server. With counter epochs (O1, O2 and the rainbow tables) no
  two acceptances share a build. With clock epochs (O3, O4), whatever the clock does, an M1
  that still resolves is accepted exactly when every earlier acceptance of it, or of another
  one with the same nonce tag, has been followed by an accept reading of that server, this
  request's own included, beyond epoch + drift. So for clocks that read the same twice during a request and never go back,
  no two acceptances share a build either. The repository's ProVerif model cannot state any
  of this, because it has no replay window (evaluation/formal_verification/README.md:31).
- **Injective key agreement**, with the same N_j and the same K on both sides, for counter
  devices without a restart and for any device whose builds never repeat epoch and N_i together. Behind it,
  for every device: sessions completed and pending never exceed the builds made for them.
- **The exact lock-out threshold**: after any run, some continuation without a
  restart has the server accept the device if and only if the device is not blocked there and an M1 with an epoch in
  reach is in flight or can still be built. For a scan or table that is an epoch in
  last+1 .. last+F; for a rainbow table, a covered epoch above the last one, so that drops
  alone lose the device only once no covered epoch is left. A restart undoes every lock-out
  but a block: with l the last accepted epoch, l + 1 messages are refused and the next
  handshake succeeds.
- **Exact failure accounting** on both sides: a server has blocked a peer if and only if it was
  told to, or max_attempts deliveries that resolved to it failed with no success between, and a
  device a server likewise for failed sessions.
- **Refinements**: the counter table against the scan over whole server runs; the clock
  table against the clock scan after any clock history; the rainbow look-up against the set
  of covered points; the key-tree descent against the device's own tags.
- **Exact probe costs** of every resolver, in closed form, and the exact sizes of the counter
  table, the clock table and the key tree.
- **A round trip across languages**: what the C extractor recovers from the text Python
  prints, what hea_complete makes of every such reply and refusal, and base64 bit by bit.

How things are represented: H2, KDF and AES-GCM are free constructors of datatypes. A
body opens only with the key, IV and associated data it was sealed with; M1 has empty
associated data, M2 has PID and N_i. The secrets of all enrolled entities are pairwise
distinct. Randomness, clock readings, the coverage predicate's answer and the session
time-out are parameters of each call. The adversary redirects, replays, recombines and drops
what is on the wire and may seal anything under any key that is not the pairwise root of
an honest device and an honest server; enrolled peers that are not honest devices are
entirely in its hands.

Where the code does not do what one might expect:

- The clock resolvers read the clock once to resolve and once to accept, and it may be any
  callable. If it ticks in between, or goes back after another request has read it, pruning
  can forget the nonce of a replay, and the replay is accepted: exactly when some accept
  reading since the earlier acceptance, its own included, was beyond epoch + drift
  (`AcceptedByTag`, `AcceptedAgainExactly`). If its own reading is the highest so far, that is exactly when
  the epoch is below that reading minus drift (`AcceptedAgainByOwnReading`). Every clock server
  has such runs (`ClockOutrun`, `ClockGoesBack`, `SmallSystemCouples`).
- The nonce tag joins identity and nonce with a NUL byte. Two identities have a tag in
  common exactly when one of them is the other, a NUL and perhaps more, under nonces that
  differ in length by as much (`TagsMeetExactly`); under the nonces a device draws, of 16, 24
  or 32 bytes, exactly when it is 8 or 16 bytes longer (`DrawnTagsMeetExactly`). With nonces of
  any length a fresh nonce can be refused exactly when two such identities are enrolled
  (`FreshRefusedExactly`), with drawn ones exactly when the difference is 8 or 16
  (`DrawnFreshRefusedExactly`; `NulConfusesTags` has a run), and among nonces of one length never.
- `json_str` finds the first occurrence of the quoted key anywhere in the text. It therefore
  rejects replies of servers whose id, after its last quote, is `nonce`, `ct` or `tag`;
  every other printable id shorter than 32 characters is read back
  exactly, including ids with quotes and backslashes (`ParsesExactly`).
- `KeyTree.resolve` does not check how many tags it is given. The first l tags of device i
  name the peer at i / delta^(depth-l), and no tags at all name peer 0 (`PrefixNamesQuotient`,
  `ShortListNamesAnother`); against an empty tree they raise an IndexError
  (`ResolvesInRange`). The answer is the named device's own message exactly when there
  are depth tags (`OwnMessageExactly`).
- `hea_complete` admits an N_j of up to 64 bytes, and its buffers pass up to 56, but the
  key-input buffer has room for 48: after tag and epoch have been verified, the copies leave
  it exactly when the ciphertext is longer than 56 bytes (`LeavesBufferExactly`,
  `FiftySevenBytes`). N_j of the supported lengths, 16, 24 and 32 bytes, stays inside.
- A listener registered twice is told twice (`ListenersToldExactlyOnce`).

## Model

| member | source | states |
|---|---|---|
| Theorems.InjectiveDeviceAuthentication | implementation/python/hybrid_ecc_auth/protocol/server.py:74-114 | in every run, every acceptance of an honest device has an earlier build by that device for that server with that epoch and N_i; its own one with counter epochs, and with clock epochs unless an accept reading since an acceptance of the same build has left the epoch's window; query Q4 with state |
| ClockReplays.AcceptedByTag | implementation/python/hybrid_ecc_auth/protocol/resolution.py:192-209 | for any clock and identities, an M1 that resolves, unblocked and in coverage, is accepted if and only if every earlier acceptance that left its tag has been followed by an accept reading beyond epoch + drift |
| ClockReplays.AcceptedAgainExactly | implementation/python/hybrid_ecc_auth/protocol/resolution.py:192-209 | the same in terms of (peer, epoch, N_i), when no enrolled identity extends another or the server's nonces have one length: the exact condition for a first and for a repeated acceptance, whatever the clock does |
| ClockReplays.AcceptedAgainByOwnReading | implementation/python/hybrid_ecc_auth/protocol/resolution.py:192-209 | for any identities, with no higher accept reading before: accepted again if and only if the epoch is below its own accept reading minus drift |
| ClockReplays.ClockOutrun | implementation/python/hybrid_ecc_auth/protocol/resolution.py:192-209 | for every clock server and drift, a run in which the clock ticks during a request and one M1 is accepted twice |
| ClockReplays.ClockGoesBack | implementation/python/hybrid_ecc_auth/protocol/resolution.py:192-209 | for every clock server and drift, a run in which the clock goes back between requests and one M1 is accepted twice |
| ClockReplays.SmallSystemCouples | implementation/python/hybrid_ecc_auth/protocol/resolution.py:197-204 | both runs for epoch 5 and drift 1: readings (6, 6) and (6, 7), and readings 5, 8 and 5 |
| ClockReplays.SteadyClockInjective | implementation/python/hybrid_ecc_auth/protocol/resolution.py:176-180 | in every run in which a server's clock stands still during each of its requests and never goes back, no two of its acceptances share a build |
| Theorems.InjectiveKeyAgreement | implementation/python/hybrid_ecc_auth/protocol/device.py:124-151 | in every run, a completed session with key K has an earlier acceptance by that server with the same K, hence the same epoch, N_i, N_j and root; no other session shares it, for a counter device without a restart and for any device whose builds differ in epoch or N_i; query Q5 |
| Sessions.CompletionsWithinBuilds | implementation/python/hybrid_ecc_auth/protocol/device.py:117-128 | in every run, sessions completed and pending for a server, epoch and N_i never exceed the builds made for them |
| Sessions.SessionsDiffer | implementation/python/hybrid_ecc_auth/protocol/device.py:117-128 | when its builds differ, no device completes twice with the same server, epoch and N_i |
| Lockout.LockoutExactly | evaluation/resolution/desync_check.py:49-56 | after any run, a later acceptance without a restart is possible if and only if the device is unblocked and an epoch the server still resolves is in flight or can be built; the counter of a device never restarted exceeds the last accepted epoch |
| Lockout.RestartReopens | evaluation/resolution/desync_check.py:59-65 | after a restart a later acceptance is possible if and only if the device is unblocked and any epoch is in reach; with a scan or table of F >= 1, if and only if it is unblocked |
| Lockout.RestartCatchesUp | evaluation/resolution/desync_check.py:59-65 | with last accepted epoch l, a restarted unblocked device has exactly its first l + 1 messages refused, the server unchanged, and its next handshake succeeds if epoch l + 1 is in reach, which for scan and table means F >= 1 |
| Lockout.DropsLockOut | evaluation/resolution/desync_check.py:49-56 | from either start of the script, before any success or after one: n messages dropped lock a device out of a scan or table exactly from n = F on, and out of a rainbow table exactly when no covered epoch is left |
| Lockout.StartsInStep | evaluation/resolution/desync_check.py:49-53 | both starts, nothing exchanged and one handshake done, have the device one epoch ahead and nobody blocked |
| Lockout.CanReachExactly | implementation/python/hybrid_ecc_auth/storage/session_log.py:46-58 | an epoch in reach can still be built if and only if the counter is at most last + F, or for a rainbow table if a covered epoch is left |
| Lockout.RainbowKeepsStep | implementation/python/hybrid_ecc_auth/protocol/resolution.py:282-287 | after any run the next message of a device is in reach of a rainbow table exactly when its own point is covered below the lifetime, and then the handshake succeeds |
| Lockout.ShutForGood | implementation/python/hybrid_ecc_auth/storage/session_log.py:46-63 | once nothing in reach is in flight or can be built, no later step of any run accepts the device again |
| Lockout.OpenAccepts | implementation/python/hybrid_ecc_auth/storage/session_log.py:46-63 | while something in reach is in flight or can be built, a continuation with an acceptance exists |
| Lockout.NextHandshakeSucceeds | implementation/python/hybrid_ecc_auth/tests/property/test_session_key_agreement.py:1-69 | with the counter in reach (for scan and table, at most last + F) and no blocking, the next delivered handshake completes on both sides with one key (Eq. 20) |
| Theorems.BlockedNeverAccepted | implementation/python/hybrid_ecc_auth/protocol/server.py:79-81 | a blocked peer stays blocked and never again gets an AuthResult, whatever happens |
| Accounts.ServerBlocksExactly | implementation/python/hybrid_ecc_auth/protocol/server.py:77-104 | after any deliveries and operator blocks a server has blocked p if and only if it was told to, or max_attempts deliveries that resolved to p failed coverage, decryption or match with no AuthResult for p between; until then the log counts just those since the last |
| Accounts.DeliveryAccount | implementation/python/hybrid_ecc_auth/protocol/server.py:82-104 | a delivery clears p's count if it gives p an AuthResult, adds one if it resolved to p and failed, and else leaves it |
| Accounts.DeliveryNotices | implementation/python/hybrid_ecc_auth/storage/session_log.py:90-95 | a delivery tells the listeners exactly when it blocks a peer |
| Accounts.OutcomeExactly | implementation/python/hybrid_ecc_auth/protocol/server.py:74-103 | which error answers which M1, for every M1 and state |
| Accounts.DeviceBlocksExactly | implementation/python/hybrid_ecc_auth/protocol/device.py:124-151 | after any calls a device has blocked s if and only if it was told to, or max_attempts sessions pending with s ended late, unopened or with another epoch with no completed one between |
| Accounts.ForgedRoundsBlock | implementation/python/hybrid_ecc_auth/protocol/device.py:101-147 | max_attempts rounds with a forged reply block the server, and fewer do not |
| Accounts.CompletionExactly | implementation/python/hybrid_ecc_auth/protocol/device.py:124-150 | which error answers which M2, for every M2 and state |
| Accounts.BuildsExactly | implementation/python/hybrid_ecc_auth/protocol/device.py:101-122 | when a build is refused and with what, and else the M1, the pending session and the counter |
| Network.RunKeepsInv | implementation/python/hybrid_ecc_auth/protocol/server.py:74-114 | every run keeps the invariant that ties wire, events, server memory, clock readings and device counters together |
| Network.AcceptedBody | implementation/python/hybrid_ecc_auth/protocol/server.py:87-101 | a server accepts an honest device only on a body that this device sealed for it, with that epoch and N_i |
| Network.AgreedBody | implementation/python/hybrid_ecc_auth/protocol/device.py:136-148 | a device completes with an honest server only on that server's reply to this very session |
| Network.NewAcceptanceDiffers | implementation/python/hybrid_ecc_auth/protocol/resolution.py:85-90 | a new acceptance differs in epoch or nonce from every earlier one of that peer at that server, unless an accept reading since then, for any clock, has left the epoch's window |
| Network.NewAgreementApart | implementation/python/hybrid_ecc_auth/protocol/device.py:117-128 | a new completion of a counter device has a higher epoch than every earlier one with that server: a pending session completes at most once |
| ServerRuns.TableRunRefinesScanRun | implementation/python/hybrid_ecc_auth/protocol/resolution.py:103-170 | over whole runs with the same messages, O2 gives O1's outcomes, except that a replay is unknown |
| ServerRuns.SameStates | implementation/python/hybrid_ecc_auth/protocol/server.py:74-104 | both servers pass through equal session logs: same epochs accepted, same failures, same block-list |
| ServerRuns.ReplaysDetected | implementation/python/hybrid_ecc_auth/protocol/resolution.py:103-112 | an accepted pseudonym delivered again is ReplayDetected by a scan while last has moved at most L past it and unknown from then on, and always ReplayDetected by rainbow tables |
| Entities.AcceptsExactly | implementation/python/hybrid_ecc_auth/protocol/server.py:74-104 | the exact condition for an AuthResult: resolution, blocking, coverage, decryption, match, nonce cache |
| Entities.CompletesExactly | implementation/python/hybrid_ecc_auth/protocol/device.py:124-151 | the exact condition for a session key, its value, and that the pending session is used up in any case |
| Entities.HandleEffect | implementation/python/hybrid_ecc_auth/protocol/server.py:87-114 | what one request can change, and the key and reply of an acceptance |
| Entities.CacheEffect | implementation/python/hybrid_ecc_auth/protocol/resolution.py:197-209 | what one request does to a clock server's nonce cache: reaching accept prunes it by the reading, and acceptance adds exactly its tag |
| Entities.ResolveSound | implementation/python/hybrid_ecc_auth/protocol/resolution.py:85-90 | every strategy resolves a pseudonym only to its owner and epoch, unused (counter) or in the window (clock) |
| Entities.Device.BuildAuthRequest | implementation/python/hybrid_ecc_auth/protocol/device.py:101-122 | the method computes the device step: checks in order, M1, pending session, counter |
| Entities.Device.CompleteAuth | implementation/python/hybrid_ecc_auth/protocol/device.py:124-151 | the method computes the device's completion step, failures recorded |
| Entities.Server.ResolvePseudonym | implementation/python/hybrid_ecc_auth/protocol/server.py:64-72 | whichever resolver is attached, the answer is that of its strategy and the server state is unchanged |
| Entities.Server.AcceptRequest | implementation/python/hybrid_ecc_auth/protocol/resolution.py:88-90 | whichever resolver is attached, accept moves log and nonce cache as its strategy says and keeps it consistent |
| Entities.Server.HandleAuthRequest | implementation/python/hybrid_ecc_auth/protocol/server.py:74-114 | the method computes the server step with any of the five resolvers |
| Entities.Server.VerifyAndReply | implementation/python/hybrid_ecc_auth/protocol/server.py:79-114 | block check, coverage, decryption, match, accept, success, key and reply, in that order |
| Entities.RootCache.Get | implementation/python/hybrid_ecc_auth/protocol/entity.py:69-84 | cached or not, the root is the KDF of device secret and server secret in that order, or there is no such peer |
| Entities.RootCache.Invalidate | implementation/python/hybrid_ecc_auth/protocol/entity.py:86-92 | dropping one or all cached roots keeps the cache correct |
| SessionLogs.BlockedExactly | implementation/python/hybrid_ecc_auth/storage/session_log.py:67-95 | after any calls a peer is blocked if and only if it was blocked directly or reached max_attempts failures with no success between |
| SessionLogs.BlockedForever | implementation/python/hybrid_ecc_auth/storage/session_log.py:67-95 | no further calls unblock a peer |
| SessionLogs.ListenersToldExactlyOnce | implementation/python/hybrid_ecc_auth/storage/session_log.py:90-101 | the listeners told about a peer are those registered when it was first blocked, once each, in order |
| SessionLogs.CallStep | implementation/python/hybrid_ecc_auth/storage/session_log.py:60-101 | one call tells the listeners of a peer exactly when it newly blocks that peer |
| SessionLogs.SessionLog.RecordFailure | implementation/python/hybrid_ecc_auth/storage/session_log.py:70-80 | counts, blocks at max_attempts, short-circuits when blocked, and returns whether the peer is now blocked |
| SessionLogs.SessionLog.Block | implementation/python/hybrid_ecc_auth/storage/session_log.py:85-95 | the listener loop appends one notice per listener, only for a newly blocked peer |
| SessionLogs.SessionLog.AcceptEpoch | implementation/python/hybrid_ecc_auth/storage/session_log.py:60-63 | the last accepted epoch becomes the larger of the two and so never moves back; other peers' stay |
| CounterResolvers.LinearScan.Resolve | implementation/python/hybrid_ecc_auth/protocol/resolution.py:103-112 | the nested loops answer by the pseudonym's owner and window, at exactly the cost of ScanCost |
| CounterResolvers.SteadyScanCost | implementation/python/hybrid_ecc_auth/tests/unit/test_resolution.py:79-87 | once every last epoch is at least L: a forgery costs N(L+F+1) probes, the i-th peer's next epoch i(L+F+1) + L + 2 |
| CounterResolvers.ScanStopsAt | implementation/python/hybrid_ecc_auth/protocol/resolution.py:106-111 | a match at the i-th peer costs the earlier peers' windows plus e - lo + 1 and is stale or fresh by its epoch |
| CounterResolvers.ScanExactly | implementation/python/hybrid_ecc_auth/storage/session_log.py:46-58 | over the integers: a replay from last - L to last, a find from last + 1 to last + F, else unknown |
| CounterResolvers.WindowSizes | implementation/python/hybrid_ecc_auth/storage/session_log.py:46-52 | F epochs are probed before any success, min(last, L) + F + 1 after |
| CounterResolvers.TableRefinesScan | implementation/python/hybrid_ecc_auth/protocol/resolution.py:118-125 | with equal tolerance the table answers as the scan, replays becoming unknown |
| CounterResolvers.CounterTable.constructor | implementation/python/hybrid_ecc_auth/protocol/resolution.py:140-145 | attach tables exactly last+1 .. last+F of every peer, at N F precompute probes |
| CounterResolvers.CounterTable.Fill | implementation/python/hybrid_ecc_auth/protocol/resolution.py:151-157 | the refill loop adds exactly the missing epochs of one peer, one probe each |
| CounterResolvers.CounterTable.Resolve | implementation/python/hybrid_ecc_auth/protocol/resolution.py:159-163 | a look-up answers exactly for the epochs last+1 .. last+F |
| CounterResolvers.CounterTable.Accept | implementation/python/hybrid_ecc_auth/protocol/resolution.py:165-170 | accept restores the table invariant for any epoch, at min(e - last, F) probes |
| CounterResolvers.TableSize | implementation/python/hybrid_ecc_auth/tests/unit/test_resolution.py:101-105 | between requests the table has exactly N F entries |
| CounterResolvers.TableStorage | implementation/python/hybrid_ecc_auth/protocol/resolution.py:172-173 | storage is (40 F + 8) N bytes |
| CounterResolvers.AmortisedAcceptCost | implementation/python/hybrid_ecc_auth/protocol/resolution.py:118-125 | over any run the accept probes equal the total distance the last epochs moved |
| ClockResolvers.ClockScan.Resolve | implementation/python/hybrid_ecc_auth/protocol/resolution.py:223-229 | the scan answers exactly for epochs within drift, at its exact position in the peer and window order |
| ClockResolvers.ClockTable.Advance | implementation/python/hybrid_ecc_auth/protocol/resolution.py:251-260 | from any earlier table, whatever the clock did, the table becomes exactly the current window of every peer |
| ClockResolvers.ClockTable.Resolve | implementation/python/hybrid_ecc_auth/protocol/resolution.py:262-267 | the same answer as ClockScan for every pseudonym and reading, no probes counted |
| ClockResolvers.WindowIs | implementation/python/hybrid_ecc_auth/protocol/resolution.py:192-195 | the window list holds exactly the non-negative epochs within drift |
| ClockResolvers.WindowDistinct | implementation/python/hybrid_ecc_auth/protocol/resolution.py:192-195 | no epoch is listed twice |
| ClockResolvers.WindowLength | implementation/python/hybrid_ecc_auth/protocol/resolution.py:192-195 | the window has 1 + drift + min(cur, drift) epochs, the current one first |
| ClockResolvers.WindowOrder | implementation/python/hybrid_ecc_auth/protocol/resolution.py:192-195 | the window's order: current epoch, then k back before k ahead |
| ClockResolvers.ClockScanCostExactly | implementation/python/hybrid_ecc_auth/protocol/resolution.py:223-229 | the probes of any pseudonym in the window, by its peer's position and its distance from the current epoch |
| ClockResolvers.SteadyClockScanCost | implementation/python/hybrid_ecc_auth/tests/unit/test_resolution.py:143-156 | past the drift, a forgery costs N(2 drift + 1) probes and the i-th peer's current pseudonym i(2 drift + 1) + 1 |
| ClockResolvers.AdvanceCost | implementation/python/hybrid_ecc_auth/tests/unit/test_resolution.py:159-171 | an advance costs N probes per epoch the clock has moved, up to a whole window, and none while it stands |
| ClockResolvers.WindowSetSize | implementation/python/hybrid_ecc_auth/tests/unit/test_resolution.py:164-164 | the window set counts 1 + drift + min(cur, drift), so attach costs N(2 drift + 1) probes past the drift |
| ClockResolvers.ClockTableSize | evaluation/resolution/resolution_costs.py:221-222 | the table has N entries per tabled epoch, N(2 drift + 1) past the drift |
| ClockResolvers.AmortisedAdvanceCost | implementation/python/hybrid_ecc_auth/protocol/resolution.py:251-260 | with a nondecreasing clock, precompute probes are N times the number of distinct epochs in all windows seen |
| ClockResolvers.NonceCache.Accept | implementation/python/hybrid_ecc_auth/protocol/resolution.py:197-209 | prune, look, add; refused exactly when the tag is still cached, and then the log is untouched |
| ClockResolvers.RefusedByTag | implementation/python/hybrid_ecc_auth/protocol/resolution.py:197-209 | whatever the clock did, a request is refused if and only if an earlier one left the same tag and epoch and every accept reading since was at most epoch + drift |
| ClockResolvers.RefusedExactly | implementation/python/hybrid_ecc_auth/protocol/resolution.py:197-209 | with no enrolled identity extending another, nor by 8 or 16 bytes with drawn nonces, or with nonces of one length: refused if and only if the same (peer, epoch, N_i) came before and every accept reading since was at most epoch + drift |
| ClockResolvers.FreshRefusedExactly | implementation/python/hybrid_ecc_auth/protocol/resolution.py:202-204 | with nonces of any length, some run refuses a fresh nonce if and only if one enrolled identity is another one, a NUL and perhaps more |
| ClockResolvers.DrawnFreshRefusedExactly | implementation/python/hybrid_ecc_auth/crypto/nonce.py:12-18 | with nonces of 16, 24 or 32 bytes, some run refuses a fresh nonce if and only if one enrolled identity extends another by 8 or 16 bytes |
| ClockResolvers.DrawnTagsMeetExactly | implementation/python/hybrid_ecc_auth/crypto/nonce.py:12-18 | under such nonces two identities share a tag if and only if one extends the other by 8 or 16 bytes |
| ClockResolvers.NoTripleTwice | implementation/python/hybrid_ecc_auth/protocol/resolution.py:176-180 | when both readings of a request agree and the clock never goes back, no (peer, epoch, N_i) is accepted twice |
| ClockResolvers.TickBetweenReadings | implementation/python/hybrid_ecc_auth/protocol/resolution.py:197-204 | a concrete run in which the readings differ and a triple is accepted twice |
| ClockResolvers.TagsMeetExactly | implementation/python/hybrid_ecc_auth/protocol/resolution.py:202-202 | two identities share a tag under nonces of given lengths if and only if one extends the other by the difference |
| ClockResolvers.TagsTellApartExactly | implementation/python/hybrid_ecc_auth/protocol/resolution.py:202-202 | the tag determines identity and nonce if and only if no enrolled identity extends another |
| ClockResolvers.OneLengthTagsDiffer | implementation/python/hybrid_ecc_auth/crypto/nonce.py:15-18 | nonces of one length never share a tag, whatever the identities |
| ClockResolvers.NulConfusesTags | implementation/python/hybrid_ecc_auth/protocol/resolution.py:202-204 | a concrete run with a 24-byte and a 16-byte nonce in which a fresh nonce is refused |
| Rainbow.LookupExact | implementation/python/hybrid_ecc_auth/protocol/resolution.py:344-360 | the look-up returns x if and only if x is covered by a stored chain and f(x) is the pseudonym |
| Rainbow.LookupIsResolution | implementation/python/hybrid_ecc_auth/protocol/resolution.py:362-370 | a pseudonym resolves exactly when its point is covered |
| Rainbow.WalkMeetsChain | implementation/python/hybrid_ecc_auth/protocol/resolution.py:347-350 | reducing the pseudonym of a chain point leads to that chain's end |
| Rainbow.PointInjective | implementation/python/hybrid_ecc_auth/protocol/resolution.py:321-322 | distinct points have distinct pseudonyms |
| Rainbow.UnresolvedCost | implementation/python/hybrid_ecc_auth/protocol/resolution.py:344-360 | an unresolved look-up costs tables x tau(tau-1)/2 plus column + 1 per false alarm |
| Rainbow.LookupBound | implementation/python/hybrid_ecc_auth/protocol/resolution.py:344-360 | no look-up costs more than tables x tau^2 probes |
| Rainbow.TimeMemoryTable.constructor | implementation/python/hybrid_ecc_auth/protocol/resolution.py:327-342 | after attach the keys of each table are exactly the ends of its starts' chains, each with the first start that leads there, at tables x min(chains_per_table, S) x tau precompute probes |
| Rainbow.FirstChainsFound | implementation/python/hybrid_ecc_auth/protocol/resolution.py:336-342 | every pseudonym on the chain of a start that is first of its end is found after attach |
| Rainbow.ReductionsDiffer | implementation/python/hybrid_ecc_auth/protocol/resolution.py:324-325 | two columns and tables reduce a pseudonym alike if and only if S divides the difference of column + 1000003 table |
| Rainbow.ChainSplit | implementation/python/hybrid_ecc_auth/protocol/resolution.py:339-340 | step n of a chain from column c uses column c + n |
| Rainbow.RainbowExactly | implementation/python/hybrid_ecc_auth/protocol/resolution.py:362-370 | found, replayed or unknown, by owner, lifetime, coverage and last epoch |
| Rainbow.ResolvedColumns | implementation/python/hybrid_ecc_auth/protocol/resolution.py:347-360 | a look-up succeeds at its last hit, for the walks and false alarms of the later columns and tau more |
| Rainbow.ResolvedTables | implementation/python/hybrid_ecc_auth/protocol/resolution.py:344-360 | ... after the full cost of the tables before |
| Rainbow.UnresolvedAlarms | implementation/python/hybrid_ecc_auth/protocol/resolution.py:347-359 | false_alarms counts the false alarms |
| Rainbow.TimeMemoryTable.Lookup | implementation/python/hybrid_ecc_auth/protocol/resolution.py:344-360 | the loops visit the cells in the specified order and count probes and false alarms |
| Rainbow.TimeMemoryTable.Resolve | implementation/python/hybrid_ecc_auth/protocol/resolution.py:362-370 | unknown, replayed or found, by coverage and last epoch |
| Rainbow.TimeMemoryTable.CoveredPoints | implementation/python/hybrid_ecc_auth/protocol/resolution.py:375-387 | the set coverage() counts is exactly the points on stored chains |
| KeyTrees.DescentInvertsMessage | evaluation/resolution/rfid_schemes.py:90-108 | device i's message resolves to leaf i at the sum of digit + 1 probes over the levels |
| KeyTrees.ResolvesExactlyOwnTags | evaluation/resolution/rfid_schemes.py:95-108 | a list of depth tags resolves to i if and only if they are i's tags, else to nothing |
| KeyTrees.ResolvesExactly | evaluation/resolution/rfid_schemes.py:95-108 | tags of any number resolve to a node if and only if they are its tags and it is the root or in the tree |
| KeyTrees.PrefixNamesQuotient | evaluation/resolution/rfid_schemes.py:95-108 | the first l tags of device i name the peer at i / delta^(depth-l) |
| KeyTrees.OwnMessageExactly | evaluation/resolution/rfid_schemes.py:90-108 | an answer is the named device's own message if and only if there are depth tags |
| KeyTrees.OwnAnswer | evaluation/resolution/rfid_schemes.py:90-108 | device i's message is answered with peer i |
| KeyTrees.PrefixAnswer | evaluation/resolution/rfid_schemes.py:95-108 | its first l tags are answered with the peer at i / delta^(depth-l) |
| KeyTrees.NoOtherAnswer | evaluation/resolution/rfid_schemes.py:95-108 | None if and only if the tags are no node's |
| KeyTrees.FailedCost | evaluation/resolution/rfid_schemes.py:95-106 | a list that leads to a node and none of its children costs digit + 1 a level and one probe for each child |
| KeyTrees.ChildrenExactly | evaluation/resolution/rfid_schemes.py:77-81 | a node's children are 0 .. k-1 and no more |
| KeyTrees.ShortListNamesAnother | evaluation/resolution/rfid_schemes.py:95-108 | of four devices, the first tag of device 2 names peer 1 and no tags name peer 0 |
| KeyTrees.ResolvesInRange | evaluation/resolution/rfid_schemes.py:95-108 | whatever resolves is an enrolled index, except no tags against no peers |
| KeyTrees.DescendCostBound | evaluation/resolution/resolution_costs.py:258-262 | resolving any tags costs at most delta probes a tag |
| KeyTrees.StorageClosedForm | evaluation/resolution/resolution_costs.py:306-309 | storage_bytes is 32 times the sum of ceil(n / delta^(d-l)) over levels 1 .. d-1 |
| KeyTrees.CountIsCeil | evaluation/resolution/resolution_costs.py:308-308 | the distinct path prefixes of 0 .. m-1 number ceil(m / delta^k) |
| KeyTrees.IndexOfPrefix | evaluation/resolution/rfid_schemes.py:83-88 | a path prefix read as a number is i without its low digits |
| KeyTrees.AddNode | evaluation/resolution/rfid_schemes.py:77-81 | adding the next node of a level keeps every child list 0, 1, .., k-1 |
| KeyTrees.KeyTree.constructor | evaluation/resolution/rfid_schemes.py:68-81 | the nested loops build exactly the nodes of 0 .. n-1 |
| KeyTrees.KeyTree.PathOf | evaluation/resolution/rfid_schemes.py:83-88 | the digit loop yields the base-delta path, most significant digit first |
| KeyTrees.KeyTree.Resolve | evaluation/resolution/rfid_schemes.py:95-108 | the loops compute the descent and its probe count |
| Base64.RoundTrip | implementation/c/lib/hea_proto/hea_proto.c:20-61 | decoding the encoding of any byte string gives it back |
| Rfc4648.EncodesExactly | implementation/c/lib/hea_proto/hea_proto.c:18-33 | character i of the encoding is the table's character of bits 6i .. 6i+5 while there are any, and = from there on |
| Rfc4648.DecodesExactly | implementation/c/lib/hea_proto/hea_proto.c:35-55 | a text decodes if and only if its length is a multiple of four and each character is of the table, or = in one of the last two places of its group |
| Rfc4648.GroupDecodesExactly | implementation/c/lib/hea_proto/hea_proto.c:35-59 | the bytes of every group, padded or not, from its six-bit values |
| Base64.EncodedLength | implementation/c/lib/hea_proto/hea_proto.c:20-33 | 4 ceil(n/3) characters |
| Base64.B64Encode | implementation/c/lib/hea_proto/hea_proto.c:20-33 | writes the encoding, a NUL, and nothing else |
| Base64.B64Decode | implementation/c/lib/hea_proto/hea_proto.c:45-61 | decodes what is well formed and fits, else -1; never writes past the capacity |
| Base64.U64RoundTrip | implementation/c/lib/hea_proto/hea_proto.c:93-100 | put and get are inverse on all 64-bit values and all 8-byte strings |
| Rfc4648.BigEndianExactly | implementation/c/lib/hea_proto/hea_proto.c:93-95 | byte i of k is v / 256^(k-1-i) modulo 256 |
| Base64.PutU64 | implementation/c/lib/hea_proto/hea_proto.c:93-95 | writes the eight big-endian bytes and nothing else |
| Base64.GetU64 | implementation/c/lib/hea_proto/hea_proto.c:96-100 | reads the eight bytes as one number, within 64 bits |
| JsonField.ParsesExactly | implementation/c/lib/hea_proto/hea_proto.c:190-204 | for every printable server id and base64 fields of any length, all four fields come back as printed if the text and fields fit the buffers and the id is clean, and else there is an error |
| JsonField.ReadsEscaped | implementation/c/lib/hea_proto/hea_proto.c:77-89 | reading an escaped string gives it back if it fits, else fails |
| JsonField.ReadsExactly | implementation/c/lib/hea_proto/hea_proto.c:76-89 | a value is read as v if and only if the text starts with a spelling of v, of plain characters and the four known escapes, and a closing quote, and v fits |
| JsonField.FirstOccurrence | implementation/c/lib/hea_proto/hea_proto.c:68-72 | the text after the first place the pattern stands at, or nothing |
| JsonField.SkipsColonsExactly | implementation/c/lib/hea_proto/hea_proto.c:73-73 | exactly the leading blanks and colons are skipped |
| JsonField.EscapesExactly | implementation/python/hybrid_ecc_auth/protocol/messages.py:82-91 | a backslash before quotes and backslashes and nowhere else |
| JsonField.PrintsM2Exactly | implementation/python/hybrid_ecc_auth/protocol/messages.py:82-91 | the text of M2, character by character |
| JsonField.PrintsEnvelopesExactly | implementation/python/hybrid_ecc_auth/demo/_transport.py:49-54 | both envelopes, character by character |
| JsonField.FindsWholePart | implementation/c/lib/hea_proto/hea_proto.c:68-71 | the search finds the first text between two quotes that is the whole key |
| JsonField.KeyAmongParts | implementation/python/hybrid_ecc_auth/protocol/messages.py:82-91 | a key hides in a printed id exactly when it is what follows the id's last quote |
| CDevice.FieldsRoundTrip | implementation/python/hybrid_ecc_auth/protocol/messages.py:82-91 | the exact extraction result and the decoded binary fields, for every ciphertext the buffers hold |
| CDevice.CompletesExactly | implementation/c/lib/hea_proto/hea_proto.c:181-232 | what hea_complete makes of every M2 Python prints, for any id, IV, ciphertext and tag: each error code, the key input, or the overrun |
| CDevice.RefusesExactly | implementation/c/lib/hea_proto/hea_proto.c:190-200 | a refusal is reported if and only if the envelope fits and says ok true nowhere |
| CDevice.RefusalReported | implementation/python/hybrid_ecc_auth/demo/_transport.py:53-54 | every refusal Python prints in ASCII that fits is reported as one, whatever its texts say |
| CDevice.SameKeyInput | implementation/c/lib/hea_proto/hea_proto.c:181-232 | for N_j of every length the buffers pass: hea_complete derives its key from the bytes Python uses exactly when the server id is clean and N_j has 1 to 48 bytes; else a format error, or beyond 48 bytes an overrun |
| CDevice.LeavesBufferExactly | implementation/c/lib/hea_proto/hea_proto.c:209-229 | whatever the reply, the copies leave the key-input buffer exactly when tag and epoch of a ciphertext longer than 56 bytes were accepted |
| CDevice.FiftySevenBytes | implementation/c/lib/hea_proto/hea_proto.c:224-229 | a concrete 57-byte ciphertext for which they do |
| CDevice.UncleanIds | implementation/c/lib/hea_proto/hea_proto.c:67-72 | concrete ids the extractor cannot read past |
| CDevice.JsonStr | implementation/c/lib/hea_proto/hea_proto.c:67-90 | the loops compute the specified field; nothing is written past the capacity |
| CDevice.WriteKeyInput | implementation/c/lib/hea_proto/hea_proto.c:224-230 | of the N_j the guard admits, the copies stay inside the buffer exactly up to 48 bytes, and then it holds k* in bytes 0-31, N_i in 32-47, N_j and the eight-byte epoch, the bytes of derive_session_key |

## Left out

- SHA-256, HKDF, AES-GCM and P-256 themselves: foreign libraries, kept as free constructors.
- `json.loads`, Python's `base64` and malformed-message handling in `from_bytes`: library parsing; M1 and M2 reach the protocol model decoded.
- Enrolment (`ta.py`): taken as given, with pairwise distinct secrets; hash collisions of H1 are not modelled.
- Epochs of 2^64 and more, which `struct.pack` refuses: epochs are unbounded naturals in the protocol model.
- Negative forward tolerance, look-back or drift, and epochs before zero: parameters are naturals.
- Theorems.InjectiveKeyAgreement: that random N_i do not repeat is a premise on the run (BuildsDiffer), as randomness is not modelled.
- Block listeners that call back into the session log: a listener call is a recorded notice.
- The order in which ClockTable fills several new epochs: any order, since the table does not depend on it.
- Rainbow tables over no peers, where the reduction divides by zero, and the floating-point defaults of `chain_length`: chain length and starts are parameters.
- The depth of the key tree is a parameter with delta^depth >= n and depth >= 1, in place of the floating-point logarithm.
- coverage() as a fraction: the set it counts is modelled, the division is not.
- The printing of M1 by the C device and its buffers, and keys longer than the 21 characters `pat` holds: fixed layouts that would only add easy members.
- Control characters and non-ASCII server ids, which Python prints as \u escapes the C extractor rejects.
- RandomizedHashLock, `access_control_gate`, `current_pseudonym` without a build, nonce-cache and rainbow storage formulas in bytes: easy members.
- The error text hea_complete writes for a refusal: only the code it returns is modelled.
- Sockets, CLIs, firmware, key files, the OMNeT++ simulation and all statistical claims.
