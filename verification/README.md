# Tabbify service mesh: a verified model of the control plane

This project models, in Dafny, the part of the mesh that keeps state and makes promises about
it: the coordinator's two-lane relay and its router, the address allocator, the peer roster with
registration and restart, the hole-punch tracker, the access policy with identity stamping and
its versioned store, the joiner's signed-command gate with the heartbeat that carries its acks,
the reboot guard, and the STUN binding codec that the two crates share.

`dafny verify dfyconfig.toml` verifies all of it.

| file | what it models |
|---|---|
| `RelayLine.dfy` | one destination pubkey of the relay: sockets, spool, every operation, and runs |
| `RelayOutcome.dfy` | what becomes of one frame, told from the two slots alone |
| `RelayConservation.dfy` | what every run of the relay keeps: no frame lost or doubled, bulk order, lane contents |
| `RelayOwnership.dfy` | who owns a lane slot, with `unregister` split at its two lock scopes |
| `RelayHandshakes.dfy` | exactly which steps let a handshake frame overtake another |
| `RelayAge.dfy` | how old a frame can be when it is handed over |
| `RelayLimits.dfy` | two reachable runs in which handshake order and the naive age bound fail |
| `RelayRegistry.dfy` | the registry as a class; every method is one step of `RelayLine` for its pubkey |
| `RelayRouter.dfy` | the frame codec, the lanes, and routing one uplink frame |
| `RelayWorld.dfy` | the relay with roster, policy and wake gate in one run: where every frame comes from |
| `Visibility.dfy` | relay permission and the roster view a peer is given |
| `Ula.dfy`, `UlaAllocator.dfy` | address layout; the compare-exchange loops under any interleaving |
| `Roster.dfy`, `Registration.dfy` | roster, index and counters; the register transaction |
| `RegisterOutcome.dfy` | when a register succeeds, and the condition of each error |
| `RegistrationSteps.dfy` | the same transaction with heartbeats and leaves at its await points |
| `ReservedAddress.dfy` | when the allocator hands out the reserved address in its range |
| `Snapshot.dfy`, `Restart.dfy` | the durable roster; a restart as a joiner sees it |
| `Coordinator.dfy` | the coordinator as a class: apply seam, restore, reaper, `route_uplink` |
| `HolePunch.dfy` | re-emit cooldown with its 64-bit shift, cold-start budget, tracker |
| `PunchBudget.dfy` | first emits a second over runs of the whole tracker |
| `PunchSweep.dfy` | the reaper against the back-off |
| `Policy.dfy`, `Identity.dfy`, `PolicyStore.dfy` | allow-graph and validator; identity stamping; ETags and replace |
| `Commands.dfy`, `Heartbeat.dfy` | command gate and executor; heartbeat tick, acks, re-register |
| `RebootGuard.dfy` | the sliding-window reboot limit |
| `Stun.dfy` | binding request, response and XOR-MAPPED-ADDRESS parser (RFC 5389, sections 6, 15 and 15.2) |
| `Words.dfy`, `Prelude.dfy` | exclusive-or and FNV-1a on machine words; shared small types |

## How to read it

State that the source changes in place is a class whose methods are proved equal to a function
of the old state. The properties are then lemmas about those functions, stated over whole runs:
`Reaches(before, ops, after)` says that `after` follows from `before` by the operations `ops`, in
any order and interleaving that the operations allow.

Histories are part of the state where a property is about the past: `submitted` and `fates` of a
relay line, `issued` of the mesh, `executed`, `received`, `settled` and `marks` of a joiner. No
operation reads them.

Clocks, minted ids, nonces, signature checks, JSON serialisation and the success of file writes
are parameters. Integers are unbounded except where the width matters: the index counter is 16
bits wide, the streak and the budget counter 32, the cooldown shift, the hashes and the nonce 64.

### Where the code and its own text differ

The model follows the code.

- `reemit_cooldown` is documented to saturate. `checked_shl` looks only at the shift amount, so at
  streaks 40-42, 45, 48-50 and 55-63 the cooldown is negative or zero
  (`HolePunch.CooldownFollowsLawExactly`, `HolePunch.DecayBreaksAfter41`).
- The cold-start window is called rolling. It is a fixed window that opens at the first attempt
  after the previous one ended, so up to 15 first emits can fall into one second
  (`PunchBudget.FifteenAttained`); when 8 is the bound is `PunchBudget.EightExactly`.
- The reaper is documented never to take a merely quiet pair. The cooldown grows to the very time
  to live, so a decayed pair can be forgotten before it is claimed again (`PunchSweep.LivePairSafeExactly`).
- A holder with a current heartbeat is documented never to be evicted. A heartbeat that arrives
  between the decision and the removal comes too late (`RegistrationSteps.EvictedSilentExactly`).
- A failed re-register is documented to be retried on the next tick. The guard stays up until some
  heartbeat succeeds (`Heartbeat.FailedReRegisterIsNotRetried`).
- Index 0 is documented as the reserved one. The third address of the unnamed network is reserved
  too, and the allocator hands it out (`ReservedAddress.AllocatesReservedExactly`).
- `PolicyStore::bootstrap` is described with two rules. `Policy::bootstrap` has one.
- `validate` is described for accept rules. It looks at the sources of every rule.

## Model

| member | source | states |
|---|---|---|
| RelayConservation.EveryFrameAccountedOnce | crates/mesh-coordinator/src/relay/registry.rs:172-315 | in every run, the flush inside `register` included, each frame given to `forward` occurs exactly once among the frames handed to a channel, held in the spool, or discarded for a named reason, and nothing else occurs there |
| RelayConservation.BulkNeverReordered | crates/mesh-coordinator/src/relay/registry.rs:172-248 | over a whole run and across reconnects the bulk frames handed over, followed by those still held, are in arrival order; a bulk frame is held only while the lo slot is empty or its receiver closed |
| RelayConservation.StepSound | crates/mesh-coordinator/src/relay/registry.rs:172-315 | every operation keeps the joint invariant: balance, bulk order, queues that are the unreceived end of what was handed to them, distinct ids, hi purity, spool bound, no empty entry |
| RelayConservation.FlushSound | crates/mesh-coordinator/src/relay/registry.rs:180-191 | re-forwarding any list of held frames one by one, some stale, some held again, keeps the joint invariant |
| RelayConservation.RunSound | crates/mesh-coordinator/src/relay/registry.rs:172-315 | the joint invariant holds after any run |
| RelayOutcome.RouteOutcomeExactly | crates/mesh-coordinator/src/relay/registry.rs:214-248 | the socket of a frame being hi for a handshake when present and lo otherwise, the frame is held if and only if that socket is absent or closed, discarded as congestion if and only if it is open and full, and queued on it if and only if it is open with room; nothing else changes |
| RelayOutcome.ForwardOutcomeExactly | crates/mesh-coordinator/src/relay/registry.rs:214-248 | the same for `forward` |
| RelayOutcome.FlushExpiresExactly | crates/mesh-coordinator/src/relay/registry.rs:180-191 | a flushed frame expires if and only if it was held for more than two seconds, and is otherwise routed like a new one |
| RelayOutcome.RegisterInstalls | crates/mesh-coordinator/src/relay/registry.rs:172-193 | after a register the lane holds the new socket under its id, the other lane its old one, each with at most more frames queued |
| RelayOutcome.SweepExpiresExactly | crates/mesh-coordinator/src/relay/registry.rs:305-315 | the sweep removes exactly the frames held for more than two seconds and touches no socket |
| RelayOutcome.LeaveClearsExactly | crates/mesh-coordinator/src/relay/registry.rs:275-278 | a leave closes both lanes and clears every held frame, in order |
| RelayOwnership.StepEndsExactly | crates/mesh-coordinator/src/relay/registry.rs:172-300 | one step ends a registration if and only if it is its own id's unregister, a newer registration on its lane, `drop_pubkey`, or a reap after its receiver closed |
| RelayOwnership.RegistrationEndsOnlyFor | crates/mesh-coordinator/src/relay/registry.rs:254-300 | in any run that loses a registration there is such a step, in a state that still held it |
| RelayOwnership.EndedForGood | crates/mesh-coordinator/src/relay/registry.rs:172-178 | a registration that is gone never comes back |
| RelayOwnership.NoEmptyEntry | crates/mesh-coordinator/src/relay/registry.rs:254-300 | whenever no unregister is half done, no pubkey maps to an empty pair of lanes |
| RelayOwnership.LanesStayPure | crates/mesh-coordinator/src/relay/registry.rs:52-75 | hi channels and hi hand-overs hold handshake frames only; each queue is bounded and is the end of exactly what was handed to that socket, in order |
| RelayOwnership.HandshakeFallsBackOnlyWithoutHi | crates/mesh-coordinator/src/relay/registry.rs:61-75 | in no step, flushes included, does a handshake frame enter a lo channel while the hi slot is taken |
| RelayOwnership.RegisterDeliversHeldFrames | crates/mesh-coordinator/src/relay/registry.rs:166-193 | registering a live socket with room for the spool hands it every young frame held for its lane and evicts none |
| RelayOwnership.HoldKeepsNewest | crates/mesh-coordinator/src/relay/registry.rs:235-248 | after a hold the spool is the end of the old spool with the new frame behind it, cut to the newest 16 |
| RelayHandshakes.ForwardInOrderExactly | crates/mesh-coordinator/src/relay/registry.rs:214-233 | a handshake frame given to `forward` keeps the handshake frames, handed and then held, in arrival order if and only if it is not taken by an open channel while another one is held |
| RelayHandshakes.StepInOrderExactly | crates/mesh-coordinator/src/relay/registry.rs:172-315 | over all operations, flushes and reaps included, a step keeps that order if and only if it is not such a `forward` |
| RelayHandshakes.HandshakesInOrderExactly | crates/mesh-coordinator/src/relay/registry.rs:172-315 | every state of a run has its handshake frames in order if and only if no step of the run overtakes |
| RelayAge.AgeBoundedByHolds | crates/mesh-coordinator/src/relay/registry.rs:98-101 | in every run each frame handed over is at most holds times the spool time to live old, so a frame held once is never older than it |
| RelayLimits.HandshakesCanBeReordered | crates/mesh-coordinator/src/relay/registry.rs:69-75 | a reachable run in which two handshake frames are handed over in the opposite order |
| RelayLimits.HeldAgainStampedAnew | crates/mesh-coordinator/src/relay/registry.rs:238-248 | a reachable run in which a frame held twice is handed over at twice the spool time to live, so the age bound by holds is attained |
| RelayLine.Keep | crates/mesh-coordinator/src/relay/registry.rs:305-315 | only frames of the queue, none of them stale, survive the expiry sweep |
| RelayRegistryModel.RelayRegistry.PushSpool | crates/mesh-coordinator/src/relay/registry.rs:238-248 | holds a frame, evicting the oldest at the cap; other pubkeys unchanged |
| RelayRegistryModel.RelayRegistry.Send | crates/mesh-coordinator/src/relay/registry.rs:214-233 | routes one frame as `RelayLine.Route` and reports delivery exactly when a channel took it; other pubkeys unchanged |
| RelayRegistryModel.RelayRegistry.ForwardFrame | crates/mesh-coordinator/src/relay/registry.rs:214-233 | one step `RelayLine.Forward` of its pubkey; other pubkeys unchanged |
| RelayRegistryModel.RelayRegistry.RegisterConn | crates/mesh-coordinator/src/relay/registry.rs:172-193 | one step `RelayLine.Register` under a fresh id, the flush loop included; other pubkeys unchanged |
| RelayRegistryModel.RelayRegistry.FlushHeld | crates/mesh-coordinator/src/relay/registry.rs:180-191 | the flush loop computes `RelayLine.Flush` |
| RelayRegistryModel.RelayRegistry.Unregister | crates/mesh-coordinator/src/relay/registry.rs:254-270 | both lock scopes in sequence; other pubkeys unchanged |
| RelayRegistryModel.RelayRegistry.ClearSlot | crates/mesh-coordinator/src/relay/registry.rs:255-264 | the first lock scope clears the slot only for a matching id |
| RelayRegistryModel.RelayRegistry.RemoveIfEmpty | crates/mesh-coordinator/src/relay/registry.rs:265-269 | the second lock scope removes the entry only if it is still empty |
| RelayRegistryModel.RelayRegistry.DropPeer | crates/mesh-coordinator/src/relay/registry.rs:275-278 | removes sockets and spool of one pubkey and nothing of another |
| RelayRegistryModel.RelayRegistry.ReapClosedConns | crates/mesh-coordinator/src/relay/registry.rs:286-300 | every pubkey takes the step `RelayLine.ReapClosed`, lane by lane, and the number returned is that of the sockets closed before |
| RelayRegistryModel.RelayRegistry.ReapExpiredSpool | crates/mesh-coordinator/src/relay/registry.rs:305-315 | every pubkey takes the step `RelayLine.ReapExpired`, and the number returned is that of the frames dropped |
| RelayRegistryModel.RelayRegistry.TakeWakeSlot | crates/mesh-coordinator/src/relay/registry.rs:148-164 | a wake is granted exactly when none was granted for that destination within the cooldown, and then the cooldown is armed |
| RelayRouter.DecodeExact | crates/mesh-coordinator/src/relay/frame.rs:15-31 | decoding yields a key and payload if and only if the buffer is their encoding, the key has 32 bytes and the payload is not empty |
| RelayRouter.LanesExactly | crates/mesh-coordinator/src/http/relay.rs:45-100 | the query `hi` and no other asks for the handshake lane, with 1024 places; every other gets 256 |
| RelayWorld.EveryFrameAttributed | crates/mesh-coordinator/src/http/relay.rs:110-135 | over any run of uplinks, socket events, registrations, heartbeats, leaves and policy changes, every frame queued, held or handed over is an uplink of the run with the sender's pubkey in front and the payload unchanged, and in the state that uplink met both ends were in the roster and the policy let them see each other |
| RelayWorld.UplinkExactly | crates/mesh-coordinator/src/http/relay.rs:110-135 | an uplink reaches a line if and only if it is long enough, names it, and roster and policy let the pair meet; the bytes behind the key are kept; it is a handshake frame if and only if the message type is 1, 2 or 3, rides an open hi socket with room and leaves lo alone; any other type leaves hi alone |
| RelayWorld.WakesExactly | crates/mesh-coordinator/src/http/relay.rs:130-196 | a destination is woken if and only if such a frame has message type 1, no socket takes it, the gate is on and five seconds have passed since the last wake; the wake names the destination and the sender's address |
| RelayWorld.DepartsExactly | crates/mesh-coordinator/src/roster/apply.rs:141-165 | sockets and spool of a pubkey are dropped if and only if the operation takes the pubkey out of the index |
| RelayWorld.HiChannelHoldsHandshakes | crates/mesh-coordinator/src/http/relay.rs:123-135 | in every state reached through the router, a frame in a hi channel carries message type 1, 2 or 3 |
| RelayWorld.SpoolOnlyForMembers | crates/mesh-coordinator/src/roster/apply.rs:141-152 | over any run a pubkey's spool holds frames only while the pubkey is in the index |
| RelayWorld.WakesAreSpaced | crates/mesh-coordinator/src/relay/registry.rs:143-164 | over any run, however many inits arrive, two wakes of one destination are at least 5 s apart |
| RelayRouter.ReconnectReceivesHeldFrames | crates/mesh-coordinator/src/http/relay.rs:46-100 | with the real channel capacities and any lane query, a reconnecting socket is handed every young frame held for its lane |
| Visibility.VisiblePeers | crates/mesh-coordinator/src/roster/filter.rs:82-99 | the view lists exactly the other peers the policy lets the viewer see, each once, ordered by index |
| Visibility.RelayAgreesWithDirectView | crates/mesh-coordinator/src/roster/filter.rs:56-99 | for two different peers, relay permission equals membership in the visible roster, in both directions or in neither |
| Visibility.LeftPeerIsNotRelayed | crates/mesh-coordinator/src/roster/apply.rs:141-165 | after a leave the peer can neither send nor be reached over the relay, and permission between all others is as before |
| CoordinatorModel.Coordinator.RouteUplink | crates/mesh-coordinator/src/http/relay.rs:110-200 | every pubkey's line takes exactly the step `RelayRouter.RouteOn`, which is none unless the frame names it and roster and policy accept; the frame is returned exactly when delivered; a wake is sent and its cooldown armed exactly for an accepted, undelivered init with the gate on and the cooldown over, so only for message type 1 |
| CoordinatorModel.Coordinator.ApplyPeerJoined | crates/mesh-coordinator/src/roster/apply.rs:27-103 | updates roster, index and counter as `Roster.ApplyJoined`, conflicts and malformed events included |
| CoordinatorModel.Coordinator.ApplyPeerHeartbeat | crates/mesh-coordinator/src/roster/apply.rs:108-137 | updates the roster as `Roster.ApplyHeartbeat`; unknown and malformed ids change nothing |
| CoordinatorModel.Coordinator.ApplyPeerLeft | crates/mesh-coordinator/src/roster/apply.rs:141-165 | erases the peer from roster, index, relay sockets, spool and punch pairs, and leaves every other peer's line and pair unchanged |
| CoordinatorModel.Coordinator.Restore | crates/mesh-coordinator/src/roster/coordinator/mod.rs:544-560 | replays a snapshot event by event as `Snapshot.Replay` |
| CoordinatorModel.Coordinator.ReapStaleResources | crates/mesh-coordinator/src/roster/coordinator/mod.rs:843-865 | reaps closed sockets, expired frames and punch pairs older than their time to live, and nothing else |
| UlaAllocatorModel.EveryInterleavingSafe | crates/mesh-coordinator/src/roster/allocator.rs:87-147 | from a new slot, for any number of threads interleaving loads and compare-exchanges and at any two points of the run: no index granted twice, grants strictly increase, the counter never goes back, a finished bump leaves it at its target or beyond, `Exhausted` only once it stands at 65535, where it stays |
| UlaAllocatorModel.LastStepIsAtomic | crates/mesh-coordinator/src/roster/allocator.rs:87-147 | the loops refine atomic operations: a thread's last step is its atomic operation with the same result, and no other step moves the counter |
| UlaAllocatorModel.UndisturbedFinishes | crates/mesh-coordinator/src/roster/allocator.rs:87-147 | an undisturbed thread finishes in one load and one exchange: the index after the counter or exhaustion, and for a bump the larger of counter and target |
| Ula.NetworkSlot | crates/mesh-coordinator/src/roster/allocator.rs:156-170 | a network's block is a 16-bit fold of its hash, and block 0 belongs to the unnamed network alone |
| Ula.NetworkSlotExactly | crates/mesh-coordinator/src/roster/allocator.rs:156-170 | a named network's block is the exclusive-or of the four 16-bit lanes of its hash, with 0 replaced by 1 |
| Ula.IssuedIsFixedInfraOnlyOnce | vendor/tabbify-join-contract/src/ula.rs:27-48 | an issued address is a reserved one if and only if it is the third of the unnamed network |
| ReservedAddress.AllocatesReservedExactly | crates/mesh-coordinator/src/roster/allocator.rs:76-115 | an allocation yields a reserved address if and only if it is for the unnamed network and that network's counter stands at two |
| ReservedAddress.ThirdPlainNodeGetsLegacyAddress | crates/mesh-coordinator/src/roster/coordinator/registration.rs:555-606 | a run of three registers without claims, from an empty mesh, whose third receives the legacy registry address |
| Words.HashBytes | crates/mesh-coordinator/src/roster/allocator.rs:173-182 | the hash loop computes 64-bit FNV-1a |
| Words.Fnv1aExactly | crates/mesh-coordinator/src/roster/allocator.rs:173-182 | the hash starts at the offset basis, and one more byte is exclusive-or, then times the prime modulo 2^64 |
| Words.XorBit | crates/mesh-coordinator/src/roster/allocator.rs:156-182 | a bit of the exclusive-or is set if and only if exactly one of the two bits is |
| Roster.JoinKeepsIndexExactlyWhenPaired | crates/mesh-coordinator/src/roster/apply.rs:27-103 | an accepted join keeps roster and index inverse if and only if its id and pubkey are both new or already belong together |
| Roster.JoinConsistent | crates/mesh-coordinator/src/roster/apply.rs:27-103 | paired joins keep roster and index inverse, addresses distinct and counters ahead of every address |
| Roster.JoinExactly | crates/mesh-coordinator/src/roster/apply.rs:27-103 | a join is malformed if and only if id or address does not parse, a conflict if and only if another peer has the address, and otherwise stores what the event says and changes no other peer |
| Roster.LeaveConsistent | crates/mesh-coordinator/src/roster/apply.rs:141-165 | leaves keep the same |
| Roster.LeaveExactly | crates/mesh-coordinator/src/roster/apply.rs:141-165 | a leave removes exactly its peer and its key |
| Roster.HeartbeatConsistent | crates/mesh-coordinator/src/roster/apply.rs:108-137 | heartbeats keep the same |
| Roster.HeartbeatKeepsIdentity | crates/mesh-coordinator/src/roster/apply.rs:108-137 | a heartbeat moves no id, key, address, network or tag, touches one peer only, takes a version it carries and keeps the known one otherwise |
| Roster.AllocationFresh | crates/mesh-coordinator/src/roster/allocator.rs:76-115 | an allocated address differs from every one in the roster and every one issued, and allocation fails exactly when the block's counter is at its maximum |
| Registration.RegisterSafe | crates/mesh-coordinator/src/roster/coordinator/registration.rs:95-224 | every register keeps the mesh consistent, stores its result under its own id, and disturbs nobody but a silent holder of the address it asks for; a conflict is reported only for an address a live peer holds |
| RegisterOutcome.FirstTimeSucceedsExactly | crates/mesh-coordinator/src/roster/coordinator/registration.rs:95-224 | a new pubkey registers if and only if its wish is authorised, its key has 32 bytes and, without a wish, the block is not used up or, with one, the address is unique local, in its own block, reserved or outside the host range, and no live peer holds it; it gets the address wished for or the next of its block |
| RegisterOutcome.FirstTimeFailsExactly | crates/mesh-coordinator/src/roster/coordinator/registration.rs:95-224 | each error of such a register has its condition as an if-and-only-if, and no other error occurs |
| RegisterOutcome.ReRegisterSucceedsExactly | crates/mesh-coordinator/src/roster/coordinator/registration.rs:303-434 | a known pubkey registers again if and only if it is authorised, has 32 bytes, and stays in its network or the block its claims name is not used up; each error has its condition |
| RegisterOutcome.ResolveExactly | crates/mesh-coordinator/src/roster/coordinator/registration.rs:555-606 | every outcome of resolving an address with its condition |
| RegisterOutcome.AuthorisedExactly | crates/mesh-coordinator/src/roster/coordinator/registration.rs:621-648 | a reserved address needs a token that lists it; any other wish only has to parse |
| Registration.FirstTimeSafe | crates/mesh-coordinator/src/roster/coordinator/registration.rs:463-522 | the same for evict, resolve and join together: after the address is resolved the join never fails |
| Registration.RefreshSafe | crates/mesh-coordinator/src/roster/coordinator/registration.rs:303-434 | the same for a known pubkey, which keeps its peer id |
| Registration.ReRegisterMovesOnlyByClaims | crates/mesh-coordinator/src/roster/coordinator/registration.rs:303-434 | a re-register changes the address if and only if validated claims name another network, and then to a never issued address in that network's block |
| Registration.RegisterStampsEntry | crates/mesh-coordinator/src/roster/coordinator/registration.rs:95-434 | on both paths the stored entry shows the stamped tags and network and what the request reports; an omitted version or observed address is not erased |
| RegistrationSteps.EveryInterleavingSafe | crates/mesh-coordinator/src/roster/coordinator/registration.rs:126-216 | with heartbeats and leaves at every await point of every register the mesh stays consistent, and no register fails at its join |
| RegistrationSteps.JoinSucceeds | crates/mesh-coordinator/src/roster/coordinator/registration.rs:156-190 | whatever came between resolving and joining, the join succeeds at the resolved address and changes no other peer |
| RegistrationSteps.UninterruptedIsRegister | crates/mesh-coordinator/src/roster/coordinator/registration.rs:95-224 | left alone, the steps are the atomic register |
| RegistrationSteps.EvictedSilentExactly | crates/mesh-coordinator/src/roster/coordinator/registration.rs:463-522 | at its removal an evicted holder is still silent if and only if it was not heard from, within the timeout, after the decision |
| RegistrationSteps.HeartbeatComesTooLate | crates/mesh-coordinator/src/roster/coordinator/registration.rs:482-519 | a heartbeat after the decision makes the holder live again, and it is removed all the same |
| Registration.RegisterStaysInBlock | crates/mesh-coordinator/src/roster/coordinator/registration.rs:555-648 | no node registers into another network's block; a reserved address needs claims that list it, except the legacy one handed out by the allocator |
| Registration.EveryPeerInOwnBlock | crates/mesh-coordinator/src/roster/coordinator/registration.rs:555-606 | over any run of live operations every peer stays in its own network's block |
| Registration.EveryRunConsistent | crates/mesh-coordinator/src/roster/apply.rs:27-165 | over any run of registers, heartbeats, leaves, replayed joins and allocations roster and index stay inverse, addresses distinct, counters ahead |
| Registration.AllocatedNeverBefore | crates/mesh-coordinator/src/roster/allocator.rs:76-115 | after any such run, from an empty or restored mesh, an allocated address was never issued before and never held by any peer at any point of the run, departed peers and requested or replayed addresses included, even when two networks fold to one block |
| Snapshot.ReplayRebuilds | crates/mesh-coordinator/src/roster/coordinator/mod.rs:544-560 | replaying distinct peers gives exactly those peers, a consistent mesh, and each counter at the largest index in use |
| Snapshot.ReplayOrderIrrelevant | crates/mesh-coordinator/src/roster/coordinator/mod.rs:544-560 | replaying the same distinct peers in any order gives the same roster, index and per-slot counters |
| Snapshot.RestartRestoresIdentities | crates/mesh-coordinator/src/roster/store.rs:1-20 | saving a consistent roster and replaying it restores every peer with its id, pubkey, address, network, tags and the other durable fields, nobody else, and a consistent mesh |
| Restart.StickyAcrossRestart | crates/mesh-coordinator/src/roster/store.rs:9-16 | after save, restart and replay, a re-register of any saved peer succeeds with its old peer id, address and network, unless claims name another network |
| HolePunch.CooldownFollowsLawExactly | crates/mesh-coordinator/src/nat/holepunch.rs:94-103 | the 64-bit cooldown equals min(base times 2^streak, cap) if and only if the streak is not one of those listed as overflowing, where it is zero or negative |
| HolePunch.ClaimExactly | crates/mesh-coordinator/src/nat/holepunch.rs:178-207 | where the shift does not overflow, a claim is granted if and only if the pair is new and gets a token or min(15 s times 2^streak, 300 s) have passed; a grant records the instant and raises the streak, a refusal changes nothing |
| HolePunch.ConfirmedPairIsBrisk | crates/mesh-coordinator/src/nat/holepunch.rs:209-217 | after a confirmation the next emit is due 15 s after the last |
| HolePunch.TokenExactly | crates/mesh-coordinator/src/nat/holepunch.rs:219-230 | an attempt is granted if and only if it opens a window or fewer than eight came before it in its window |
| HolePunch.StuckPairDecays | crates/mesh-coordinator/src/nat/holepunch.rs:168-207 | for any claims of a pair that never confirms, the gap after emit k is at least the documented cooldown of streak k, unless k overflows |
| HolePunch.StuckPairIsCheap | crates/mesh-coordinator/src/nat/holepunch.rs:70-78 | n re-emits of an unconfirmed pair, 5 to 40, span at least 465 s + 300 s (n - 5) |
| HolePunch.EarlyEmitExactlyOnOverflow | crates/mesh-coordinator/src/nat/holepunch.rs:178-192 | within the base cooldown a claim is granted if and only if the streak overflows |
| HolePunch.DecayBreaksAfter41 | crates/mesh-coordinator/src/nat/holepunch.rs:98-103 | the overflow is reachable: after 41 emits spaced by the cap the pair is due again at the same instant |
| HolePunch.NeverPunchedEarly | crates/mesh-coordinator/src/nat/holepunch.rs:178-261 | with claims, confirmations and reaps in any order, a clock that does not go back and no overflowing streak, two emits of a pair are never closer than 15 s |
| PunchSweep.LivePairSafeExactly | crates/mesh-coordinator/src/nat/holepunch.rs:60-68 | a pair claimed once every period is safe from the reaper if and only if cooldown and period fit into the time to live; from streak 5 on, outside the overflow, no period does |
| PunchSweep.ForgottenPairStartsOver | crates/mesh-coordinator/src/nat/holepunch.rs:178-207 | a pair so forgotten is punched again after 15 s, where without the sweep that claim is granted only at an overflowing streak |
| PunchSweep.GapsUnderSweeps | crates/mesh-coordinator/src/nat/holepunch.rs:178-261 | over any run of claims and sweeps each gap keeps the cooldown of its streak or exceeds the time to live and starts over; the back-off is the uninterrupted one if and only if no claim found the pair forgotten |
| HolePunch.AtMostFifteen | crates/mesh-coordinator/src/nat/holepunch.rs:219-230 | for any attempts in time order that do not wrap the counter, from a window that an attempt opened or that is over, no half-open second sees more than 15 grants |
| HolePunch.OpenedInside | crates/mesh-coordinator/src/nat/holepunch.rs:219-230 | from an open budget window no more than what it has left, at most 8, is granted until one window after it opened |
| PunchBudget.FifteenASecond | crates/mesh-coordinator/src/nat/holepunch.rs:178-230 | from a new tracker, over any run of claims on any pairs, confirmations, removals and reaps in clock order, at most 15 pairs have their first emit in any half-open second |
| PunchBudget.FifteenAttained | crates/mesh-coordinator/src/nat/holepunch.rs:219-230 | at every clock reading a run of claims on new pairs attains 15 |
| PunchBudget.EightExactly | crates/mesh-coordinator/src/nat/holepunch.rs:80-92 | from an instant on no run has more than the documented 8 first emits in the next second if and only if no window that opened less than a second before still has tokens left |
| HolePunch.CounterWraps | crates/mesh-coordinator/src/nat/holepunch.rs:229-229 | 2^32 attempts in one window wrap the counter, and it grants again |
| HolePunch.CanonicalPairExact | crates/mesh-coordinator/src/nat/holepunch.rs:112-114 | two pairs of peers share a tracker entry if and only if they are the same two peers |
| HolePunch.PunchTracker.TakeColdStartToken | crates/mesh-coordinator/src/nat/holepunch.rs:222-230 | draws one token as `HolePunch.TakeToken`, wrap included |
| HolePunch.PunchTracker.Claim | crates/mesh-coordinator/src/nat/holepunch.rs:178-207 | one claim of its pair; only a pair not tracked yet draws from the budget; other pairs unchanged |
| HolePunch.PunchTracker.NoteConfirmed | crates/mesh-coordinator/src/nat/holepunch.rs:213-217 | resets the streak of one tracked pair and nothing else |
| HolePunch.PunchTracker.RemovePeer | crates/mesh-coordinator/src/nat/holepunch.rs:246-251 | removes exactly the pairs involving a peer and returns their number |
| HolePunch.PunchTracker.ReapOlderThan | crates/mesh-coordinator/src/nat/holepunch.rs:257-261 | removes exactly the pairs last emitted before the cutoff and returns their number |
| HolePunch.PunchTracker.TryEmitPair | crates/mesh-coordinator/src/nat/holepunch.rs:282-332 | announces both directions with swapped endpoints or neither, one claim per canonical pair, and changes nothing for one peer or a missing endpoint |
| PolicyModel.Validate | crates/mesh-coordinator/src/policy/model.rs:182-191 | accepts exactly the policies without a cross-tenant source pattern, and otherwise reports one |
| PolicyModel.RejectsExactlyMultiTenantSources | crates/mesh-coordinator/src/policy/model.rs:207-220 | a source pattern is rejected if and only if it matches two different tags starting with `tag:net-` |
| PolicyModel.SeesExactly | crates/mesh-coordinator/src/policy/model.rs:142-268 | two nodes see each other if and only if a rule with action `accept` leads from one to the other, a pattern covering the tags it equals or, with a trailing star, begins, and a bare star every node |
| PolicyModel.OnlyAcceptsGrant | crates/mesh-coordinator/src/policy/model.rs:92-147 | removing every rule with another action changes no view, and without an `accept` rule nobody sees anybody |
| PolicyModel.TenantsMeetOnlyByName | crates/mesh-coordinator/src/policy/model.rs:142-191 | under an accepted policy two single-tag nodes of different tenants see each other if and only if a rule with action `accept` names one of the two tags verbatim as a source and its destinations match the other |
| PolicyModel.ValidationIsNotIsolation | crates/mesh-coordinator/src/policy/model.rs:182-191 | `tag:net-a` to `tag:net-*` is accepted and joins two tenants |
| PolicyModel.BootstrapIsClosed | crates/mesh-coordinator/src/policy/model.rs:117-137 | the bootstrap policy is valid, and under it exactly the nodes tagged as system see each other |
| Identity.StampIdentity | crates/mesh-coordinator/src/roster/identity.rs:74-102 | the merge loop computes the stamped network and tags |
| Identity.StampExactly | crates/mesh-coordinator/src/roster/identity.rs:74-102 | without claims the request is taken at its word; with claims network and tags are theirs and the request adds the four capability tags at most |
| Identity.MergedTags | crates/mesh-coordinator/src/roster/identity.rs:74-102 | the merged tags are the claimed ones in front, plus exactly the requested capability tags |
| Identity.MergedOnce | crates/mesh-coordinator/src/roster/identity.rs:74-102 | no tag is added twice |
| Identity.MergedSeesExactly | crates/mesh-coordinator/src/roster/identity.rs:74-102 | a node sees with the merged tags exactly what it sees with the claimed ones and what each requested capability tag sees by itself |
| Identity.RequestsDoNotInterfereExactly | crates/mesh-coordinator/src/roster/identity.rs:48-102 | for given policy and claims, no two requests can be told apart by anyone if and only if no capability tag by itself sees a node that the claimed tags do not; the network is always the claimed one |
| Identity.RequestsDoNotInterfere | crates/mesh-coordinator/src/roster/identity.rs:48-102 | in particular for every policy whose patterns other than `*` match no capability tag |
| Identity.CapabilityRuleInterferes | crates/mesh-coordinator/src/roster/identity.rs:48-102 | a policy and claims for which the condition fails, with the two requests that are told apart |
| PolicyStoreModel.EtagsDiffer | crates/mesh-coordinator/src/policy/store.rs:177-196 | equal content under different 64-bit nonces has different ETags |
| PolicyStoreModel.EtagExactly | crates/mesh-coordinator/src/policy/store.rs:174-196 | an ETag is sixteen quoted hex digits whose value is the content hash exclusive-or the nonce times the prime modulo 2^64 |
| PolicyStoreModel.ReplaceExactly | crates/mesh-coordinator/src/policy/store.rs:133-163 | a replace makes the given policy current if and only if it is valid and names the current ETag; an invalid one is reported first, and a refusal changes nothing |
| PolicyStoreModel.EqualContentToldApart | crates/mesh-coordinator/src/policy/store.rs:133-196 | as long as fewer than 2^64 nonces have been drawn, refused replaces not counted, two versions of a store with the same policy have different ETags; a store that starts valid stays valid |
| PolicyStoreModel.StaleHandleRefused | crates/mesh-coordinator/src/policy/store.rs:133-163 | a handle on an earlier version with the current content is refused and changes nothing |
| PolicyStoreModel.PolicyStore.ReplacePolicy | crates/mesh-coordinator/src/policy/store.rs:133-163 | validates, compares the ETag, and only then draws a nonce and swaps the snapshot; a failed replace changes nothing |
| PolicyStoreModel.NonceSource.Draw | crates/mesh-coordinator/src/policy/store.rs:168-172 | returns the counter and advances it modulo 2^64 |
| Commands.CommandGate.Record | crates/mesh-joiner/src/coordinator/command_gate.rs:47-63 | adds a nonce and, when the write succeeds, saves the whole set |
| Commands.CommandGate.ProcessCommands | crates/mesh-joiner/src/coordinator/command_exec.rs:55-92 | evaluates and executes a batch in order and acks every command of it, accepted, replayed or rejected |
| Commands.VerdictExactly | crates/mesh-joiner/src/coordinator/command_gate.rs:99-113 | accepted if and only if signed under a configured key, not expired and new; a replay if and only if the same with a nonce seen; otherwise rejected for the first reason |
| Commands.GenuineCommandsRun | crates/mesh-joiner/src/coordinator/command_exec.rs:55-92 | no genuine command of a batch is passed over: its nonce has run when the batch is done |
| Commands.ProcessOnceEach | crates/mesh-joiner/src/coordinator/command_gate.rs:99-118 | any batch keeps: only verified, unexpired commands ran, each nonce once, all remembered |
| Commands.ReRunsExactlyWhenUnsaved | crates/mesh-joiner/src/coordinator/command_gate.rs:44-54 | an executed command is refused as a replay; after a restart it would run again if and only if its nonce is not in the sidecar |
| Commands.LaterSaveRepairs | crates/mesh-joiner/src/coordinator/command_gate.rs:47-63 | one successful save makes all earlier executed nonces durable |
| Heartbeat.HeartbeatLoop.TickOnce | crates/mesh-joiner/src/coordinator/heartbeat.rs:267-391 | one tick as `Heartbeat.Tick`: drains, settles or re-buffers the acks, runs the batch, raises or clears the guard, adopts a new id |
| Heartbeat.AdoptsExactly | crates/mesh-joiner/src/coordinator/heartbeat.rs:344-446 | at a 404 with the guard down the joiner takes the id of the attempt with its own address, or, after a 409 on an address that is not strict, of the free attempt; in every other case it keeps its id |
| Heartbeat.SettledExactly | crates/mesh-joiner/src/coordinator/heartbeat.rs:302-390 | buffered acks leave the buffer all together: carried by a success, lost at a 404 or lost at a restart, and by nothing else |
| Heartbeat.AtMostOnce | crates/mesh-joiner/src/coordinator/command_exec.rs:55-92 | over any run of ticks and restarts whose restarts find every executed nonce saved, a verb runs only for a verified, unexpired command and at most once per nonce |
| Heartbeat.CarefulRunsAreDurable | crates/mesh-joiner/src/coordinator/command_gate.rs:47-63 | successful saves and no death inside a batch make every restart such a one |
| Heartbeat.UnsavedNonceRunsTwice | crates/mesh-joiner/src/coordinator/command_gate.rs:44-54 | with one failed save the same command runs twice across a restart |
| Heartbeat.AcksAccounted | crates/mesh-joiner/src/coordinator/heartbeat.rs:302-390 | in every run the received ids, in order, are those carried by a successful heartbeat, dropped at a 404 or a restart, or still waiting |
| Heartbeat.NextSuccessCarriesAll | crates/mesh-joiner/src/coordinator/heartbeat.rs:302-390 | after any number of failed heartbeats the next successful one carries every waiting ack |
| Heartbeat.OneAttemptPerLoss | crates/mesh-joiner/src/coordinator/heartbeat.rs:344-371 | between two re-register attempts there is a successful heartbeat or a restart |
| Heartbeat.ReRegistersExactly | crates/mesh-joiner/src/coordinator/heartbeat.rs:344-371 | over any run a 404 leads to a re-register if and only if none was made since the last success or restart |
| Heartbeat.FailedReRegisterIsNotRetried | crates/mesh-joiner/src/coordinator/heartbeat.rs:344-371 | after a re-register, however many replies that are not successes follow, no further attempt is made and the id stays |
| RebootGuardModel.RebootGuard.TryRebootAt | tools/tabbify-mesh/src/host_sink.rs:77-98 | prunes, decides and saves as `RebootGuardModel.TryReboot`; a failed write leaves the file |
| RebootGuardModel.RefusedExactlyWhenSpent | tools/tabbify-mesh/src/host_sink.rs:77-98 | a request is refused if and only if three grants lie within the preceding 3600 seconds |
| RebootGuardModel.AtMostThreeAnHour | tools/tabbify-mesh/src/host_sink.rs:77-98 | for every sequence of requests with a clock that does not go back and saved grants, any closed window of 3600 seconds contains at most three grants |
| RebootGuardModel.ClockBackDefeatsLimit | tools/tabbify-mesh/src/host_sink.rs:80-98 | for every full history, a reading past the window followed by one back inside it is granted a fourth reboot |
| RebootGuardModel.UnsavedAllGranted | tools/tabbify-mesh/src/host_sink.rs:93-96 | for every log whose file has room, any number of requests at one instant whose saves fail are all granted and leave the file as it was |
| RebootGuardModel.UnsavedBreaksLimit | tools/tabbify-mesh/src/host_sink.rs:80-98 | so from the fourth on the hourly limit is broken |
| Stun.BuildBindingRequest | crates/mesh-joiner/src/nat/stun.rs:28-44 | the request carries the cookie and the low 96 bits of the clock as transaction id |
| Stun.RequestLayout | crates/mesh-joiner/src/nat/stun.rs:28-44 | the bytes of the request |
| Stun.BuildBindingResponse | crates/mesh-coordinator/src/nat/stun_server.rs:33-82 | a response is built if and only if the datagram is a well-formed binding request, with its transaction id and the masked source |
| Stun.AnsweredExactly | crates/mesh-coordinator/src/nat/stun_server.rs:33-42 | exactly the datagrams of at least 20 bytes with request type and magic cookie are answered |
| Stun.ResponseLayout | crates/mesh-coordinator/src/nat/stun_server.rs:71-82 | type, cookie, transaction id and attribute header byte by byte, and both length fields equal to what follows them |
| Stun.MappedAddressLayout | crates/mesh-coordinator/src/nat/stun_server.rs:46-70 | the port is sent exclusive-or 0x2112 and each address byte exclusive-or the byte of cookie and transaction id at its place |
| Stun.ParseXorMappedAddress | crates/mesh-joiner/src/nat/stun.rs:52-103 | the attribute loop terminates within bounds on every byte string and computes `Stun.Parse` |
| Stun.PaddedExactly | crates/mesh-joiner/src/nat/stun.rs:96-102 | attributes are padded to the next multiple of four |
| Stun.ParsesExactlyAnswers | crates/mesh-joiner/src/nat/stun.rs:52-103 | the parser yields an endpoint if and only if the datagram is a success response to this transaction whose first mapped address, after any list of other padded attributes, carries that endpoint |
| Stun.RoundTrip | crates/mesh-joiner/src/nat/stun.rs:46-103 | for every IPv4 or IPv6 source, decoding the server's response gives the source back to the requester of that transaction id and nothing to any other |
| Stun.JoinerLearnsItsSource | crates/mesh-coordinator/src/nat/stun_server.rs:27-82 | the client's own request is accepted, and from the answer the client decodes the address and port the server saw |
| Stun.TxidsDiffer | crates/mesh-joiner/src/nat/stun.rs:30-38 | clock readings that agree in all transaction id bytes are equal |

## Left out

- HTTP, WebSocket, SSE, TLS and CLI wiring, the TUN backends, host routing and firewall calls: plumbing over libraries and system calls.
- boringtun sessions, X25519, Ed25519 and JSON: a signature check is an arbitrary function of key and command, serialisation an arbitrary function of the policy.
- Session reconciliation on the joiner and the SSE view filter: only their place in the tick is kept.
- Reflexive endpoints, address classification, direct-pair flags, path edges and relay metrics, and the entry fields that only they use: decided field by field.
- Parsing of UUIDs, addresses and join tokens: text that does not parse is `None`.
- Parallel races inside the cold-start budget, and between the lookup and the spool push of `forward`: methods are atomic except `unregister`, whose two lock scopes interleave with everything.
- A registry call reads the clock once in the model, where the source may read it again for each frame it holds.
- The sending half of a channel lives inside its lane slot; frames a dropped socket had not received are not followed further.
- UlaAllocatorModel.EveryInterleavingSafe: the two loops are steps of a state machine and not `while` loops, since the property is about other threads moving between their iterations; termination under contention is not claimed.
- Registration.RegisterSafe: speaks of the register as one step and on values, not as updates in place; its await points are the subject of RegistrationSteps.
- Stun.TxidsDiffer: says nothing about clock readings that differ by a multiple of 2^96 nanoseconds.
- Collisions of FNV-1a between different policies or network names are possible, and nothing is claimed about them.
- The handling of an `accept` spelled otherwise, policy files and the admin handlers around the store.
- The issuer side of commands and the coordinator's pending-command queue.
