# powerup gateway: a verified model

This project models the decision logic of the `powerup` gateway (`main.go`),
a process that bridges a publish/subscribe messaging fabric to a bank of
GPIO relays. Three pieces are modelled:

- **Metadata freshness reconciliation** (`MetaTuple.NewerThan` and the
  per-pair closure of `mergeMetadata`): a configured `(value, timestamp)`
  tuple is published, persisted, to
  `<base>/s.powerup.v0/<idx>/!meta/<key>` only when nothing is persisted
  there, when what is there carries no metadata payload object, or when the
  candidate's time is strictly after the existing tuple's time. An
  unparsable timestamp ends the pair before any query; a query error ends
  it before any publish.
- **The merge loops**: for each plug in index order, one reconciliation per
  key of the plug's own metadata, then one per key of the global metadata.
  Keys of one map are visited in no fixed order (Go map iteration), so the
  model picks them nondeterministically and returns the runs it made.
- **The relay bank and its dispatchers**: `initHardware` opens eight relays
  on pins 4, 17, 18, 27, 22, 23, 24, 25, sets each to output and drives it
  Low; the per-slot handler maps command byte 0 to Low and 1 to High,
  republishing the same actuation object, persisted, to the slot's
  `i.binact/signal/state` address, and ignores every other byte and every
  message without an actuation object.

Modules: `Fabric` (the client, as a class whose state is a persisted store,
the positions in the query log of the queries that fail, and logs of
queries and publishes; `FabricState` is its value snapshot), `Addresses` (the three `%d` address
formats), `Metadata` (one reconciliation: the `Reconcile` method and its
specification function `ReconcileStep`), `Merge` (the loops,
`ReconcileAll` over a run of attempts, and the freshness invariant),
`Relays` (the bank as a class over an array of pins, the dispatcher method,
and the per-slot state machine over message sequences) and `Gateway` (the
start-up order of `main`).

Timestamp parsing (`time.Parse` with layout `2006-01-02T15:04:05 MST`) is a
parameter `parse: string -> Option<int>` giving Unix nanoseconds. Instants
are compared as integers of nanoseconds.

Behaviour of the code the model keeps:

- An existing metadata object whose msgpack decoding fails is not treated
  as absent: the code ignores the decoding error and compares against
  whatever tuple the decoding left. The model's `MetadataPO` carries that
  decoded timestamp.
- The state republish after an actuation is unconditional (there is no
  option to turn it off).
- Eight relays are initialised, but dispatchers are started for indices
  0 to 6 only, so relay 7 (pin 25) is never actuated
  (`Relays.UnservedSlotKeepsLevel`, `Gateway.Startup`).

## Model

| member | source | states |
|---|---|---|
| `Fabric.GetOne` | main.go:148 | the first payload object of a kind: it is in the message, it has that kind, none before it has; None exactly when no object of that kind exists |
| `Fabric.QueryAnswer` | main.go:138-146 | the next query fails exactly when its position in the query log is a failing one; otherwise it returns the persisted message, or none when nothing is persisted |
| `Fabric.PublishState` | main.go:166-172 | a publish is appended to the log; a persisted publish replaces the message at its address and nothing else |
| `Fabric.Client.constructor` | main.go:217 | a connected client starts with the given store and empty logs |
| `Fabric.Client.QueryOne` | main.go:138-142 | the query is logged and answers as `QueryAnswer` of the state before |
| `Fabric.Client.Publish` | main.go:166-172 | the new client state is `PublishState` of the old one |
| `Addresses.Decimal` | main.go:182 | `%d` of an index is a non-empty string of digits, one digit exactly below 10 |
| `Addresses.DecimalValue` | main.go:182 | reading the digits of `%d` of an index back as a base-10 number gives the index |
| `Addresses.DecimalInjective` | main.go:182 | different indices render to different decimal strings |
| `Addresses.DecimalThenSlash` | main.go:182 | an index followed by '/' is read back unambiguously: index and rest both recovered |
| `Addresses.SlotPrefixSplit` | main.go:182 | two addresses of one base with '/'-led tails are equal only for the same slot and tail |
| `Addresses.MetaAddressInjective` | main.go:182 | distinct (slot, key) pairs give distinct metadata addresses |
| `Addresses.AddressKindsDisjoint` | main.go:225-226 | no metadata or signal address is a control address; control and signal addresses of different slots differ |
| `Metadata.NewerThan` | main.go:28-35 | false when the timestamp does not parse; otherwise true exactly when the parsed time is strictly after the given time |
| `Metadata.NotNewerThanItself` | main.go:34 | equal times give false |
| `Metadata.ExistingTime` | main.go:147-152 | the existing time is defined exactly when the persisted message carries a metadata object, and is that object's timestamp |
| `Metadata.ReconcileStep` | main.go:132-178 | one reconciliation makes exactly one query when the timestamp parses and none otherwise, at most one publish (persisted, candidate value and parsed time), changes only the target's store entry and never the failing set |
| `Metadata.Reconcile` | main.go:132-178 | the closure's effect on the client is `ReconcileStep` of the state before |
| `Metadata.BadTimestampIsInert` | main.go:133-137 | an unparsable timestamp causes no query, no publish, no change |
| `Metadata.QueryErrorSkipsPublish` | main.go:138-146 | a failed query leaves only the query logged, no publish |
| `Metadata.NoDowngrade` | main.go:147-156 | an existing tuple at an equal or later time: query logged, no publish, store unchanged |
| `Metadata.NewerOrUncontestedIsPublished` | main.go:147-172 | strictly newer, nothing persisted, or no metadata object there: exactly one persisted publish of the candidate's value and parsed nanoseconds, which the store then holds |
| `Metadata.ReconcileStepTime` | main.go:147-172 | after one reconciliation whose query succeeds, the target's time is the later of the old time and the candidate's; after a failed query, and at every other address, the time is unchanged |
| `Merge.ReconcileAll` | main.go:180-188 | a run of reconciliations keeps the failing set, makes one query per parseable candidate, only appends to the query log and the publish log, and every publish it adds is persisted |
| `Merge.ReconcileAllKeepsLatest` | main.go:132-188 | after a run, every address holds the latest time among what it held and the candidates aimed at it whose own query succeeded (a transient failure skips only that candidate); an address with no answered candidate keeps its time |
| `Merge.EnumeratesLength` | main.go:181-187 | a map's loop makes exactly one attempt per key |
| `Merge.MergeAttemptCount` | main.go:180-188 | a merge makes, per plug, as many attempts as its own keys plus the global keys |
| `Merge.MergeAttemptsFromConfig` | main.go:180-188 | every attempt is for an existing plug and carries that plug's tuple or the global tuple for its key |
| `Merge.MergeCovers` | main.go:180-188 | every own key of every plug and every global key is attempted for every plug, with the right tuple |
| `Merge.SharedTargetOnlyForSharedKey` | main.go:180-188 | two positions of the attempt order share a target only when they are the same plug and a key in both the plug's and the global metadata, the earlier with the plug's tuple and the later with the global tuple |
| `Merge.SharedKeyAttemptedTwice` | main.go:180-188 | conversely, a key in both a plug's and the global metadata is attempted at two positions with one target: first the plug's tuple, later the global tuple |
| `Merge.ReconcileMap` | main.go:181-187 | the inner loop enumerates the map's keys once each and leaves the client as `ReconcileAll` over those attempts |
| `Merge.ReconcilePlug` | main.go:181-188 | one plug: its own keys, then the global keys, with the client as `ReconcileAll` over both |
| `Merge.MergeMetadata` | main.go:180-188 | the runs are in plug order, own keys before global keys, and the client ends as `ReconcileAll` over them all |
| `Relays.OpenRelayPins` | main.go:53-97 | eight pins are opened, on 4, 17, 18, 27, 22, 23, 24, 25 in index order |
| `Relays.RelayBank.Init` | main.go:47-109 | exactly eight relays, on pins 4, 17, 18, 27, 22, 23, 24, 25 in index order, each an output driven Low |
| `Relays.Command` | main.go:236-238 | the command byte exists exactly when the first actuation object of the message has contents, and is the first byte of those contents |
| `Relays.Decide` | main.go:236-258 | byte 0 means actuate Low and byte 1 actuate High, both with the message's actuation object; anything else means ignore |
| `Relays.Transition` | main.go:236-258 | byte 0 gives Low, byte 1 gives High, anything else keeps the level |
| `Relays.RunSlotFollowsLastCommand` | main.go:233-260 | a relay keeps its level until a valid command arrives and then holds the level of the last valid command |
| `Relays.BankStep` | main.go:236-258 | one message sets the addressed relay to its `Transition` and leaves every other relay as it was |
| `Relays.BankIndependence` | main.go:223-262 | however slots' messages interleave, each relay ends where its own messages alone take it |
| `Relays.UnservedSlotKeepsLevel` | main.go:223 | a relay with no dispatcher keeps its level whatever the others receive |
| `Relays.Subscriptions` | main.go:223-231 | seven subscriptions, slot k on its control address, republishing to its signal address |
| `Relays.Dispatch` | main.go:236-258 | byte 0: relay i Low and one persisted republish of the actuation object to the signal address; byte 1: the same with High; otherwise nothing changes; no other relay is touched |
| `Gateway.Startup` | main.go:215-231 | afterwards the client is `ReconcileAll` over a merge in plug order; the bank is fresh, with eight relays on their pins, each an output driven Low; there are seven subscriptions, slot k on its control and signal addresses, fewer than the relays |

## Left out

- GPIO driver calls (`embd.InitGPIO`, `NewDigitalPin`, `SetDirection`, `Write`): foreign hardware; only the resulting pin record is modelled, and a freshly opened pin is taken to be an input reading Low. Their failures (fatal at start-up, ignored in the dispatcher) are not modelled.
- The messaging client internals (`ConnectOrExit`, `SetEntityFileOrExit`, access-chain elaboration, auto-chain): network and library behaviour, abstracted as the store-and-log fabric.
- Publish failures: every publish is accepted. The merge logs and ignores a failed publish; the dispatcher's `PublishOrExit` ends the process, which is not modelled.
- Msgpack encoding and decoding of payload objects: payloads are opaque values. A failed payload creation, after which the code still publishes, is not modelled.
- `OtherPO` stands for every payload object that is not a decoded msgpack metadata tuple or a binary-actuation object; a metadata-typed object that is not msgpack, placed before a msgpack one, is not distinguished.
- `time.Parse` with its fixed layout: a parameter of the model. The int64 range of `UnixNano` (years 1678 to 2262) is not modelled.
- Configuration loading (`initConfig`, file reading, YAML): file I/O and a library; the configuration is an input.
- Goroutines, channels and the idle `runtime.Gosched` loop: each message is one sequential step, and interleavings are sequences of events (`Relays.RunBank`).
- Relays.Dispatch: requires a non-empty actuation object, because the code indexes its first byte without a check and would panic on an empty one.
- Which query calls fail is an input (positions in the query log), not derived from network conditions.
- Logging, `Dump`, and the commented-out common-names block of `mergeMetadata`.
