# coalescent `Application`, modelled in Dafny

`lib/application.js` defines `Application`, a peer-to-peer node built as a duplex stream.
It holds:

- two lists of sockets, `connections.inbound` and `connections.outbound`;
- a middleware stack that starts with a passthrough entry;
- an options object whose prototype is a defaults object (`minPeers` 3, `maxPeers` 12,
  no seeds, the console as logger).

The node does four things:

- Every five seconds it runs a seed maintainer, `_enterNetwork`, which dials seeds while
  too few outbound connections are established.
- It enumerates its peers with a deduplicating `peers()`.
- It builds one middleware pipeline per socket (`_initMiddlewareStack`, `_process`).
- It broadcasts every chunk written to it to every peer (`_write`).

The model has one module per concern:

| module | file | what it holds |
|---|---|---|
| `Wrappers` | wrappers.dfy | `Option`, `Result` |
| `Js` | js.dfy | the JavaScript semantics the decisions depend on |
| `Options` | options.dfy | the options object and `get`/`set` |
| `Connections` | connections.dfy | socket records, the `peers()` filter, the `_cleanup` splice |
| `Maintainer` | maintainer.dfy | one tick of `_enterNetwork` |
| `Middleware` | middleware.dfy | `use`, the per-socket instances, pipeline wiring |
| `Broadcast` | broadcast.dfy | the payload choice and the effects of `_write` |
| `App` | application.dfy | class `Application` |

The `Js` module covers `typeof`, `===`, truthiness, numeric coercion for `<=`, the
decimal rendering of a port number, and `split(':')` with its inverse `join`.

`App.Application` has fields `options`, `inbound`, `outbound`, `stack`, `dials` and
`nextSocket`. Its methods are imperative, like the source: loops with invariants over
`seq` fields. Each method is proved equal to a pure function in the other modules, and
the lemmas about those functions state what the source promises.

Sockets are records (`Connections.Conn`) identified by `id`; they carry:

- whether the socket is still `_connecting`;
- `socket.address()`: absent (falsy), `{}` (no address bound yet, still truthy), or an
  address and port;
- the `_handle` file descriptor, which may be absent or undefined;
- `remoteAddress` and `remotePort`.

Calls into foreign code are recorded as traces, in order:

- `net.connect` calls go in the `dials` field;
- `_plugin` calls and pushes come back as `UseEvent`s;
- factory calls, `pipeline.use`, `_init`, opening and piping come back as `PipelineEvent`s;
- writes, error logs and the callback come back as `WriteEffect`s.

Behaviour of the code that the model keeps as written:

- **The handle test of `peers()`.** Line 121 looks up `url`, a hoisted `var` that is
  still undefined there. So the handle test never rejects a socket by its descriptor. It
  rejects every later socket that has a handle once some socket has pushed an undefined
  descriptor (`Connections.UndefinedFdPoisons`, `Connections.SharedFdNotDeduplicated`).
  The descriptors are still pushed. Descriptor deduplication is evidently meant; the
  model follows the code.
- **`_cleanup`.** It calls `splice` inside `forEach`, so the element after a removed one
  is never examined. A socket listed twice in a row survives once
  (`Connections.CleanupSkipsAdjacent`).
- **`_enterNetwork`.** The `maxPeers` test comes before the `minPeers` test, and with
  `minPeers <= maxPeers` it never decides anything the `minPeers` test would not
  (`Maintainer.MaxPeersDominated`). The `localhost` / `127.0.0.1` test is run once per
  active connection, so with no active connection every seed is dialled. The host/port
  test compares a string port with a numeric `remotePort` under `===`, so it never holds
  (`Maintainer.SeedDialedIff`).
- **Timing of `_init`.** `_init` is called on each instance right after that instance is
  added to the pipeline, not after the whole chain is built
  (`Middleware.WiringInitAfterAdd`).

## Model

| member | source | states |
|---|---|---|
| `Js.TypeOf` | lib/application.js:237 | definition: the `typeof` string of each value (null and arrays are "object"); `StrictEquals` and `Deliver` rest on it |
| `Js.Truthy` | lib/application.js:75-77 | definition: JavaScript truthiness (undefined, null, false, 0 and "" are falsy; `{}` and arrays are truthy); its meaning for `get` is stated by `Options.Get` and `Options.GetAfterSet` |
| `Js.ToNumber` | lib/application.js:152-153 | definition: `Number(v)` as `<=` applies it, None standing for NaN; its properties are stated by `Js.LessOrEqual` and `Js.StringToNumber` |
| `Js.StrictEquals` | lib/application.js:163-164 | `===` holds only between values of the same `typeof`, and only between equal values |
| `Js.LessOrEqual` | lib/application.js:152-153 | `v <= n` compares numbers as integers, is false for undefined (NaN), and when true `v` coerces to a number at most `n` |
| `Js.StringToNumber` | lib/application.js:152-153 | a string coerces to a number exactly when it is a digit string, and then to its decimal value |
| `Js.Decimal` | lib/application.js:129 | the rendering of a port number is a non-empty digit string without a leading zero |
| `Js.DecimalRoundTrip` | lib/application.js:129 | reading back the rendered port gives the port |
| `Js.DecimalInjective` | lib/application.js:129 | different ports render differently |
| `Js.Split` | lib/application.js:156-157 | `split(':')` yields at least one piece and no piece contains the separator |
| `Js.JoinSplit` | lib/application.js:156-157 | joining the pieces of a split with the separator gives back the seed |
| `Js.SplitJoin` | lib/application.js:156-157 | splitting a join of separator-free pieces gives back the pieces |
| `Js.SplitFreePrefix` | lib/application.js:156-157 | a separator-free prefix is glued onto the first piece of the split of the rest |
| `Js.LastSeparator` | lib/application.js:129 | two `x:y` strings with separator-free `y` are equal only when both halves are |
| `Options.Lookup` | lib/application.js:75-77 | definition: `options[key]` through the prototype (own property, else the default, else undefined); `Options.Get`, `Options.GetAfterSet` and `Options.GetDefaults` state what it gives |
| `Options.Get` | lib/application.js:75-77 | `get(key)` is the option (own property, else default) when it is truthy, and null for every falsy option |
| `Options.Set` | lib/application.js:71-73 | after `set(key, value)` the key reads as `value` and every other key reads as before |
| `Options.GetAfterSet` | lib/application.js:71-77 | reading back a set option gives the value, or null when the value is falsy |
| `Options.GetDefaults` | lib/application.js:13-18 | with no options, `get` reports `minPeers` 3, `maxPeers` 12 and no seeds |
| `Connections.Dialing` | lib/application.js:90-95 | a just-dialled socket is connecting, has a handle whose descriptor is not open yet (-1), and its `address()` is the truthy `{}` |
| `Connections.Key` | lib/application.js:129 | definition: the `address + ':' + port` string, "undefined:undefined" for `{}`; `Connections.KeyInjective` gives it meaning |
| `Connections.Visit` | lib/application.js:118-138 | definition: the filter callback on one socket with the closure arrays; `Connections.VisitStep` states what it keeps and records |
| `Connections.DedupFrom` | lib/application.js:117-139 | definition: the filter over the rest of the list from given closure arrays; `Connections.DedupFromKept` equates it with the kept sockets |
| `Connections.Dedup` | lib/application.js:117-139 | definition: `peers()` over inbound followed by outbound; `Connections.DedupIsKept` equates it with the independent `Kept` description |
| `Connections.KeyInjective` | lib/application.js:129 | two sockets share the key `address:port` only when they have the same address and port, or both report `{}` (key "undefined:undefined") |
| `Connections.VisitStep` | lib/application.js:117-139 | one filter callback keeps a socket exactly when `Kept` says so, and leaves `handles`/`addresses` describing the sockets seen so far |
| `Connections.DedupFromKept` | lib/application.js:117-139 | the filter from any position returns exactly the kept sockets from that position, in order |
| `Connections.DedupIsKept` | lib/application.js:117-139 | `peers()` returns exactly the sockets `Kept` describes: the first survivor of the handle test with each address, and every survivor without one |
| `Connections.KeptFromMembers` | lib/application.js:117-139 | every returned socket is a kept socket of the input |
| `Connections.KeptInKeptFrom` | lib/application.js:117-139 | every kept socket of the input is returned |
| `Connections.KeptFromUnfold` | lib/application.js:117-139 | the kept sockets from a position are that socket when kept, then the kept sockets after it |
| `Connections.KeptFromSubsequence` | lib/application.js:117-139 | the kept sockets from a position form a subsequence of the input from there |
| `Connections.PeersSubsequence` | lib/application.js:117 | `peers()` returns a subsequence of inbound followed by outbound, in that order |
| `Connections.PeersUniqueKeys` | lib/application.js:128-136 | no two returned sockets with an address share the key `address:port` |
| `Connections.KeptAddressesDistinct` | lib/application.js:128-136 | two returned sockets that have an address have different addresses |
| `Connections.KeptFromIndex` | lib/application.js:117-139 | past the first position, the kept sockets from `k` are those from `k + 1`, shifted by one when the socket at `k` is kept |
| `Connections.HeadKeyUnclaimed` | lib/application.js:128-136 | a returned socket's address is not the address of any socket returned after it |
| `Connections.ClaimPersists` | lib/application.js:135 | a recorded address stays recorded for every later socket |
| `Connections.PoisonPersists` | lib/application.js:121-125 | once an undefined descriptor is pushed, every later position sees it |
| `Connections.NeverPoisoned` | lib/application.js:121-125 | with every descriptor defined, the handle lookup never finds `url` |
| `Connections.ClaimedBeforeIff` | lib/application.js:128-136 | with every descriptor defined, an address is recorded before a position exactly when an earlier socket has it |
| `Connections.HandleTestInert` | lib/application.js:118-136 | with every descriptor defined, the handle test rejects nothing, and a socket is kept exactly when it has no address or no earlier socket has its address (first occurrence wins) |
| `Connections.NoAddressNeverDroppedByAddress` | lib/application.js:128-138 | a socket whose `address()` is falsy is returned whenever it survives the handle test |
| `Connections.UndefinedFdPoisons` | lib/application.js:118-123 | after a socket with an undefined descriptor, every later socket with a handle is dropped |
| `Connections.SharedFdNotDeduplicated` | lib/application.js:118-126 | two address-less sockets that share a descriptor are both returned |
| `Connections.PeersCoverAddresses` | lib/application.js:128-136 | with every descriptor defined, every address present in the input is present in the result |
| `Connections.UnboundCollapse` | lib/application.js:128-136 | with every descriptor defined, a list of sockets that all report `{}` is reduced by `peers()` to its first socket |
| `Connections.UnboundNoneKeptAfterFirst` | lib/application.js:128-136 | past the first of such sockets, none is kept |
| `Connections.DialingCollapse` | lib/application.js:128-136 | two sockets still connecting are returned by `peers()` as the first alone |
| `Connections.Cleanup` | lib/application.js:213-224 | definition: the splice walk of `_cleanup`, with the element after a removed one unexamined; `Connections.CleanupKeepsOthers`, `Connections.CleanupRemovesAll` and `Connections.CleanupSkipsAdjacent` give it meaning |
| `Connections.Without` | lib/application.js:213-224 | the reference list without the socket contains no socket of that identity |
| `Connections.WithoutPrepend` | lib/application.js:218-221 | removing by identity distributes over a leading element |
| `Connections.CleanupKeepsOthers` | lib/application.js:213-224 | `_cleanup` leaves every other socket, in its original relative order, and removes only sockets of that identity |
| `Connections.CleanupRemovesAll` | lib/application.js:213-224 | if the socket never occurs twice in a row, `_cleanup` removes every occurrence and nothing else |
| `Connections.CleanupRemovesSingle` | lib/application.js:213-224 | a socket listed at most once is gone after `_cleanup` |
| `Connections.CleanupSkipsAdjacent` | lib/application.js:218-221 | a socket listed twice in a row survives `_cleanup` once |
| `Connections.IdsFreshInsert` | lib/application.js:95 | a new socket object, with the next identity, can be tracked at any position and the identities stay distinct and below the counter |
| `Connections.IdsFreshSplit` | lib/application.js:213-224 | each of inbound and outbound has distinct identities when the two together do |
| `Connections.SubsequenceIdsFresh` | lib/application.js:213-224 | removing sockets keeps the identities distinct and below the counter |
| `Connections.SubsequenceConcat` | lib/application.js:213-224 | what `_cleanup` keeps of inbound followed by what it keeps of outbound is a subsequence of inbound followed by outbound |
| `Connections.Establish` | lib/application.js:98-101 | when a dialled socket finishes connecting, only its record changes: it is no longer connecting and reports its local address, open descriptor and remote end |
| `Connections.EstablishIdsFresh` | lib/application.js:98-101 | a socket finishing its connection keeps the identities distinct |
| `Maintainer.Active` | lib/application.js:148-150 | the active snapshot is exactly the outbound sockets that are not connecting |
| `Maintainer.ActiveOrder` | lib/application.js:148-150 | the snapshot keeps the outbound order |
| `Maintainer.ActiveCount` | lib/application.js:148-150 | the active count is the number of outbound sockets whose `_connecting` flag is false |
| `Maintainer.EstablishActivates` | lib/application.js:148-150 | a connecting socket that finishes connecting raises the active count by exactly one |
| `Maintainer.FlagsEstablish` | lib/application.js:148-150 | finishing the connection of one socket clears exactly its `_connecting` flag |
| `Maintainer.ActiveAllEstablished` | lib/application.js:148-150 | with no socket connecting, the snapshot is the whole outbound list |
| `Maintainer.ActiveIgnoresConnecting` | lib/application.js:148-150 | appending connecting sockets does not change the active snapshot |
| `Maintainer.ParseSeed` | lib/application.js:156-157 | definition: pieces 0 and 1 of `seed.split(':')`; `Maintainer.ParseSeedSpec` states what they are |
| `Maintainer.SeedHost` | lib/application.js:156 | definition: the host half of `ParseSeed`; see `Maintainer.ParseSeedSpec` |
| `Maintainer.SeedPort` | lib/application.js:157 | definition: the port half of `ParseSeed`, a string or undefined; see `Maintainer.ParseSeedSpec` |
| `Maintainer.SkipsSeed` | lib/application.js:159-165 | definition: whether the loop over the active snapshot returns early; `Maintainer.SeedDialedIff` states when it does |
| `Maintainer.ParseSeedSpec` | lib/application.js:156-157 | the host is the text before the first ':', the port the string between it and the next ':' or the end, and the port is undefined exactly when the seed has no ':' |
| `Maintainer.SeedDialedIff` | lib/application.js:159-165 | a seed is dialled iff, for every active connection, the host is not 'localhost' and the remote address is not '127.0.0.1'; the host/port test never skips |
| `Maintainer.SeedsToDial` | lib/application.js:155-173 | definition: the seeds the forEach dials against one snapshot; `Maintainer.SeedsToDialSubsequence` and `Maintainer.SeedsToDialMembers` give it meaning |
| `Maintainer.TickTargets` | lib/application.js:146-174 | definition: the outcome of one `_enterNetwork` tick; `Maintainer.TickThresholds` states it |
| `Maintainer.SeedsToDialSubsequence` | lib/application.js:155-173 | the tick dials a selection of the seeds, in seed order |
| `Maintainer.SeedsToDialMembers` | lib/application.js:155-173 | a listed seed is dialled exactly when the skip test lets it through |
| `Maintainer.SeedsNotListedNotDialled` | lib/application.js:155-173 | a seed that is not listed is never dialled |
| `Maintainer.NoneSkippedDialsAll` | lib/application.js:155-173 | when no seed is skipped, every seed is dialled, in order |
| `Maintainer.NoActiveDialsEverySeed` | lib/application.js:159-167 | with no active connection every seed is dialled, in order |
| `Maintainer.TickThresholds` | lib/application.js:146-174 | the tick dials nothing once the active count reaches `minPeers` or `maxPeers`; below both it dials the seeds the skip test lets through against one snapshot, or throws when `seeds` is not an array |
| `Maintainer.MaxPeersDominated` | lib/application.js:152-153 | with numeric `minPeers <= maxPeers`, the `maxPeers` test changes no decision |
| `Maintainer.DialingRun` | lib/application.js:95 | `n` dials append `n` fresh connecting sockets, numbered in dial order |
| `Maintainer.DialsFor` | lib/application.js:167 | one `net.connect` call per dialled seed |
| `Maintainer.DialsForSpec` | lib/application.js:155-167 | each dialled seed is connected at its own host and port, in seed order, with socket identities counting up |
| `Maintainer.DialsForSnoc` | lib/application.js:167 | dialling one more seed appends one `net.connect` call |
| `Maintainer.SeedsToDialStep` | lib/application.js:155-167 | the first seed is dialled unless skipped, then the rest are visited |
| `Maintainer.TickRepeatsWhileConnecting` | lib/application.js:148-153 | a tick that finds the previous tick's sockets still connecting dials the same seeds again |
| `Maintainer.NonLocalSeedDialled` | lib/application.js:159-165 | a seed whose host is not 'localhost' is dialled whenever no active connection is from '127.0.0.1' |
| `Maintainer.ExampleLoopbackSeed` | lib/application.js:163-164 | seed 127.0.0.1:9000 with an active connection to 127.0.0.1:9000 is skipped by the loopback test |
| `Maintainer.BelowDefaults` | lib/application.js:13-18 | below the default thresholds a tick dials the seeds the skip test lets through |
| `Maintainer.ExampleBelowMinimum` | lib/application.js:146-174 | with defaults, two active connections and three unconnected seeds, all three are dialled |
| `Maintainer.ExampleSeedsDialled` | lib/application.js:155-173 | three short seeds are none of them skipped by two non-loopback connections |
| `Maintainer.ExampleMinimumReached` | lib/application.js:153 | with `minPeers` 3 and three active connections nothing is dialled |
| `Middleware.Normalize` | lib/application.js:54 | a non-array argument becomes a one-element list; an array is used as it is |
| `Middleware.RunUseFn` | lib/application.js:56-66 | a function entry has its `_plugin` called, if any, then is pushed, then the rest are registered |
| `Middleware.FactoriesOf` | lib/application.js:65 | the factories of a list of functions, in order |
| `Middleware.RunUse` | lib/application.js:56-66 | definition: the `forEach` of `use` over the normalized list; `Middleware.UseRegistersPrefix` and `Middleware.UseEventOrder` state what it registers and in which order |
| `Middleware.UseRegistersPrefix` | lib/application.js:56-66 | `use` registers the functions before the first non-function, in order, and throws a TypeError exactly when there is one |
| `Middleware.PluginPairedConcat` | lib/application.js:61-65 | the `_plugin`/push pairing survives concatenation of event runs |
| `Middleware.RegisterOnePaired` | lib/application.js:61-65 | one registration is the `_plugin` call, if any, immediately followed by the push |
| `Middleware.UseEventOrder` | lib/application.js:61-65 | the pushes are exactly the registered factories, in order, and each `_plugin` call comes right before its factory's push, and only then |
| `Middleware.PushedOfConcat` | lib/application.js:65 | the pushes of two event runs are the pushes of each |
| `Middleware.Instantiate` | lib/application.js:194-196 | one instance per stack entry, instance `i` built by `stack[i]` for the socket |
| `Middleware.CreatedEvents` | lib/application.js:194-196 | every factory is called, in stack order |
| `Middleware.AddedOfConcat` | lib/application.js:198-206 | the instances added and the `_init` calls of two event runs are those of each |
| `Middleware.WireOne` | lib/application.js:199-203 | one instance is added to the pipeline, then its `_init` runs if it has one |
| `Middleware.WireOneEvents` | lib/application.js:199-203 | wiring one instance adds exactly it and calls its `_init` exactly when it has one |
| `Middleware.Wiring` | lib/application.js:198-206 | definition: the events of the wiring `forEach`; `Middleware.WiringOrder`, `Middleware.WiringInitAfterAdd` and `Middleware.InitHooksOnce` give it meaning |
| `Middleware.InitTrace` | lib/application.js:187-211 | definition: every factory called, then the wiring, then the pipeline opened; `App.Application.InitMiddlewareStack` is proved against it |
| `Middleware.WiringUnfold` | lib/application.js:198-206 | wiring a stack is wiring all but the last instance, then the last |
| `Middleware.WiringOrder` | lib/application.js:198-206 | the pipeline receives the instances in stack order, and `_init` runs in stack order for exactly the instances that have it |
| `Middleware.WiringInitAfterAdd` | lib/application.js:199-203 | each `_init` call comes right after its instance is added to the pipeline |
| `Middleware.InitHooksOnce` | lib/application.js:198-206 | `_init` calls are in strictly increasing stack position, so at most once per instance, and only on instances with the hook |
| `Middleware.ProcessEnds` | lib/application.js:176-185 | on a non-empty stack the first instance comes from `stack[0]` and the last from the last entry |
| `Broadcast.Payload` | lib/application.js:234-247 | definition: the string written for a chunk, None when the `try` branch fails; `Broadcast.Deliver` states it per chunk kind |
| `Broadcast.WriteEffects` | lib/application.js:230-251 | definition: one `Deliver` effect per peer, then the callback; `Broadcast.WriteReachesEveryPeer` states it |
| `Broadcast.Deliver` | lib/application.js:233-248 | each peer gets one effect: the decoded buffer is sent, a string is sent unchanged, any other value is sent stringified, and a stringify failure, only possible for a non-string, is logged |
| `Broadcast.WriteReachesEveryPeer` | lib/application.js:233-250 | `_write` visits each peer once, in order, sends each the same payload, and calls the callback once, after every peer; buffers and strings reach every peer |
| `Broadcast.WriteFailureLoggedPerPeer` | lib/application.js:241-246 | a non-string that cannot be stringified is logged once per peer and sent to none |
| `Broadcast.WriteOncePerEndpoint` | lib/application.js:233-235 | over the deduplicated peers, the effects at two positions are for two sockets whose `address()` endpoints differ, so no endpoint is written to twice |
| `App.Application.constructor` | lib/application.js:20-35 | the given options over the defaults, empty lists, a stack holding only the passthrough entry |
| `App.Application.New` | lib/application.js:20-47 | construction runs the first tick: it dials what `TickTargets` names for an empty outbound list, or throws its TypeError |
| `App.Application.Use` | lib/application.js:51-69 | the stack grows by exactly the registered functions, in order, with the events and TypeError of `RunUse`; the passthrough head is kept |
| `App.Application.Register` | lib/application.js:56-66 | the `forEach` of `use` pushes, calls `_plugin` and throws as `RunUse` says |
| `App.Application.Get` | lib/application.js:75-77 | definition: `Options.Get` over the options field, whose contract gives the value when truthy and null otherwise |
| `App.Application.Set` | lib/application.js:71-73 | `set` stores the option, returns the value, and every other option reads as before |
| `App.Application.Connect` | lib/application.js:87-110 | `connect` records one `net.connect` call and appends one new connecting socket to outbound, and nothing else; identities stay distinct |
| `App.Application.OnConnect` | lib/application.js:98-101 | when a dialled socket finishes connecting, only its record changes, the active count grows by one, and the socket is processed |
| `App.Application.Peers` | lib/application.js:112-144 | `peers(iterator)` returns the filter of inbound followed by outbound, and calls the iterator once per returned socket, in order, when it is a function |
| `App.Application.FilterPeers` | lib/application.js:117-139 | the filter loop with its closure arrays returns `Dedup` of its input |
| `App.Application.ForEach` | lib/application.js:141 | the iterator applied to each returned socket, in order |
| `App.Application.FilterVisit` | lib/application.js:117-139 | one filter callback, with the closure arrays before and after, is `Visit` |
| `App.Application.SpliceOut` | lib/application.js:217-222 | the in-place splicing loop over one list yields `Cleanup` of it |
| `App.Application.Cleanup` | lib/application.js:213-224 | `_cleanup` splices both lists as `Cleanup` says, touches no other state, and leaves no socket of that identity in either list |
| `App.Application.EnterNetwork` | lib/application.js:146-174 | one tick appends a fresh connecting socket and a `net.connect` call for each seed `TickTargets` names, in order, or throws before dialling anything |
| `App.Application.DialSeeds` | lib/application.js:155-173 | the seeds loop dials exactly `SeedsToDial` of the snapshot, in order |
| `App.Application.DialSeed` | lib/application.js:155-172 | the callback for one seed connects to its host and port exactly when `SkipsSeed` does not hold, and otherwise changes nothing |
| `App.Application.Skips` | lib/application.js:159-165 | the loop over the active snapshot returns early exactly when `SkipsSeed` holds |
| `App.Application.InitMiddlewareStack` | lib/application.js:187-211 | one instance per stack entry, in order, and the trace of creating, wiring and opening the pipeline |
| `App.Application.Process` | lib/application.js:176-185 | the socket is piped into the first instance, the passthrough one, and the last instance is returned |
| `App.Application.HandleInbound` | lib/application.js:253-271 | an accepted socket, a new object with the next identity, is appended to inbound and processed; identities stay distinct |
| `App.Application.Write` | lib/application.js:230-251 | `_write` has exactly the effects `WriteEffects` gives over `peers()` |
| `App.PeersStep` | lib/application.js:117-139 | one callback call keeps the loop's description of the filter's result |
| `App.UseStep` | lib/application.js:56-66 | one registration of a function keeps the loop's description of `use` |
| `App.DialedStep` | lib/application.js:155-173 | one visit of the seeds loop extends the dialled prefix exactly when the seed is not skipped |
| `App.DialRecordsStep` | lib/application.js:95 | one more dial appends one connecting socket and one `net.connect` call |
| `App.CleanupKeepsValid` | lib/application.js:213-224 | `_cleanup` keeps the identities distinct and, since each socket is tracked once, removes it from both lists |
| `App.CleanupStep` | lib/application.js:218-221 | after a splice, the element shifted into the visited slot is settled unexamined |

## Left out

- Transport I/O is not modelled. This covers `net.createServer`, `net.connect` beyond
  recording the call, `listen`, socket `pipe`/`write`, server-destroy and `_read`. A dial
  is a recorded call plus an appended connecting record. A piped socket is a `Piped`
  event.
- Streams are not modelled: konduit, `through`, event-stream, the Duplex machinery and
  backpressure. Only the order of instances and hook calls is.
- Events are not modelled: the `end` and `error` handlers, and
  `peerConnected`/`peerDisconnected`. The operations the handlers run (`_process`,
  `_cleanup`) are public methods to be called in their place. The `connect` handler is
  `OnConnect`, which also makes the transport's change to the socket (it stops
  connecting and reports its addresses); when that happens is up to the caller.
- The five-second `setInterval` is not modelled. One tick is one call of `EnterNetwork`.
- `hat()` ids are not modelled. A socket's identity is a number handed out by
  `nextSocket`.
- Logging is not modelled: `log.info` and `self.log` setup, including the remote label
  of `_handleInbound`. A failed stringify is logged as an `ErrorLogged` effect.
- `merge` is modelled only by its result: the given options as own properties over the
  defaults.
- Prototype keys beyond the four defaults are not modelled.
- `Buffer.prototype.toString` and `JSON.stringify` are parameters of `Write`, since they
  are foreign code. `stringify` returns None when stringifying or the write throws. The
  `encoding` argument is ignored, as it is in the source.
- JavaScript numbers are integers here. `Number(s)` recognises digit strings only; other
  numerals (signs, decimals, whitespace, hex) coerce to NaN in the model.
- Whether an instance has an `_init` hook is decided per factory (`instanceInit`),
  while line 201 tests each instance; a factory whose instances differ in that respect is
  not modelled.
- Factories are identified by their fields: a user factory with the passthrough's
  fields cannot be told from the passthrough entry. No contract depends on telling them
  apart.
- A `_plugin` or `_init` hook, or a factory, that throws, or one that calls back into the
  application, is not modelled. The only exception modelled in `use` is its own
  TypeError.
- `App.Application.EnterNetwork`: a `seed` that is not a string would make `split` throw.
  The model's seeds are strings, so that TypeError is not modelled.
- `App.Application.Use`: `use` returns the application for chaining. The method returns
  normally instead, with the outcome of the `forEach`.
- An `address()` that is truthy but lacks only one of `address` and `port` is not
  modelled. An address is absent, `{}`, or a full address and port. `address()` is the
  local end of the socket, as in Node.
- `Connections.Dialing`: the descriptor of a handle not yet open is modelled as -1, and the
  remote fields of a connecting socket (undefined in Node) as "" and 0. Neither is read
  while the socket is connecting: the snapshot skips connecting sockets, and `peers()`
  records the descriptor without ever comparing it by value and reads only the address.
