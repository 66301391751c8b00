# Bluetooth event loop and service helpers, modelled in Dafny

This project models the sequential core of a small BlueZ client. The client is written in C on top of the D-Bus library. The model covers:

- **The event loop's watch table** (`src/bluetooth_eventloop.c`). The bus library asks the loop to watch descriptors through callbacks. These callbacks frame ADD/REMOVE/WAKEUP commands onto a control socket. The loop thread reads them back in the control branch of `eventLoopMain` and edits a table of `pollfd` slots (`handleWatchAdd`, `handleWatchRemove`).
  - One pass of the loop hands at most one ready watch to the bus library.
  - `startEventLoop`/`stopEventLoop` create and release the table.
  - `setUpEventLoop`/`tearDownEventLoop` subscribe and unsubscribe the connection.
  - Two message filters classify incoming messages: the signal filter and the pairing agent.
- **The service helpers** (`bluetooth_service.c`):
  - the mapping from a pairing reply to a BOND_RESULT code, or to "still pending";
  - the return-code rules of the blocking request helpers;
  - the asynchronous pair request and the context string it hands to its callback.
- **The demo program's command words** (`main.c`): one input token maps to an ordered list of service actions, by substring search.

Modules:

| module | file | what |
|---|---|---|
| `Optional` | optional.dfy | the `Option` datatype |
| `Bytes` | bytes.dfy | bytes, fixed-width integers, little-endian host encoding |
| `Flags` | flags.dfy | the POLL*/DBUS_WATCH_* bit vocabularies and the two converters |
| `Watches` | watches.dfy | the watch table and its add/remove steps |
| `Control` | control.dfy | control-socket framing, decoding, the drain loop, the writer callbacks |
| `EventLoop` | eventloop.dfy | lifecycle, bus subscriptions, one pass of the loop |
| `Bus` | bus.dfy | abstract bus messages, errors, bluez names |
| `Filters` | filters.dfy | `event_filter` and `agent_event_filter` |
| `Service` | service.dfy | pairing outcome, request helpers, pair request |
| `CommandWords` | commandwords.dfy | `main`'s token dispatch |

Modelling choices:

- **Flag constants are parameters.** The POLL* and DBUS_WATCH_* constants come from system headers, so each is a parameter naming one bit position below 15 (`Flags.FlagBits`). A flags word is its sequence of bits. With bits below 15, converting to and from a `short` never loses or sign-extends a meaningful bit.
- **Converter names are swapped.** The names of the two converters do not match their bodies: `unix_events_to_dbus_flags` reads watch bits and produces poll bits. The model follows the bodies and keeps the names. The consequence is that the table stores a watch's events in the *watch* vocabulary, while `poll` reports `revents` in the *poll* vocabulary.
- **Fixed host layout.** The control socket carries host-order values. The model fixes a little-endian host with 4-byte `int`/`unsigned int` and 8-byte pointers.
- **Watch pointers are opaque.** A watch pointer is an opaque 64-bit handle.
- **Allocation, the bus and the reader are parameters:**
  - Whether the table's growth allocations succeed.
  - What the bus does with a request: is there a connection, was the message composed, which error came back.
  - Whether a reply can be built.
  - The bytes waiting on the control socket.
- **The second start clears `running`.** `startEventLoop` clears `running` before it checks for an existing table (src/bluetooth_eventloop.c:340-346). So a refused second start still clears `running`. It keeps the table as it was. The model does the same.
- **Setup failures are not undone.** If `setUpEventLoop` fails part-way during `startEventLoop`, the subscriptions it already made are not removed: the failure path only closes the sockets and frees the table. `EventLoop.SetUpEventLoop` returns those leftover subscriptions.

## Model

| member | source | states |
|---|---|---|
| Bytes.DecodeEncodeInt32 | src/bluetooth_eventloop.c:79-81 | a C `int` written in host order and read back is the same value, negative ones included |
| Bytes.DecodeEncodeUint32 | src/bluetooth_eventloop.c:83-84 | an `unsigned int` written in host order and read back is unchanged |
| Bytes.DecodeEncodeUint64 | src/bluetooth_eventloop.c:86 | a watch pointer written and read back is unchanged |
| Bytes.EncodeDecodeInt32 | src/bluetooth_eventloop.c:126 | any four bytes read as an `int` and written back are the same bytes |
| Flags.UnixEventsToDbusFlags | src/bluetooth_eventloop.c:53-58 | the result holds only poll bits, and each watch bit present in the input sets its matching poll bit |
| Flags.DbusFlagsToUnixEvents | src/bluetooth_eventloop.c:60-65 | the result holds only watch bits, and each poll bit present in the input sets its matching watch bit |
| Flags.UnixEventsToDbusFlagsExact | src/bluetooth_eventloop.c:53-58 | with distinct bits, each poll bit of the result is set exactly when its watch bit is set in the input |
| Flags.DbusFlagsToUnixEventsExact | src/bluetooth_eventloop.c:60-65 | with distinct bits, each watch bit of the result is set exactly when its poll bit is set in the input |
| Flags.WatchBitsRoundTrip | src/bluetooth_eventloop.c:53-65 | converting watch bits to poll bits and back gives the input restricted to the four watch bits |
| Flags.PollBitsRoundTrip | src/bluetooth_eventloop.c:53-65 | converting poll bits to watch bits and back gives the input restricted to the four poll bits |
| Watches.Find | src/bluetooth_eventloop.c:130-136 | the scan finds the lowest slot holding (fd, events), and finds nothing exactly when no live slot holds it |
| Watches.Add | src/bluetooth_eventloop.c:129-163 | a duplicate (fd, events) changes nothing; so does a full table whose growth allocation fails; otherwise the entry lands at index `count` with zero `revents` and its handle, earlier slots are untouched, the count grows by one and the capacity grows by exactly one only when the table was full |
| Watches.Remove | src/bluetooth_eventloop.c:172-186 | with no match nothing changes; otherwise the count drops by one, the first matching slot receives the old last slot whole, every other slot is untouched, and the capacity stays |
| Watches.AddKeepsValid | src/bluetooth_eventloop.c:130-163 | adding keeps `count <= size` and keeps (fd, events) pairs unique among live slots |
| Watches.RemoveKeepsValid | src/bluetooth_eventloop.c:174-185 | removing keeps `count <= size` and keeps (fd, events) pairs unique |
| Watches.RemoveMakesAbsent | src/bluetooth_eventloop.c:174-185 | in a valid table, after removal no live slot holds the removed (fd, events) |
| Watches.RemoveTakesOne | src/bluetooth_eventloop.c:174-185 | removal takes out exactly one matching entry and keeps the multiset of all others |
| Watches.AddMakesPresent | src/bluetooth_eventloop.c:137-163 | unless growth is needed and fails, after an add the pair is live |
| Control.Encode | src/bluetooth_eventloop.c:67-119 | every record starts with its tag (EXIT 1, ADD 2, REMOVE 3, WAKEUP 4) and an ADD is 17 bytes, a REMOVE 9, the others 1 |
| Control.Decode | src/bluetooth_eventloop.c:203-234 | the reader yields only well-formed commands, never reads past an EXIT, and reports EXIT exactly when the last command read is EXIT |
| Control.ApplyOnlyAddRemove | src/bluetooth_eventloop.c:207-233 | WAKEUP, EXIT and tags the switch does not list leave the table unchanged |
| Control.ApplyAllKeepsValid | src/bluetooth_eventloop.c:218-227 | any sequence of decoded commands keeps the table invariants |
| Control.DrainControl | src/bluetooth_eventloop.c:203-234 | the byte-by-byte drain loop leaves the table that applying the decoded commands in order gives, and stops for the same reason the decoder does |
| Control.DecodeEncodeAll | src/bluetooth_eventloop.c:67-128 | framing round trip: the reader gets back exactly the commands one writer sent, in order, and ends drained or at the final EXIT |
| Control.EncodeParse | src/bluetooth_eventloop.c:126-128 | every whole record is the encoding of the command it parses to |
| Control.DecodeLosesNothing | src/bluetooth_eventloop.c:203-234 | when the reader drains the socket, the commands it read encode back to exactly the bytes that were waiting |
| Control.NothingReadAfterExit | src/bluetooth_eventloop.c:208-216 | whatever bytes follow an EXIT are never read |
| Control.PartialRecordBlocks | src/bluetooth_eventloop.c:126-128 | in the model, an ADD or REMOVE cut anywhere before its last byte is not acted on and the reader waits; the source does this only for cuts between fields (see Left out) |
| Control.AddWatchBytes | src/bluetooth_eventloop.c:67-89 | the add callback writes a record exactly when the watch is enabled |
| Control.CallbackCommands | src/bluetooth_eventloop.c:67-119 | the callbacks only ever send ADD, REMOVE or WAKEUP records, never EXIT or an unknown tag |
| Control.WriterRoundTrip | src/bluetooth_eventloop.c:67-119 | whatever callbacks one writer makes, the reader decodes exactly the commands they mean and drains the socket |
| Control.StopEndsDrain | src/bluetooth_eventloop.c:411-413 | the EXIT the stop path writes after whole records ends the drain after those records, whatever follows |
| Control.ToggleSetsPresence | src/bluetooth_eventloop.c:106-112 | after a toggle is read and applied, the watch's pair is live exactly when the watch is enabled |
| EventLoop.Start | src/bluetooth_eventloop.c:333-405 | start succeeds exactly when no table exists and no step fails; a second start returns -1 and keeps the table; a later failure leaves no table; success gives capacity 8, one slot, the control reader polled for input; `running` is false afterwards |
| EventLoop.WorkerBegins | src/bluetooth_eventloop.c:189-196 | the worker marks the loop running and leaves the table alone |
| EventLoop.Stop | src/bluetooth_eventloop.c:407-430 | stop always ends with no table and `running` cleared; it writes one EXIT, which the reader decodes as exit, exactly when a table existed |
| EventLoop.FreshIsValid | src/bluetooth_eventloop.c:362-375 | the table a start creates satisfies the table invariants |
| EventLoop.LifecycleCycle | src/bluetooth_eventloop.c:333-430 | start succeeds, a start on a running loop fails, start after stop succeeds again, and stopping twice writes nothing the second time |
| EventLoop.Iterate | src/bluetooth_eventloop.c:199-243 | one pass keeps the table invariants and is decided by the first ready slot: with none nothing changes; a ready watch is handed over with its events converted and its `revents` cleared; a ready control reader first drains the socket, so the pass ends at EXIT or at an incomplete record with the table the decoded commands give, and otherwise scans on over that table after the reader, handing over its first ready watch if any; a pass that delivers never ends at EXIT |
| EventLoop.ExitEndsPass | src/bluetooth_eventloop.c:203-216 | an EXIT waiting when the control reader is the first ready slot ends the pass with nothing handed over and the table unchanged, whatever follows the EXIT |
| EventLoop.SetUpEventLoop | src/bluetooth_eventloop.c:432-490 | without a connection setup does nothing and succeeds; with one it succeeds only when every step does, and a failing match rule leaves the agent, the filter and the rules before it subscribed |
| EventLoop.TearDownEventLoop | src/bluetooth_eventloop.c:252-296 | with a connection teardown unregisters the agent, removes the filter and removes exactly its five rules; without one it does nothing |
| EventLoop.MatchRulesAgree | src/bluetooth_eventloop.c:259-292 | teardown removes the same five rules setup adds, in a different order |
| EventLoop.TearDownUndoesSetUp | src/bluetooth_eventloop.c:432-490 | after any complete or partial setup, teardown leaves no agent, filter or rule subscribed |
| Filters.AgentMethod | src/bluetooth_eventloop.c:596-665 | Cancel, RequestPinCode, Release and RequestConfirmation are recognised by their exact member names |
| Filters.AgentEventFilter | src/bluetooth_eventloop.c:587-671 | the agent reports HANDLED exactly for a method call named Cancel, Release or RequestPinCode, on org.bluez.Agent1 or with no interface, whose reply can be built; RequestPinCode is answered with "0000", Cancel and Release with an empty reply, and nothing unhandled is answered |
| Filters.SignalKindOf | src/bluetooth_eventloop.c:548-577 | a signal is an adapter or device PropertyChanged, an InterfacesAdded or an InterfacesRemoved exactly when its interface and member say so |
| Filters.EventFilter | src/bluetooth_eventloop.c:534-580 | the signal filter consumes exactly the signals, and classifies each signal by its interface and member |
| Filters.ConfirmationNeverHandled | src/bluetooth_eventloop.c:630-642 | a RequestConfirmation is neither answered nor consumed, whether or not its arguments read |
| Filters.AgentRepliesExactlyWhenHandled | src/bluetooth_eventloop.c:596-670 | the agent sends one reply for each call it reports handled and none otherwise |
| Filters.AgentIgnoresOtherInterfaces | src/bluetooth_eventloop.c:587-671 | a call addressed to another interface, or one that cannot be replied to, is not handled |
| Filters.MissingInterfaceIsAgents | src/bluetooth_eventloop.c:596-653 | a method call without an interface is treated like the same call on org.bluez.Agent1, since the library takes a missing interface to match |
| Filters.FiltersDisjoint | src/bluetooth_eventloop.c:543-594 | no message is consumed by both filters |
| Service.OnStartPairDeviceResult | bluetooth_service.c:125-177 | the outcome is pending exactly for InProgress with "Bonding in progress"; a clean reply reports success; InProgress with "Discover in progress" and only it reports 5; every reported code lies in -1..7 |
| Service.NamedErrorsMatchTable | bluetooth_service.c:132-167 | each of the seven named errors maps to its code, compared as whole names and whatever the message |
| Service.UnknownNamesAreErrors | bluetooth_service.c:168-171 | any other error name than the seven and InProgress reports -1 |
| Service.PairSucceedsExactly | bluetooth_service.c:126-153 | success is reported exactly for a clean reply or AlreadyExists |
| Service.OtherInProgressIsError | bluetooth_service.c:154-171 | InProgress with any other message reports -1 |
| Service.SyncCall | bluetooth_service.c:53-84 | a blocking helper returns 0 exactly when connected, composed and answered without error, otherwise -1; the request is sent exactly when there is a connection and a message |
| Service.StartDiscovery | bluetooth_service.c:53-84 | start discovery follows the helper rule and sends StartDiscovery, without arguments, to the adapter path on the adapter interface |
| Service.StopDiscovery | bluetooth_service.c:86-123 | stop discovery follows the helper rule, sends StopDiscovery without arguments to the adapter path on the adapter interface, and recognises NotAuthorized by prefix for an error that was actually returned |
| Service.NothingToStopStillFails | bluetooth_service.c:105-118 | a NotAuthorized reply still makes stop discovery return -1 |
| Service.ConnectDevice | bluetooth_service.c:199-230 | connect follows the helper rule and sends Connect to the device path without arguments |
| Service.ConnectProfile | bluetooth_service.c:232-265 | connect-profile follows the helper rule and sends ConnectProfile with the profile as its one string argument |
| Service.AddProfile | bluetooth_service.c:268-309 | add-profile follows the helper rule and sends RegisterProfile to the profile manager with path, UUID and options |
| Service.StartPairDevice | bluetooth_service.c:180-197 | the pair request returns 0 exactly when the bus takes the call, sends Pair to the device path, and its callback context equals the device path |
| Service.CopyBounded | bluetooth_service.c:181-186 | a bounded copy is the whole source when it fits and otherwise its prefix of exactly `len - 1` characters |
| CommandWords.ContainsIffOccurs | main.c:54-75 | substring search succeeds exactly when the word occurs at some index of the token |
| CommandWords.Dispatch | main.c:54-75 | discovery starts exactly when "start_scan" occurs, stops exactly when "stop_scan" occurs without "start_scan", pairing starts exactly when "pair" occurs; at most three actions, and a scan action can only come first |
| CommandWords.FirstRuleIsFirstMatch | main.c:58-75 | a priority table yields the actions of the first rule whose word occurs, and nothing when no word does |
| CommandWords.DeviceChainIsFirstMatch | main.c:58-75 | the device chain is first-match over the table pair, cancle_pair, connect_all, hfp-ag, audio-sink, Play, Pause |
| CommandWords.CancelPairStartsPairing | main.c:58-61 | a token containing "cancle_pair" starts pairing of the default device; the cancel branch is unreachable |
| CommandWords.NoWordNoAction | main.c:54-75 | a token containing none of the nine words triggers nothing |
| CommandWords.AudioSinkConnectsTwoProfilesInOrder | main.c:66-70 | "audio-sink" alone connects the 0000110a profile and then the 0000110c profile |

## Left out

- Bus library calls are parameters or abstract values, not modelled: connection setup, marshalling, `send_with_reply_and_block`, object-path registration, `dbus_watch_handle`, the dispatch loop.
- `register_agent` and `unregister_agent` are reduced to success flags. Their bodies are sequences of bus calls and logging.
- `interface_added` is left out, along with property parsing, encoding and printing: `parse_*`, `append_dict_args`, `print_property_value`, `free_property_value`. Their bodies are not among the files modelled; `Filters.EventFilter` only classifies an InterfacesAdded signal, and `Bus.Options` stands for the dictionary `append_dict_args` builds.
- Threads, the mutex, `socketpair`, `poll`, `recv`'s end-of-file case and the join are left out because they are concurrency and system calls. The bytes waiting on the control socket and the readiness `poll` reports are inputs.
- Control.PartialRecordBlocks: a record cut inside a 4- or 8-byte field is modelled as the reader waiting, like a cut between fields. The control socket is a blocking stream socket, so a `read` of a field whose bytes have only partly arrived returns short (src/bluetooth_eventloop.c:126-128, 170-171) and `handleWatchAdd`/`handleWatchRemove` go on with a partly filled value. Short reads are not modelled: each writer field is one `write` of at most 8 bytes (src/bluetooth_eventloop.c:75-86, 94-103), and the model takes each such write to arrive whole.
- Control.Decode: the same short-read case; an incomplete record at the end of the socket gives `Blocked` wherever it is cut.
- Filters.AgentEventFilter: the Release branch logs through a `%s` conversion that is given no argument (src/bluetooth_eventloop.c:645), which is undefined behaviour in C. Logging is outside the model, which takes the empty reply to be sent as the code goes on to do.
- Interleaving between several writers is left out: the source takes no send lock, and the model assumes one writer whose records arrive whole and in order.
- Watches.Add: a failure of the second growth allocation is merged with a failure of the first. Both leave the count, the capacity and the visible slots unchanged. The reallocated but oversized poll array is not observable in the model.
- Stale slots beyond the live count are left out because the source never reads them.
- Host byte order and widths are fixed (little-endian, 4-byte `int`, 8-byte pointers) because the source writes raw host memory.
- The empty stubs are left out because they have no behaviour: `SetDiscoveryFilter`, `removeDevice`, `cacleParingDevice`, `disconnectDevice`, `disconnectProfile`, `_registerMedia`. `mediaPlayerControl` has no definition here and appears only as the abstract `MediaControl` action.
- The public wrappers of the service helpers, `initServices`/`destoryServices` and the remote agent's object path are left out because they only pass the global connection or register a path.
- `main`'s process shell is left out because it is I/O and resource handling: `scanf` into a 64-byte buffer, signal handlers, `sleep`, logging, `initializeBluetoothEvent`/`cleanupBluetoothEvent`, and freeing the pairing context.
