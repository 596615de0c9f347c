# TorVPN: a verified model of its logic

TorVPN routes a machine's traffic through Tor. This project models the parts of it that decide things,
in Dafny, and proves what they are for:

- **DNS resolver**: `DnsWire` (question parser, reply builders), `Rfc1035` (an independent message
  decoder), `DnsCache` (TTL cache and purge), `DnsServer` (DoH answers, and the resolver as a machine in
  which any number of query handlers, the purge loop and the clock interleave), `DnsAnswers` (what clients
  decode, traced back to what the DoH server answered).
- **Tor control client**: `TorReplies` (reply framing over a byte stream against the reply grammar),
  `TorCircuits` (circuit status end to end), `TorBootstrap` and `TorPhase` (the polling loops and the text
  they read), `TorTrace` (the callback trace of a whole wait).
- **Connection lifecycle**: `Lifecycle` (connect attempts and disconnects in every interleaving),
  `AppLifecycle` in `App.dfy` (the `App` object and its two methods).
- **Packets and routes**: `Packets` (header decoding and dispatch), `Routes` (the two /1 routes on Linux
  and Windows).
- **Relay ranking**: `Relays`.

`Basics` and `Text` hold shared types and the functions taken from Go's `strings` and `strconv`.

Code that loops or updates fields is a method or a class here, proved equal to a specification function;
the theorems are lemmas about those functions. Packets, names and keys are sequences of octets, text is a
sequence of characters, the clock is an integer of nanoseconds that each operation is given, and
`time.Duration` products wrap at 64 bits. Machine integers are otherwise unbounded where the program
cannot reach their limits. Whatever the network, the clock or an external command decides is a parameter.

Where the code and its comments disagree the model follows the code:

- The comment above the reply loop says that a multi-line reply continues until "250 OK"; the loop stops at
  the first line with a space at index 3, and the "250 OK" test never decides anything.
- The comment on `buildResponse` promises a record per address; only IPv4 addresses get one, while the
  answer count counts all of them, modulo 256.
- The comment in the Linux route helper speaks of "not fwmark"; the command has no "not".

Properties that turned out false as first stated, each with a lemma for when it holds and a failing input:

| property | when it holds | failing input |
|---|---|---|
| the reply's answer count | `ResponseDecodes` | `IPv6ReplyDoesNotDecode` |
| the answer section holds the addresses | `ExtraRecordsComeFirst` | `EdnsReplyAnswersOpt` |
| a stored lifetime is the TTL | `TtlExactIffItFits` | `TtlCanWrap` |
| framing of data replies | `CommandsStayInStep` | `DataLineBreaksStep` |
| the circuit list comes back | `CircuitRoundTrip` | `OneCircuitBreaksRoundTrip` |
| the callback trace is the polled sequence without repeats | `TraceOfAnyRun`, `PrintedRun` | `TraceCanRepeat`, `TraceCanMissFirst`, `TroubleCompletes` |
| a bandwidth is read back | `RelayReadBack` | `ClosingBandwidthIsLost` |
| only the flag Exit lowers a score | `ScoreExactly` | `BadExitIsExit` |
| different labels have different names | `SameNameExactly` | `DottedLabelSharesName` |
| a timeout bounds the polls | `PollsBounded` | `TimeoutCanWrap` |
| connecting and disconnecting never leaks | `LeakFreeExactly`, `CalmExactly` | `LeakHappens` |
| indexing stays in a TCP packet | `CrashExactly` | `ShortSynCrashes` |
| cleaning up restores the Linux rule | `RemoveUndoesAdd` | `RuleCanBeLost` |
| stale Windows routes are replaced | `StaleRoutesRecovered` | `StaleRowStays` |

Check everything with `dafny verify dfyconfig.toml`.

## Model

| member | source | states |
|---|---|---|
| DnsWire.ParseQuestion | internal/dns/server.go:196-236 | the label loop ends in bounds for every packet and returns exactly `QuestionOf`, whose meaning the next rows fix; the packet is not modified |
| DnsWire.ParseInvertsEncoder | internal/dns/server.go:196-236 | a header, any encoded label list and at least four more bytes parse to the joined labels and the mapped type, whatever follows |
| DnsWire.ParseAcceptsExactlyEncodings | internal/dns/server.go:196-236 | parsing succeeds iff the bytes from offset 12 are a zero-terminated label sequence (lengths 1 to 255) and at least four bytes; running off the end never succeeds |
| DnsWire.OverflowExactly | internal/dns/server.go:205-217 | the label-overflow error is raised iff complete labels are followed by a length byte that promises more than is left |
| DnsWire.ErrorsExactly | internal/dns/server.go:196-230 | the too-short error is raised iff there are fewer than 12 bytes, and the missing-type error iff there are enough but neither a whole question nor a cut-off label |
| DnsWire.JoinIsDotted | internal/dns/server.go:235 | the name of one label is the label, of none empty, and between two parts of a label list stands octet 46 |
| DnsWire.JoinInjective | internal/dns/server.go:215-235 | the name determines its labels when no label contains a dot |
| DnsWire.SameNameExactly | internal/dns/server.go:215-235 | two label lists have the same name iff they are the same after splitting every label at its dots |
| DnsWire.DottedLabelSharesName | internal/dns/server.go:215-235 | the label "a.b" and the labels "a" and "b" give the same name |
| DnsWire.BuildResponse | internal/dns/server.go:278-319 | the reply built by the answer loop is `Response`, and the query is not modified |
| DnsWire.BuildServFail | internal/dns/server.go:322-328 | the reply is `ServFail`, and the query is not modified |
| DnsWire.ResponseFormula | internal/dns/server.go:278-319 | for every query and address list: length is that of the query plus 16 per IPv4 address; the answer count equals the records iff the IPv4 addresses number the list's length modulo 256 |
| DnsWire.QuestionStable | internal/dns/server.go:278-328 | both kinds of reply to a parsable query parse to the same name and type and keep the ID, for any addresses |
| Rfc1035.QuestionAgrees | internal/dns/server.go:196-236 | for every message with one question that an RFC 1035 decoder reads, the parser returns the joined labels of its question and the mapped type |
| Rfc1035.ResponseDecodes | internal/dns/server.go:278-319 | for every such message, with any records behind the question and no name that points into the header, the decoder accepts the reply iff the count is right, and then reads the ID and question, QR, RD and RA set, RCODE 0, and as records those of the query and then one A/IN record with TTL 300 per IPv4 address in order, each named through the compression pointer, cut into sections by the counts |
| Rfc1035.ExtraRecordsComeFirst | internal/dns/server.go:278-319 | the code keeps every byte behind the header as question, so the answer section holds the addresses iff they begin the list of the query's records and the addresses; without A records in the query, as with EDNS, iff it has no records or there are no addresses |
| Rfc1035.IPv6ReplyDoesNotDecode | internal/dns/server.go:287-304 | an AAAA query answered with one IPv6 address has a reply that does not decode |
| Rfc1035.EdnsReplyAnswersOpt | internal/dns/server.go:278-319 | the reply with one address to a query with an EDNS record decodes, and its answer section is that record |
| Rfc1035.AllIPv4Decodes | internal/dns/server.go:278-319 | at most 255 addresses, all IPv4: the reply to a query decodes, its records are those of the query and then, at place i, address i |
| Rfc1035.ServFailDecodes | internal/dns/server.go:322-328 | the failure reply decodes to the ID, the question and the records of the query with RCODE 2 |
| DnsCache.TtlExactIffItFits | internal/dns/server.go:161 | the stored lifetime is the TTL in seconds iff the 64-bit product does not wrap |
| DnsCache.TtlCanWrap | internal/dns/server.go:161 | a TTL of 9223372037 seconds gives a negative lifetime |
| DnsCache.Cache.Get | internal/dns/server.go:353-361 | a hit iff the key is present and not past its expiry, with the stored addresses |
| DnsCache.Cache.Set | internal/dns/server.go:363-367 | exactly the one entry changes |
| DnsCache.Cache.Purge | internal/dns/server.go:369-378 | deleting while visiting the keys in any order keeps exactly the entries whose expiry is not past, unchanged |
| DnsCache.GetIsLastSet | internal/dns/server.go:353-378 | after any history under a clock that does not go back, a get succeeds iff the last set of its key has not outlived its TTL, and returns what that set stored |
| DnsCache.PurgingIsInvisible | internal/dns/server.go:343-378 | every get of any such history answers as in the history without its purges |
| DnsCache.SplitKeyInverts | internal/dns/server.go:134 | a cache key reads back to its question, even when the name holds colons |
| DnsCache.CacheKeyInjective | internal/dns/server.go:134 | different (name, type) pairs never share a cache key |
| DnsCache.SharedEntryExactly | internal/dns/server.go:134 | two queries share a cache entry iff their labels agree after splitting at dots and their types agree |
| DnsServer.ParseDoHResponse | internal/dns/server.go:249-274 | the answer loop returns exactly `DohResult`, whose meaning the next row fixes |
| DnsServer.DohResultExactly | internal/dns/server.go:249-274 | a resolve succeeds iff there is a body, its status is 0 and it has a record of type 1 or 28; its addresses are the data of exactly those records in order, and its TTL is that of the last of them with a positive one, else 300 |
| DnsServer.AddressesInOrder | internal/dns/server.go:261-268 | the addresses are those of the type 1 and 28 answers, all of them, once each, in order |
| DnsServer.TtlIsLastPositive | internal/dns/server.go:258-268 | the TTL is positive: that of the last address record with a positive one, or 300 if there is none |
| DnsServer.EveryRunIsSafe | internal/dns/server.go:105-165 | the invariant of handlers and replies holds in every interleaving of handlers, purges and clock steps |
| DnsServer.EveryPhaseHasItsStory | internal/dns/server.go:134-165 | in every interleaving a handler that stores or answers got there by a step of the run: its own resolve of its question, its own failed resolve, or a lookup that found the last answer stored for its question, not outlived |
| DnsServer.CachedAnswersAreResolved | internal/dns/server.go:134-165 | in every interleaving a cache entry of a question is a non-empty answer that a resolve step of exactly that question got and that the same handler stored at a later step, the last to store for it, expiring its positive TTL after that step; failures are never cached |
| DnsServer.LookupExactly | internal/dns/server.go:353-378 | in every interleaving, purges included, the cache answers a question iff the last answer stored for it has not outlived its TTL, and then with that answer |
| DnsServer.GetExactly | internal/dns/server.go:134-140 | so a handler that looks up its question answers from the cache with the last stored answer iff that is fresh, and goes on to resolve otherwise |
| DnsServer.PurgeStepRemovesExpired | internal/dns/server.go:369-378 | a purge step removes exactly the expired entries and changes nothing else |
| DnsServer.RepliesAreExact | internal/dns/server.go:125-165 | in every interleaving a finished handler has sent one reply if its packet parses and none otherwise; each reply has its packet's ID and question, the bytes its cause calls for, and was written at a step of its handler before which that cause happened in the run |
| DnsAnswers.DecodedRepliesAreResolved | internal/dns/server.go:105-165 | in every interleaving, a reply that decodes has its query's question and records, and unless it is a failure then exactly the IPv4 addresses the DoH server answered to one resolve step of that question |
| DnsServer.HandlerCanFinish | internal/dns/server.go:125-165 | from every reachable state a handler's own steps, at most five, finish it |
| DnsServer.Server.HandleQuery | internal/dns/server.go:125-165 | run alone, the handler sends and stores exactly what `HandledAlone` says for each of its outcomes |
| DnsServer.HandlerStepsAreHandleQuery | internal/dns/server.go:125-165 | the machine's steps of one handler, uninterrupted, have the effect of `HandleQuery` |
| TorReplies.Controller.SendCommand | internal/tor/controller.go:311-339 | the read loop returns the framed reply, leaves the stream behind its final line, and fails when the stream ends first or the write fails |
| TorReplies.OkTestIsRedundant | internal/tor/controller.go:329-336 | a line is final iff it has a space at index 3 |
| TorReplies.LineEnds | internal/tor/controller.go:320-328 | a line ends with CRLF or LF, or with the stream when there is anything left |
| TorReplies.FramesThroughFirstFinal | internal/tor/controller.go:320-338 | a command consumes exactly through the first final line, whatever follows |
| TorReplies.NoFinalLineFails | internal/tor/controller.go:320-338 | without a final line the command fails and has read everything |
| TorReplies.CommandsStayInStep | internal/tor/controller.go:311-339 | over any list of replies of the section 2.3 grammar, as many commands return each its own reply and leave the stream at the next one iff no data line, as sent, has a space at index 3 |
| TorReplies.DataLineBreaksStep | internal/tor/controller.go:330 | a data line "123 BUILT" puts commands and replies out of step |
| TorCircuits.GetCircuitInfo | internal/tor/controller.go:253-290 | sends GETINFO circuit-status; the line loop returns the entries of the framed reply, or nothing with the error |
| TorCircuits.ParseParts | internal/tor/controller.go:262-287 | fewer than two fields or a first field that is no number yield nothing, anything else one entry; the argument loop keeps the last purpose |
| TorCircuits.LastPurposeWins | internal/tor/controller.go:275-281 | the purpose is what follows "PURPOSE=" in the last argument that starts so |
| TorCircuits.LastPurposeIsPrinted | internal/tor/controller.go:275-281 | among printed BUILD_FLAGS=, PURPOSE= and other arguments the purpose found is the last one printed, empty if none is |
| TorCircuits.LineIsFinal | internal/tor/controller.go:330 | a circuit line, its ID of one to sixteen letters or digits, ends the read iff the ID is three characters wide |
| TorCircuits.CircuitStatusEndToEnd | internal/tor/controller.go:253-339 | print, frame, parse: all circuits with a number for ID in order and then the entry of "250 OK", the stream at the next reply; or, if some ID is three wide, those through the first such, the rest left unread |
| TorCircuits.CircuitRoundTrip | internal/tor/controller.go:253-339 | ID, status, path and last printed purpose of every circuit come back in order, followed only by the entry of "250 OK", iff every ID is a number, none is three characters wide and every circuit with arguments has a path |
| TorCircuits.OneCircuitBreaksRoundTrip | internal/tor/controller.go:253-339 | the list of the one circuit 123, or 12AB, does not come back |
| Text.AtoiOfSigned | internal/tor/controller.go:266 | signed and unsigned decimals are read within 64 bits and fail beyond |
| Text.TrimSpaceOf | internal/tor/controller.go:221 | trimming removes exactly the blanks around a text that neither starts nor ends with one |
| Text.SpacesAre | internal/tor/controller.go:262 | fields are separated by the characters of the Unicode property White_Space |
| TorBootstrap.WaitForBootstrapWithCallback | internal/tor/controller.go:193-237 | for any replies and delays: exactly which polls are made, the outcome, and the callback trace |
| TorBootstrap.WaitForBootstrap | internal/tor/controller.go:163-188 | the same for the plain loop and what it logs |
| TorBootstrap.SuccessExactly | internal/tor/controller.go:166-187 | success iff a poll started before the deadline reports PROGRESS=100 and every poll before it went on |
| TorBootstrap.FailureExactly | internal/tor/controller.go:166-200 | failure iff a poll started before the deadline brings no reply and every poll before it brought one without "PROGRESS=100"; no poll follows it |
| TorBootstrap.StartsAdd | internal/tor/controller.go:185-234 | between the starts of two polls pass the poll, the whole pause and any oversleeping |
| TorBootstrap.PollsBounded | internal/tor/controller.go:163-237 | at most ceil(deadline/pause) polls, with pauses of 5 and 10 seconds; that is at most ceil(timeout/pause) iff the timeout is positive or does not wrap to a deadline ahead |
| TorBootstrap.TimeoutCanWrap | internal/tor/controller.go:194 | a timeout of -9223372037 seconds gives a deadline far ahead, and every wait with it makes more polls than ceil(timeout/pause) |
| TorBootstrap.ReportsAreDeduped | internal/tor/controller.go:195-235 | the reported percentages are the polled ones with consecutive repeats removed |
| TorBootstrap.TraceEntries | internal/tor/controller.go:201-233 | on any replies the callback sees percentage, tag and summary of exactly the polls whose percentage differs from that of the poll before, in order, and after a success (100, "done", "Done") |
| TorPhase.CommandsReturnPhases | internal/tor/controller.go:196-201 | k phases printed on the wire come back as the replies of k commands, byte for byte, and leave the stream behind them |
| TorPhase.ReadingInvertsPrinting | internal/tor/controller.go:207-229 | from a printed phase of any severity, with any arguments behind it, the percentage and tag read are the printed ones, the summary is read up to its first quote, and all is as printed iff it holds none |
| TorPhase.ReadsOtherReplies | internal/tor/controller.go:207-229 | what is read when a word is missing from the reply or nothing closes its value |
| TorPhase.HundredExactly | internal/tor/controller.go:201 | a printed phase counts as complete iff its percentage is 100 or the text behind it contains "PROGRESS=100" |
| TorTrace.WireIsPrinted | internal/tor/controller.go:193-201 | polls that bring what the commands of a connection return bring the phases printed on it |
| TorTrace.PrintedRun | internal/tor/controller.go:193-237 | on printed replies of any severity the trace is the polled percentages without consecutive repeats iff no phase below 100 is taken for complete; success is a final complete phase, the trace then ends with 100, and it is strictly increasing if the progress never decreases |
| TorTrace.PrintedEntries | internal/tor/controller.go:193-237 | on printed phases without quotes in their summaries the callback sees percentage, tag and summary of exactly those that did not end the wait and changed the percentage, in order, and after a success (100, "done", "Done") |
| TorTrace.PrintedLog | internal/tor/controller.go:174-184 | the plain loop logs the percentage of exactly the printed phases that changed it, in order |
| TorTrace.TroubleCompletes | internal/tor/controller.go:201-206 | a printed warning at 50 percent that repeats the search word ends the wait, and the callback sees only 100 |
| TorTrace.TraceOfAnyRun | internal/tor/controller.go:195-233 | on any replies the trace has no consecutive repeat iff the poll before the one that reports 100 did not already read 100, and is the polled percentages without consecutive repeats iff moreover that poll itself reads as 100 and the first poll does not read -1 |
| TorPhase.CompletingReads | internal/tor/controller.go:201-213 | a reply whose first progress is the 100 found reads as 100 iff a blank follows somewhere and no digit follows at once |
| TorTrace.TraceCanRepeat | internal/tor/controller.go:201-233 | a wait over two whole replies whose callback sees 100 twice |
| TorTrace.TraceCanMissFirst | internal/tor/controller.go:195-233 | a wait over one whole reply that reads -1 and whose callback sees nothing |
| TorTrace.RepliesAreReceived | internal/tor/controller.go:311-339 | the reply of a phase on one line, with any text of one line for its progress, is what a command returns, whatever follows; so those of the last two rows can be received |
| Lifecycle.EveryRunKeeps | cmd/torvpn/main.go:121-267 | the ownership invariant holds in every interleaving of arbitrarily many connects and disconnects |
| Lifecycle.HandlesTogether | cmd/torvpn/main.go:198-267 | the four handles are all nil or all of one attempt, and "connected" means they are set |
| Lifecycle.SingleOwner | cmd/torvpn/main.go:121-267 | a started component has exactly one owner: an attempt in flight, App, the stopped, or the overwritten; no other component has any |
| Lifecycle.NothingStoppedTwice | cmd/torvpn/main.go:171-267 | no Stop or Close runs twice on one component |
| Lifecycle.StopsReverseStarts | cmd/torvpn/main.go:171-267 | the stops of an attempt's components are its starts in reverse order, down to those still live |
| Lifecycle.CalmRunsDoNotLeak | cmd/torvpn/main.go:121-267 | if no disconnect is accepted while connecting, no handle is overwritten, started means stopped, in flight or held, and "disconnected" means all stopped |
| Lifecycle.CalmExactly | cmd/torvpn/main.go:139-248 | no disconnect is accepted while connecting iff "disconnected" is at no point the mode while an attempt is in flight |
| Lifecycle.CanLeakExactly | cmd/torvpn/main.go:121-267 | in every interleaving, the attempts in flight can bring about a leak without any further command iff something has leaked, handles are in use beside an attempt in flight, or two attempts are in flight of which one may still publish |
| Lifecycle.LeakFreeExactly | cmd/torvpn/main.go:121-267 | a run can at no point leak without a further command iff no connect is accepted while an attempt is in flight |
| Lifecycle.ConnectLeaksExactly | cmd/torvpn/main.go:121-137 | after a run without such a connect, accepting one can lead to a leak iff an attempt is in flight |
| Lifecycle.DisconnectLeaksExactly | cmd/torvpn/main.go:139-248 | after a run without a disconnect while connecting, disconnecting and connecting again can leak iff the mode was connecting |
| Lifecycle.LeakHappens | cmd/torvpn/main.go:121-267 | connecting, disconnecting while connecting and connecting again can leak |
| AppLifecycle.App.Connect | cmd/torvpn/main.go:121-206 | the effect of `connect` on fields and stops for each way it can fail or succeed; a failed bootstrap only warns |
| AppLifecycle.App.Disconnect | cmd/torvpn/main.go:241-267 | `disconnect` is the machine's disconnect step |
| AppLifecycle.BootstrapIsIgnored | cmd/torvpn/main.go:145-163 | whether or not the bootstrap succeeds, Tor and the circuit manager are started, nothing else, and nothing is stopped |
| AppLifecycle.ConnectAloneIsARun | cmd/torvpn/main.go:121-206 | `connect` run alone is, for every result of the constructors and of the bootstrap, the listed steps of that attempt, and ends in the same state for both results of the bootstrap |
| Packets.SkippedByBits | internal/tun/device.go:146-153 | a destination is left alone iff its first prefix bits are those of the subnet, or its first eight those of 127 |
| Packets.UdpRoundTrip | internal/tun/device.go:141-172 | any UDP datagram in any IPv4 packet: forwarded as exactly its data iff to port 53 and, bit by bit, outside the subnet and loopback, else dropped |
| Packets.TcpRoundTrip | internal/tun/device.go:141-227 | any TCP segment in any IPv4 packet: one dial to the encoded address and port with the encoded data iff of its eight control bits SYN is set and ACK, FIN and RST are clear, and the destination is, bit by bit, outside the subnet and loopback, else nothing |
| Packets.OtherProtocols | internal/tun/device.go:160-172 | packets of other protocols have no outbound effect |
| Packets.ShortOrForeign | internal/tun/device.go:141-172 | packets that are no IPv4, or whose transport header is cut off, have no outbound effect |
| Packets.CrashExactly | internal/tun/device.go:141-211 | over all byte strings, a slice goes out of range iff an opening segment's data offset points behind the packet |
| Packets.ShortSynCrashes | internal/tun/device.go:205-211 | a 40-byte SYN does so |
| Packets.BufferKeepsQuestion | internal/dns/server.go:86-106 | the resolver's 512-byte buffer keeps a query parsable, and its question the same, iff the question ends within it |
| Packets.EncapsulatedQuery | internal/tun/device.go:245-252 | a DNS query of at most 512 bytes sent through the TUN is forwarded as exactly its bytes and parsed back to its labels and mapped type |
| Routes.Kernel.AddDefaultRoute | internal/tun/tun_linux.go:51-76 | the rule and both /1 routes are added, with the partial state of an early exit |
| Routes.Kernel.RemoveDefaultRoute | internal/tun/tun_linux.go:79-84 | both routes of the device and the rule are deleted, nothing else |
| Routes.AfterAddExactly | internal/tun/tun_linux.go:51-76 | prefix by prefix: adding sets the rule in any case, gives 0.0.0.0/1 and then 128.0.0.0/1 to the device where they are free, stops at the first that is not, and touches no other route |
| Routes.AfterRemoveExactly | internal/tun/tun_linux.go:79-84 | prefix by prefix: removing takes the device's routes of these two prefixes and the rule, and nothing else |
| Routes.SplitPartitions | internal/tun/tun_linux.go:61 | every 32-bit address is covered by exactly one of the two /1 prefixes |
| Routes.SplitRouteWins | internal/tun/tun_linux.go:45-66 | longest-prefix match leaves the TUN only through a route longer than /1, whatever default route there is |
| Routes.TunTakesEverything | internal/tun/tun_linux.go:51-67 | after a successful add every address is routed, and into the TUN unless a longer route covers it |
| Routes.RemoveUndoesAdd | internal/tun/tun_linux.go:51-84 | removing after a successful add restores the routes, and the rule iff it was absent before |
| Routes.RuleCanBeLost | internal/tun/tun_linux.go:51-84 | a rule that was there before is not restored |
| Routes.RemoveAfterFailedAdd | internal/tun/tun_linux.go:62-84 | removing after a failed add leaves the routes removing alone would leave |
| Routes.WindowsTable.AddRoutes | internal/tun/tun_windows.go:79-102 | the loop with delete and re-add succeeds iff no row is refused, and leaves `AfterRoutes` |
| Routes.WindowsTable.RemoveDefaultRoute | internal/tun/tun_windows.go:116-118 | no /1 row is left, others are untouched |
| Routes.StaleRoutesRecovered | internal/tun/tun_windows.go:74-118 | a successful loop leaves exactly the two TUN rows for the /1 prefixes iff no stale row fails to clash with its new row; other prefixes are untouched, and removal leaves what it would have left before |
| Routes.StaleRowStays | internal/tun/tun_windows.go:79-102 | a stale row that does not clash stays beside the new one |
| Routes.RefusedRowsStay | internal/tun/tun_windows.go:79-102 | a refused row ends the loop and leaves the rows of its prefix and of those behind it |
| Routes.SamePrefixClashes | internal/tun/tun_windows.go:89-95 | if rows of one prefix always clash, no stale row stays |
| Relays.ParseOnionooSummary | internal/circuit/manager.go:150-168 | one relay per line with a fingerprint key, in order |
| Relays.RelaysOfLines | internal/circuit/manager.go:150-168 | the parsed relays are those of exactly the lines that contain "f" as a key, in order |
| Relays.DirectoryReadBack | internal/circuit/manager.go:150-168 | a directory of one object to a line is read back: exactly the objects with a fingerprint, in order |
| Relays.ExtractsFirstValue | internal/circuit/manager.go:170-176 | the value between the first start mark and the end mark next after it |
| Relays.ExtractsWithoutEnd | internal/circuit/manager.go:170-176 | everything behind the first start mark when no end mark follows |
| Relays.ExtractsWithoutStart | internal/circuit/manager.go:170-176 | nothing when there is no start mark |
| Relays.RelayReadBack | internal/circuit/manager.go:150-168 | for any order of the fields of a relay object, parsing gives back the first fingerprint, nickname and flags, and the bandwidth, any number, forced into 64 bits and in whole KB towards zero, unless it closes the object, which reads as 0; the line counts iff it has a fingerprint |
| Relays.ClosingBandwidthIsLost | internal/circuit/manager.go:156-165 | a bandwidth of 2048 that closes its object is read as 0 |
| Relays.ScoreRelays | internal/circuit/manager.go:137-148 | every relay is scored in place and nothing else changes |
| Relays.ScoreExactly | internal/circuit/manager.go:137-148 | the score is the bandwidth times 1.5, 1.2, 1.1 and 0.2, a factor each for Stable, Fast, Guard and Exit within some word of the flag list |
| Relays.BadExitIsExit | internal/circuit/manager.go:144 | a relay flagged BadExit gets the factor of an exit |
| Relays.ScoreMonotone | internal/circuit/manager.go:137-148 | with the same flags, more bandwidth never scores lower |
| Relays.ExitRanksBelow | internal/circuit/manager.go:141-144 | at equal positive bandwidth an Exit relay scores at most 0.396 of it, with equality iff it has every bonus, below every relay that is no exit |
| Relays.Manager.RefreshRelays | internal/circuit/manager.go:117-135 | the stored relays become a score-descending permutation of the parsed ones, or stay as they were on failure |
| Relays.Manager.TopRelays | internal/circuit/manager.go:58-69 | the first min(n, count) stored relays |
| Relays.TopAreBest | internal/circuit/manager.go:58-69 | for n >= 0 the result has min(n, count) of the parsed relays and none left out scores higher than one returned |
| Relays.TopTotalIsHighest | internal/circuit/manager.go:58-69 | no other choice of as many relays has a higher total score |

## Left out

- Sockets, SOCKS dialling, HTTP and TLS, JSON decoding, `net.ParseIP` and `net.ParseCIDR`: what they return is a parameter.
- DnsServer.RepliesAreExact: freshness of a cache hit is stated for the moment of the lookup; the program may send the reply later.
- `Server.Stop` and failed UDP writes: a handler's write always counts as sent.
- TorReplies.Controller.SendCommand: concurrent callers are not modelled; the code has no lock there. A deadline shows as the end of the stream.
- TorBootstrap.WaitForBootstrapWithCallback: the replies of its polls are parameters; `TorTrace.WireIsPrinted` links them to what commands return.
- TorCircuits.CircuitRoundTrip: status words of one letter are excluded; the specification has none.
- The launch of Tor, cookie authentication and the torrc file.
- Lifecycle.LeakFreeExactly: a leak that can follow depends on how the attempts in flight go on; schedules are not given probabilities.
- Rfc1035.ResponseDecodes: messages with a name that points into the message header are not covered; the header changes in the reply.
- `statsTicker`, `AddBytes`, `newCircuit` and `getCircuits`: a sum of differences and a nil check would only add easy members.
- Routes.StaleRoutesRecovered: what Windows reports as an existing route is a parameter; host route, metric and DNS settings are not modelled.
- The device's read loop, the TCP response relay, and the Linux sysctl beyond its success or failure.
- Relays.Manager.RefreshRelays: scores are exact reals, not floating point; the library sort is represented by its contract; lines too long for the scanner are not modelled.
- The GUI, the API server, exit-IP detection and the update check.
