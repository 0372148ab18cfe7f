# PX Manager: a verified model of its stateful cores

This project models the parts of PX Manager whose correctness depends on whole
runs and proves what those parts are for.

* **Ban engine** (`BanModel`, `BanStore`, `BanHistory`, `BanRate`, `BanLimits`,
  `BanDurability`):
  the sliding-window failure lists, the bans with a term, and the file that
  mirrors the bans. `BanModel` states the effect of each operation on values;
  `BanStore` reaches it with the program's own object, nested and overriding
  calls, and a disk on which writing the temporary file and renaming it are
  separate steps.
* **Two caches in order of last use** (`Lru`, `SingleFlight`, `ReputationCache`,
  `DnsCache`): the reputation cache with one load per key, and the cache of
  resolved names, as transition systems whose steps are the pieces of code
  between two awaits, and as objects.
* **Fake TLS** (`Bytes`, `Framing`, `MtgConnection`, `FakeTls`): record framing,
  the stream cipher, packet lengths and padding, and the authenticated hello.
* **Tunnels and the HTTP/3 speed test** (`H2Flow`, `H2Streams`, `H2Answers`,
  `TcpTunnel`, `QuicTunnel`, `H3Response`, `Http3Client`): flow-controlled sending, capped
  buffers, and a response completed by events.
* **Text** (`Utf8`, `TailLines`, `Retpath`, `Quoting`): reading the last lines of
  a file backwards, checking return paths, quoting and unquoting. `Wrappers` holds
  the option type the modules share.

## Assumptions

Times are integers and every reading of a clock is an argument; in runs of the
ban engine and of the name cache the clock never runs backwards (`TimelyRun`,
`Timely`). The constants the ban engine relies on are hypotheses that the
production values meet: a positive window for the results on pruning, `Sound`
(the window is also no longer than the term of a ban) for those on rates, and
`Durable` (both failure limits are at least two) for those on the file.
HMAC-SHA256 is an arbitrary function with 32 bytes of output, the cipher an
exclusive or with an arbitrary key stream, and the HTTP/2 and QUIC libraries
hand over arbitrary lists of events and window changes. The frame limit is
positive, as section 6.5.2 of RFC 9113 demands. The stream readers of the event
loop behave as the standard library's: a read that finds nothing sleeps, feeding
wakes it, an exception is seen when a read begins or while it sleeps, one read
sleeps at a time and a second one raises.

## Where the code does less than one may expect

* `_record_failure` of the persistent store writes the file only when the set of
  banned addresses changed. With a limit of one, a new ban of an address whose
  expired ban was still in memory is not written:
  `BanDurability.FailureKeepsSync` states exactly when file and memory agree,
  `BanDurability.UnsavedBanExample` gives an input for which they do not.
* `TcpTunnel.send` waits for a window of zero only. Section 6.9.2 of RFC 9113
  lets a window fall below zero; `H2Flow.RefusedOnNegativeWindow` states for
  which windows and batches the library refuses data, and
  `H2Flow.RefusedExample` gives one.
* While a receive and a send both wait on the connection, the send can take from
  the stream reader the bytes that had woken the receive, which then finds
  nothing and reports the end of the stream. `H2Streams.FalseEndExactly` states
  when exactly, `H2Streams.UnrobbedEnds` that it does not happen otherwise, and
  `H2Streams.FalseEndExample` gives a run. In the same way a task can be forgotten
  asleep: `H2Streams.DeafExactly`, `H2Streams.DeafForever`, `H2Streams.DeafExample`.
  The interface of a byte stream permits such use. The program does not provoke
  it: its one caller, `proxy_request`, sends and receives in turn in a single task.
* A receive of the HTTP/3 tunnel that was woken by data delivers them even when
  the tunnel fails before it resumes: `QuicTunnel.NothingAfterFailure`,
  `QuicTunnel.WokenReadOutrunsFailure`.
* `recv` cuts a payload down to a multiple of four bytes:
  `Framing.ReceivedPayload` states exactly which payloads come back unchanged,
  `Framing.CutPayloadExample` gives one that does not.
* `format_log_value` writes nothing as a dash, so the round trip holds exactly
  for what is not empty: `Quoting.FormatParsesBack`.
* Stopping the backward reader at as many newlines as lines are asked for would
  be one too early: `TailLines.EqualNewlinesAreNotEnough`.

## Model

| member | source | states |
|---|---|---|
| `BanStore.PersistentBanStore.constructor` | main.py:364-373 | A store started on any file holds the bans of that file in force at the two clock readings; every state of the file on the way is one a crash during the start may leave |
| `BanStore.PersistentBanStore.Load` | main.py:375-409 | A missing or unreadable file gives no bans, a list gives those in force, and then expired ones are cleaned up and the list rewritten if any were dropped |
| `BanStore.PersistentBanStore.Save` | main.py:411-424 | Three disk states follow: a torn temporary file, a full one, the renamed one; the file itself holds the old or the new list at each |
| `BanStore.PersistentBanStore.IsBanned` | main.py:234-243 | True exactly for a ban not yet expired; an expired one is dropped through the overriding delete, which saves |
| `BanStore.PersistentBanStore.RecordLoginFailure` | main.py:245-256 | The effect of one login failure on memory and file; a crash at any point leaves a permitted file |
| `BanStore.PersistentBanStore.RecordAuthFailure` | main.py:258-269 | The same for a request without a session |
| `BanStore.PersistentBanStore.RecordFailure` | main.py:426-444 | Memory and file after a failure, the file written when the banned addresses changed; every file state on the way is a permitted crash image |
| `BanStore.PersistentBanStore.SuperRecordFailure` | main.py:271-315 | The inherited part reaches the same memory, with the file as the nested ban check left it |
| `BanStore.PersistentBanStore.RecordSuccess` | main.py:317-318 | Forgets the login failures of the address and nothing else |
| `BanStore.PersistentBanStore.ActiveBans` | main.py:320-322 | Lists exactly the bans in force at the time asked, each once and soonest to end first, after a full cleanup |
| `BanStore.SortedByExpiry` | main.py:322 | Sorting lists every ban once, none before one that ends sooner |
| `BanStore.PersistentBanStore.Delete` | main.py:446-450 | Drops ban and failures of one address and writes the file if there was a ban |
| `BanStore.PersistentBanStore.SuperDelete` | main.py:324-335 | Drops ban and both failure lists of one address, the rest stays |
| `BanStore.PersistentBanStore.CleanupExpired` | main.py:452-456 | All expired bans go, both failure tables are pruned, and the file holds what is left; every file state on the way is a permitted crash image |
| `BanStore.PersistentBanStore.SuperCleanupExpired` | main.py:337-344 | Deleting one by one, with a save each time, amounts to dropping all expired bans at once, in whatever order the addresses come |
| `BanStore.PersistentBanStore.CleanupFailures` | main.py:346-360 | The loop leaves each list pruned to the window and no empty lists |
| `BanStore.SavedWhenBansChange` | main.py:435-444 | After a failure the file is what the ban check left or the new list, by whether the banned addresses changed |
| `BanHistory.JudgeByCount` | main.py:280-292 | A failure of an address not banned is noted or bans by the length of the pruned list, with term and client of the ban |
| `BanHistory.StepByVerdict` | main.py:293-315 | The state after a failure follows from its verdict: counted, or banned with both lists emptied |
| `BanHistory.RecentOfRecent` | main.py:284-289 | Pruning at an earlier cutoff never changes a later pruning |
| `BanHistory.CleanedSimulates` | main.py:337-360 | A cleanup leaves the store indistinguishable from the ledger that never forgets |
| `BanHistory.StepSimulates` | main.py:234-360 | Every operation gives the ledger's verdict and keeps store and ledger indistinguishable |
| `BanHistory.RunSimulates` | main.py:234-360 | The same over every run with a clock that does not run backwards |
| `BanHistory.PruningIsExact` | main.py:271-360 | In every run a failure is ignored, noted or bans exactly as decided by the full unpruned history since the last reset |
| `BanHistory.CleanupIsInvisible` | main.py:337-360 | Runs with the same failures and logins get the same decisions, wherever they clean up or query |
| `BanLimits.LoginFailureBans` | main.py:245-315 | In every run of a started store a failed login is ignored exactly while its address is banned, and else bans if and only if `loginLimit` failed logins since the last reset, itself included, lie in the window |
| `BanLimits.AuthFailureBans` | main.py:258-315 | The same for requests without a session and `authLimit` |
| `BanLimits.FifthLoginFailureBans` | main.py:64-67 | With the production constants the fifth failed login within an hour bans for three hours and the four before do not |
| `BanLimits.TwentiethRequestBans` | main.py:65-67 | With the production constants the twentieth request without a session within an hour bans for three hours and the nineteen before do not |
| `BanRate.SpacedBoundsWindow` | main.py:284-292 | Times of which any limit-plus-one consecutive ones span a window are at most the limit in any window |
| `BanRate.QuietRun` | main.py:284-315 | No reachable unpruned history holds as many failures in a window as would have made a ban |
| `BanRate.NextIsSpaced` | main.py:280-315 | The next failure that is not ignored comes at least a window after the one limit-many before it, across bans of either kind |
| `BanRate.StretchIsSpaced` | main.py:280-318 | The same over any stretch of a run, for logins without a successful one |
| `BanRate.RateBound` | main.py:64-67 | In any stretch of any run no window holds more recorded failures of an address and kind than its limit |
| `BanLimits.LoginRateBound` | main.py:245-256 | In any stretch without a successful login no window holds more recorded failed logins of an address than `loginLimit` |
| `BanLimits.AuthRateBound` | main.py:258-269 | In any stretch no window holds more recorded requests of an address without a session than `authLimit` |
| `BanRate.BanLastsItsTerm` | main.py:234-243 | A ban made by a failure stays in force, unchanged, for exactly its term; no other ban of the address starts before its end |
| `BanDurability.FailureKeepsSync` | main.py:435-444 | A failure keeps file and memory in agreement if and only if it is not a limit of at most one meeting an expired ban still in memory |
| `BanDurability.UnsavedBanExample` | main.py:435-444 | With a limit of one, a ban in force that the file does not list |
| `BanDurability.StepInSync` | main.py:426-456 | With both limits at least two every operation keeps file and memory in agreement |
| `BanDurability.StartedInSync` | main.py:375-409 | A store started on any file agrees with it, even while it lists expired bans, and enforces exactly its bans in force |
| `BanDurability.ProductionIsDurable` | main.py:64-67 | The production constants meet both hypotheses |
| `BanDurability.InSyncMeansRestartable` | main.py:388-407 | Agreement at one time makes a restart at any later time find exactly the bans enforced then |
| `BanDurability.BansAfter` | main.py:234-360 | No operation changes which bans are in force afterwards, except for the one ban a failure creates |
| `BanDurability.CrashLosesAtMostTheNewBan` | main.py:411-456 | A restart after a crash anywhere inside an operation finds the bans of the finished operation, short of at most the one it was creating |
| `BanDurability.CrashWhileStarting` | main.py:375-409 | A crash while a store starts changes nothing for the next start |
| `BanDurability.CrashedLifeGoesOn` | main.py:375-456 | After a crash inside an operation, and any number of starts that crash too, the store that starts enforces the bans of the finished operation, short of at most the one it was creating |
| `BanDurability.RestartEquivalence` | main.py:375-456 | After any life of operations, crashes inside them, crashed and completed starts on any first file, one more restart loads exactly the bans the running store would enforce |
| `BanDurability.NoBanOutOfThinAir` | main.py:293-299 | In any such life every ban in memory or file was in the first file or was created by an operation, unchanged |
| `BanDurability.BansSurvive` | main.py:375-456 | In any such life every ban that would be in force at a time after it still is, unchanged |
| `Lru.Evict` | reputation.py:69-70 | The eviction loop leaves the newest entries up to the bound |
| `Lru.ReplayKeepsShape` | reputation.py:51-71 | After any uses the keys are distinct and the size is within its bound |
| `Lru.CachedIsLastStored` | reputation.py:51-71 | Whatever is cached is the value stored last under its key |
| `Lru.OrderedByLastUse` | reputation.py:54-70 | After any uses the entries stand in the order of their last use |
| `Lru.StillCached` | reputation.py:66-70 | A used key that was not dropped is still cached while fewer other keys than the bound were used |
| `ReputationCache.Service.CachedCheck` | reputation.py:51-78 | A caller up to its await makes the arrival step: a hit, joining a pending load, or starting one |
| `ReputationCache.Service.Load` | reputation.py:59-71 | A load from the provider's reply to its end makes the completion step |
| `ReputationCache.Service.LoadDone` | reputation.py:77 | The done callback makes the retiring step, removing by key |
| `ReputationCache.Service.Wake` | reputation.py:78 | A waiting caller returns the result of its load |
| `ReputationCache.Service.CancelCaller` | reputation.py:78 | Cancelling a shielded caller ends that caller only |
| `SingleFlight.SingleFlightInEveryRun` | reputation.py:73-78 | In every interleaving a key is pending exactly while it has a load not yet retired, with that load and no second one; what a caller returned is what its load produced |
| `SingleFlight.CallbackRemovesOnlyItsOwn` | reputation.py:77 | The callback, which removes by key, never removes another load |
| `SingleFlight.EveryMissIsServed` | reputation.py:59-78 | A caller that misses and is not cancelled returns the result of the very load it joined, also one complete but not yet retired |
| `SingleFlight.ResultsStay` | reputation.py:59-71 | The result of a load never changes |
| `SingleFlight.CancellingChangesNothingElse` | reputation.py:78 | Removing all cancellations from any run changes neither cache, loads nor other callers |
| `SingleFlight.OnlyGoodIsStored` | reputation.py:60-67 | Everything ever stored has status ok and is not marked as cached |
| `SingleFlight.LoadTellsReply` | reputation.py:60-71 | In every run a load ends with the reply it got: the status given, or "error" for a check that raised or gave none; it is cached as the newest entry of its key exactly when the reply was ok, else the cache stays as it was |
| `SingleFlight.StoresTellGoodReplies` | reputation.py:66-67 | Whatever was ever stored comes from a step in which a running load of that key got an ok reply, with its detail and times |
| `SingleFlight.CallersAreToldTheReply` | reputation.py:73-78 | Every caller waiting for a load returns what its reply says, unchanged |
| `SingleFlight.HitExactly` | reputation.py:53-57 | A caller is answered from the cache if and only if an entry of its key is there that was stored less than a day ago |
| `SingleFlight.HitsAreTheLatestGoodLoad` | reputation.py:53-57 | A hit returns the latest good load of its key, younger than a day, and leaves its age; size and order hold at every await |
| `SingleFlight.RecentlyUsedIsCached` | reputation.py:66-70 | In every run a key used and not looked up in vain since is still cached while fewer than 1024 other keys were used |
| `DnsCache.Resolutions.Begin` | main.py:2097-2104 | A caller up to its await makes the asking step under the lowercased host, whatever lowercasing does |
| `DnsCache.Resolutions.Finish` | main.py:2105-2115 | A resolution that ends stores a good answer for an hour, evicts, and returns the answer |
| `DnsCache.ExpiryNeverMovesEarlier` | main.py:2105-2114 | Under concurrent misses, over any stretch of a run in which a key stays cached, its expiry never moves earlier |
| `DnsCache.HitsAreTheLatestGoodAnswer` | main.py:2099-2103 | A hit returns the latest good unexpired answer for the lowercased host and resolver; size and order hold at every await |
| `DnsCache.HitExactly` | main.py:2099-2103 | A caller is answered without a resolution if and only if an unexpired entry of its lowercased host and resolver is there |
| `DnsCache.ResolutionIsKept` | main.py:2105-2115 | A resolution gives its own answer to its caller; a good one is cached to expire an hour later, another leaves the cache as it was |
| `DnsCache.LowerIgnoresCase` | main.py:2099 | ASCII hosts that differ in letter case only have the same lowercase |
| `DnsCache.AnyCaseIsTheSameStep` | main.py:2099-2103 | Asking for an ASCII host in another letter case is the same step, so it hits the same entry |
| `Framing.RecordRoundTrip` | mtg_health.py:43-48 | A record of 1 to 18432 bytes in front of any input is read back whole |
| `Framing.ReadsRecordsExactly` | mtg_health.py:43-48 | A record is read if and only if it has the right version, 1 to 18432 bytes and is there in full; a cut one is incomplete, any other is refused |
| `Framing.RecordOnWire` | mtg_health.py:95-96 | The header bytes of a record: type 23, version, length most significant byte first |
| `Framing.SentStream` | mtg_health.py:98-103 | The bytes of all records are the encrypted stream of packets, and each record carries 1 to 16384 bytes (section 5.1 of RFC 8446) |
| `Framing.ChunksAreFull` | mtg_health.py:102-103 | All records of a message but the last carry 16384 bytes |
| `Framing.PacketOnWire` | mtg_health.py:100 | A packet starts with its length in four bytes, least significant first |
| `Framing.SentBytesAreKeyed` | mtg_health.py:101-103 | Every byte sent is the plain one combined with the key stream at its own position; the two differ by exactly that |
| `Bytes.XorAt` | mtg_health.py:37-38 | A bit of an exclusive or is set exactly when it is set in one of the two bytes |
| `Framing.SentInTurn` | mtg_health.py:98-103 | A further message continues the key stream where the others ended |
| `Framing.ReceivedPayload` | mtg_health.py:116-121 | A payload comes back unchanged if and only if its length is a multiple of four and the packet is neither empty nor over the limit; otherwise payload and padding come back cut to a multiple of four |
| `Framing.RefusesLengths` | mtg_health.py:117-119 | A length is refused if and only if it is zero or over 1048576 |
| `Framing.RefusesOthers` | mtg_health.py:107-110 | A record that is refused, cut off, or not application data fails the read that needs it |
| `Framing.CutPayloadExample` | mtg_health.py:121 | Five bytes come back as four |
| `Framing.DeliveredInOrder` | mtg_health.py:106-121 | A receiver that sees a stream of packets returns their payloads in order and ends aligned |
| `Framing.MessagesRoundTrip` | mtg_health.py:95-121 | However the sent bytes are regrouped into records, exactly the payloads are received in order, nothing is left over, and both key streams stand at the same position |
| `MtgConnection.Connection.WriteRecord` | mtg_health.py:95-96 | Appends one record of application data to the output; fails, changing nothing, exactly when the length does not fit two bytes |
| `MtgConnection.Connection.Send` | mtg_health.py:98-104 | Writes the records of one message and advances the key stream by its packet; fails, changing nothing, exactly when the length does not fit four bytes |
| `MtgConnection.Connection.WriteRecords` | mtg_health.py:102-103 | The offset loop writes all of the packet in chunks |
| `MtgConnection.Connection.ReadExactly` | mtg_health.py:106-114 | The buffer loop takes exactly the bytes asked for, or fails on a bad, foreign or missing record |
| `MtgConnection.Connection.Receive` | mtg_health.py:116-121 | Receives one message, or fails on a bad length |
| `FakeTls.MakeClientHello` | mtg_health.py:16-40 | Succeeds exactly on a good secret, domain, hello and time, and names the first fault otherwise; zeroing the random field recovers what was signed, and field and signature differ by 28 zero bytes and the time |
| `FakeTls.Stamp` | mtg_health.py:35-38 | The loop over the last four bytes mixes in the time and leaves the rest |
| `FakeTls.DomainIsGood` | mtg_health.py:19-21 | True exactly for 1 to 253 ASCII bytes without white space |
| `FakeTls.Handshake` | mtg_health.py:51-70 | Accepts if and only if the input starts with a server hello, the fixed record and a data record whose signature over client random, zeroed hello and both records is right |
| `FakeTls.HonestServerIsAccepted` | mtg_health.py:64-68 | Whatever hello a server chooses, filling its field with the signature is the one filling that is accepted |
| `H2Flow.AbsorbFacts` | proxy_transport.py:50-66 | Handling a batch appends its data in order and notes an end exactly when it is there; it fails exactly by passing the cap |
| `H2Answers.PumpExactly` | proxy_transport.py:45-69 | What one read gives: the end when nothing is left, a protocol error exactly for rejected bytes, and for a batch its data, end, window change and frame limit unless the data pass 131072 bytes |
| `H2Flow.SendIsLossless` | proxy_transport.py:89-103 | Whatever windows, limits and events occur, the data sent are a prefix of the item, and all of it on normal return |
| `H2Flow.SendStaysWithinCredit` | proxy_transport.py:91-103 | No frame is empty or exceeds window or frame limit when sent (sections 5.2 and 6.9.1 of RFC 9113) |
| `H2Flow.RefusedOnNegativeWindow` | proxy_transport.py:91-103 | Data are refused if and only if window, batches and bytes left alone take the window below zero before all are sent |
| `H2Flow.NothingRefused` | proxy_transport.py:91-103 | While neither the first window nor any change of it is negative, no data are refused |
| `H2Flow.RefusedExample` | proxy_transport.py:95-102 | Two bytes, a window of one and a change to below zero: the second byte is refused |
| `H2Answers.SendEndsAsFated` | proxy_transport.py:89-103 | How a send ends is determined by windows, batches and the number of bytes alone; it returns normally exactly when all are sent before the stream, connection or protocol fails and before a window falls below zero |
| `H2Answers.PushSendsTheNext` | proxy_transport.py:91-103 | With credit one frame carries the next bytes of the item, as many as window, frame limit and item allow |
| `H2Streams.ReceiveConserves` | proxy_transport.py:71-83 | Receiving loses nothing; the end is reported only with an empty buffer and an ended stream or input |
| `H2Answers.ReceiveExactly` | proxy_transport.py:77-83 | A receive gives the front of the buffer, as much as asked for; with an empty one the end if the stream has ended, else what the first batch that is not empty gives: the front of its data, the end, or an error |
| `H2Answers.ReceiveTakesTheFront` | proxy_transport.py:81-82 | The same of a receive in an interleaving |
| `H2Streams.SendConserves` | proxy_transport.py:85-103 | Events handled while sending waits lose no received data |
| `H2Streams.AwaitConserves` | proxy_transport.py:230-244 | Data before or with the CONNECT response stay buffered |
| `H2Answers.AnsweredExactly` | proxy_transport.py:230-244 | The CONNECT loop answers a status if and only if it is that of the first response, in a batch that could be read and before which the stream did not end; one together with the end counts |
| `H2Answers.WaitFailsExactly` | proxy_transport.py:230-244 | It fails exactly because the connection ended or the stream did without a response, because bytes were rejected, or because data passed the cap, and says which |
| `H2Streams.EveryInterleavingIsIntact` | proxy_transport.py:45-105 | In every interleaving of sending and receiving, from any buffer within the cap, also after an end, a protocol error, a refusal or a cancellation, sent data are a prefix of what was given, within credit; unless a batch overfilled the buffer, received plus buffered data are exactly those buffered before and those that arrived |
| `H2Streams.NothingIsLostSinceConnect` | proxy_transport.py:45-105 | The same from the wait for the CONNECT response on: what came with or before the response and all that came since is received or buffered, in order, and received before any end told to a receiver that was not robbed |
| `H2Streams.DeafExactly` | proxy_transport.py:46 | In every run a step makes a task deaf if and only if the other, robbed or deaf itself, leaves its read while this one sleeps |
| `H2Streams.DeafForever` | proxy_transport.py:46 | Until it is cancelled a deaf task never wakes: a receiver gets neither data nor an end, a sender sends nothing |
| `H2Streams.DeafExample` | proxy_transport.py:95-101 | A run that leaves the sender deaf |
| `H2Streams.EndsAreTimely` | proxy_transport.py:77-80 | In every interleaving, an end reported to a receiver that was not robbed comes after it received everything that was buffered and that arrived, and the stream has ended or all input was read |
| `H2Streams.RobbedNext` | proxy_transport.py:46 | A receiver is robbed exactly when the sender takes from the reader the bytes that had woken it |
| `H2Streams.UnrobbedEnds` | proxy_transport.py:45-105 | If the sender never does so in a run, every report of the end in that run is one of those above |
| `H2Streams.FalseEndExactly` | proxy_transport.py:46-48 | In every reachable state a step reports an end too early if and only if a robbed receiver resumes, finds the reader empty or the connection ended, and data are buffered or to come |
| `H2Streams.FalseEndExample` | proxy_transport.py:46-48 | A run in which the receiver is told the end while a byte waits for it and another is to come |
| `TcpTunnel.H2Connection.constructor` | proxy_transport.py:39-43 | A tunnel starts with an empty buffer on a stream that has not ended |
| `TcpTunnel.H2Connection.Frames` | proxy_transport.py:45-69 | One read: end of input, a protocol error, or events handled in order up to one over the cap |
| `TcpTunnel.H2Connection.Receive` | proxy_transport.py:71-83 | Waits for data or the end, then takes some from the front |
| `TcpTunnel.H2Connection.Send` | proxy_transport.py:85-105 | The offset loop makes the send steps and terminates, by unread input and unsent bytes |
| `TcpTunnel.H2Connection.AwaitResponse` | proxy_transport.py:230-244 | Returns the first response of the first batch that has one, or fails when reading fails or the stream ends before |
| `QuicTunnel.Tunnel.Feed` | proxy_transport.py:122-128 | Counts first, then fails, or appends and wakes a sleeping receive |
| `QuicTunnel.Tunnel.Receive` | proxy_transport.py:130-135 | A receive up to where it sleeps: raises after a failure, takes from the front and counts down, reports the end, or sleeps when there is nothing |
| `QuicTunnel.Tunnel.Continue` | proxy_transport.py:131-135 | The rest of a receive that slept: raises if an exception woke it, else takes what is there, even after a later failure |
| `QuicTunnel.Tunnel.SetException` | proxy_transport.py:125 | Fails the reader and, of a receive, reaches only one still asleep |
| `QuicTunnel.Tunnel.FeedEof` | proxy_transport.py:178 | Ends the stream and wakes a sleeping receive |
| `QuicTunnel.FedIsReturnedOrWaiting` | proxy_transport.py:122-135 | In every run until a failure, returned plus waiting bytes are exactly those fed, the counter is their number, within the cap; it fails by itself only over the cap |
| `QuicTunnel.ReturnedIsPrefixOfFed` | proxy_transport.py:122-135 | In every run, failed or not, the bytes returned are a prefix of the bytes fed |
| `QuicTunnel.FailsExactly` | proxy_transport.py:122-125 | In every run the tunnel has failed if and only if it was told to or more than 131072 bytes waited at some moment |
| `QuicTunnel.CallAnswers` | proxy_transport.py:130-135 | In every run a receive raises after a failure, else gives the next bytes fed, as many as wait up to those asked for, else the end if the stream was ended, else sleeps |
| `QuicTunnel.ResumeAnswers` | proxy_transport.py:131-135 | A woken receive gives the next bytes, or the end only if the stream was ended and all was returned |
| `QuicTunnel.EndComesLast` | proxy_transport.py:131-133 | The end is reported only when the stream was ended and everything fed was returned |
| `QuicTunnel.SleepsForAsMuch` | proxy_transport.py:131 | A sleeping receive keeps asking for as many bytes as it was called with |
| `QuicTunnel.SleeperRaises` | proxy_transport.py:125 | A receive asleep when the tunnel fails raises when it resumes |
| `QuicTunnel.NothingAfterFailure` | proxy_transport.py:122-135 | A failed tunnel never delivers anything again if and only if no receive had been woken by data and not yet resumed |
| `QuicTunnel.OnlyTheWokenReadDelivers` | proxy_transport.py:130-135 | After a failure a step delivers if and only if it resumes that one receive, for the first time |
| `QuicTunnel.WokenReadOutrunsFailure` | proxy_transport.py:130-135 | A sleeping receive, one byte and a failure in the same turn: the byte is delivered after the failure |
| `Http3Client.Session.QuicEventReceived` | proxy_speed.py:83-124 | An event is handled as the end of the connection, if it is one, and then its messages in order |
| `Http3Client.Session.OnHttpMessage` | proxy_speed.py:91-124 | One message makes one step of the response machine |
| `Http3Client.Session.SetResult` | proxy_speed.py:87-124 | The future is completed only while it is pending |
| `Http3Client.Session.Request` | proxy_speed.py:126-173 | A report needs all chunks handed over and carries byte count, body, time to the first byte and time in all; early reply, failure and timeout are told apart exactly by chunks and events |
| `Http3Client.Session.HandOver` | proxy_speed.py:150-162 | Chunks are handed over in order and only while the response is open, up to all of them |
| `Http3Client.OutcomeMeans` | proxy_speed.py:150-173 | Report, early reply, error and timeout by the events alone: a report needs all chunks and a good response and carries what arrived up to its end, an error names what first decided the response badly, the time is up when nothing does |
| `Http3Client.Body` | proxy_speed.py:313-315 | The generator's blocks have the sizes of the same chunks |
| `H3Response.OpenIsPending` | proxy_speed.py:90-124 | The response is pending exactly while nothing has decided it, with count, body and time to the first byte those of its own stream so far |
| `H3Response.SucceedsExactlyWhenGood` | proxy_speed.py:83-124 | In every event sequence a request succeeds if and only if its own stream ends after 2xx headers, with no status from 300 on, no interruption and data within the limit before; count and body are that stream's data up to there, the time to the first byte that of its last good headers |
| `H3Response.FailsExactly` | proxy_speed.py:83-124 | A request fails for a reason if and only if that first decides it: an interruption, a status from 300 on, data over the limit, or an end without good headers |
| `H3Response.DoneIsFinal` | proxy_speed.py:91-96 | Once completed, no event changes the result |
| `H3Response.UploadIsExact` | proxy_speed.py:150-155 | The chunks add up to the upload, all but the last are 65536 bytes, the last is not empty, and exactly the last one ends the stream |
| `Utf8.DecodeAtNewline` | main.py:2671 | Decoding with replacement cuts in two at every newline byte, whatever ill-formed bytes surround it |
| `Utf8.StrictIsNoLonger` | main.py:474 | Strict decoding gives no more characters than bytes |
| `Utf8.StrictExactly` | main.py:474 | Strict decoding gives a text if and only if the bytes are its encoding |
| `Utf8.ReplacingDecodes` | main.py:2671 | Decoding with replacement gives back encoded text |
| `Utf8.IllFormedIsMaximal` | main.py:2671 | A piece that is replaced is as long as it can be: no character goes on as the bytes do, and one of more than one byte starts some character |
| `TailLines.LinesAtNewline` | main.py:2671 | Splitting text into lines cuts in two behind every newline, for all of Python's line breaks |
| `TailLines.LinesAreJoined` | main.py:2671 | Splitting a text joined from lines and breaks gives those lines, with or without a break behind the last |
| `TailLines.EveryTextIsJoined` | main.py:2671 | Every text is joined from its lines and some breaks |
| `TailLines.LastNIsTheEnd` | main.py:2671 | The last lines are the end of the lines, as many as asked for or all |
| `TailLines.TailSuffices` | main.py:2662-2671 | Any tail of a file with more newlines than lines asked for shows the file's own last lines |
| `TailLines.EqualNewlinesAreNotEnough` | main.py:2663 | A file and tail with as many newlines as lines asked for that show different lines |
| `TailLines.ReadTailLines` | main.py:2653-2671 | For every file, count and block size the backward reader returns the last lines of the whole decoded file |
| `Retpath.UnquoteShrinks` | main.py:474 | A percent-decoding that changes a text removes at least two characters |
| `Retpath.DecodesSpelled` | main.py:474 | Whatever bytes are escaped, and in whatever case, decoding gives a text if and only if they are its encoding, and fails if there is none |
| `Retpath.KeepsOthers` | main.py:474 | A character outside ASCII is kept |
| `Retpath.NothingToDecode` | main.py:474 | A text without a percent sign before two hexadecimal digits is decoded to itself |
| `Retpath.RoundsBound` | main.py:463-478 | Twice the number of rounds is at most the length plus two |
| `Retpath.AcceptsExactly` | main.py:463-478 | The loop accepts if and only if every iterate of decoding exists and is a local path; an input of the permitted length takes at most 1025 rounds |
| `Retpath.LocalNamesNoHost` | main.py:464-472 | A local path never has a scheme or a host, so that check never decides |
| `Retpath.SafeRetpath` | main.py:459-479 | Returns its input exactly when it is short and stays a local path however often it is decoded, otherwise the root |
| `Retpath.SafeIsSafe` | main.py:459-479 | The check is idempotent, and its result stays a local path under any number of decodings |
| `Retpath.EscapingDoesNotHelp` | main.py:463-478 | However a text that does not stay a local path is escaped, wholly or in part, its encoding is refused |
| `Retpath.EscapedSlashIsRefused` | main.py:463-478 | A second slash escaped in either case is refused |
| `Retpath.PlainPathIsKept` | main.py:459-479 | A path of up to 2048 characters behind one slash, without control characters, backslashes and escapes, is kept |
| `Retpath.RefusedForCause` | main.py:459-479 | A path is refused only because it is too long or some number of decodings fails or gives no local path |
| `Quoting.FirstPass` | main.py:3065 | The first replacement never mistakes an escaped backslash for the start of an escaped quote |
| `Quoting.SecondPass` | main.py:3065 | The second replacement completes the unescaping |
| `Quoting.TwoPassesUnescape` | main.py:3065 | On every well-formed quoted string the two replacements equal unescaping from left to right (section 4.2.5 of RFC 8941) |
| `Quoting.FormatEscapes` | main.py:3099-3103 | The two replacements on the way out equal escaping from left to right |
| `Quoting.EscapeInverts` | main.py:3099-3103 | Escaping gives a well-formed string that unescapes to the value |
| `Quoting.FormatParsesBack` | main.py:3060-3103 | Parsing a formatted value gives it back if and only if it is not empty |
| `Quoting.ParseHintTrims` | main.py:3060-3066 | White space of Python's kind around a value does not matter, and a value not in quotes is returned as it is |
| `Quoting.DashForNothing` | main.py:3100-3101 | Exactly nothing and a dash are written as a dash |

## Left out

- Clocks running backwards, fractions of seconds, and rounding: times are integers, and the runs of the ban engine and the name cache assume a clock that does not run backwards.
- The JSON text of the state file, malformed or repeated entries of a list edited by hand, and the order of entries: the file is a map from addresses to bans.
- BanStore.PersistentBanStore.ActiveBans: does not model the order of bans that end at the same time.
- BanStore.PersistentBanStore.CleanupFailures: takes and returns one of the two failure tables, where the program changes that dictionary through a reference to it.
- Failures of writing or renaming the state file, and failure lists across restarts: the program keeps the latter in memory only.
- SingleFlight: cancelling a load itself, which happens at shutdown of the event loop.
- The state of a connection after a failed Receive or ReadExactly: the program gives the connection up.
- The MTProxy initial header, opening and closing connections, the internals of TLS, AES, HMAC, HTTP/2, HTTP/1.1 and QUIC.
- TcpTunnel without HTTP/2, which passes bytes through; acknowledgements of received data; writing to the socket.
- DnsCache.AnyCaseIsTheSameStep: is about hosts in ASCII; for other letters lowercasing is an arbitrary function.
- H2Streams.EveryInterleavingIsIntact: one task receives and one sends; once its send has raised or was cancelled, a sender is given no other item. Data that follow a batch over the cap are not described, and the library refuses only data over the window or the frame limit, not data on a stream that was closed meanwhile.
- QuicTunnel.Tunnel.Receive: one task receives at a time, as in the program.
- Http3Client.Session.Request: the limit of 120 seconds is the point at which events run out. A status that is not a number is left out.
- Retpath.LocalNamesNoHost: models the URL parser only by when it may find a scheme or a host.
- Lone surrogates in strings: a character is a Unicode scalar value.
- Handlers, templates, network probes, provider parsing, configuration generators, sessions and the small caches of results: input and output, or weaker forms of what is proved here.
