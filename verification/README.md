# Boulevard: a verified model of its algorithmic cores

Boulevard is an HTTP reverse proxy written in Go. This project models the parts of it that compute
something on their own, one Dafny module (or two) for each, and proves what they promise over all
inputs, all runs or all interleavings.

Code that changes objects step by step is a class or a method with a loop here, proved equal to a
specification function of the old state; the theorems are lemmas about those functions, so they
hold of the methods.

| file | models | main results |
|---|---|---|
| `Prelude.dfy` | options and results, big-endian integers, splitting, joining, trimming | |
| `NameValue.dfy` | FastCGI name-value pairs (section 3.4 of FastCGI 1.0) | `PairRoundTrip`, `PairsRoundTrip`, `Reencode` |
| `Records.dfy` | FastCGI record framing (section 3.3) | `RecordRoundTrip`, `ReadAllFrames` |
| `Requests.dfy` | the request writer and its streams (sections 5.1 to 6.4) | `EndToEnd`, `RequestByType` |
| `CgiHeader.dfy` | the incremental CGI header parser (section 6.3 of RFC 3875) | `ChunkInvariance`, `ScanHeader` |
| `Responses.dfy` | the response loop (sections 5.5 and 6.2) | `CompleteResponse`, `FinishedByEnd`, `LeakFreedom` |
| `RateCounters.dfy` | one rate counter and its history | `SlidingWindow`, `ForwardIsExact`, `RoomIsUsed` |
| `RateLimiter.dfy` | the limiter with its tables, garbage collection, specific networks | `LimiterBound`, `Isolation`, `Charging`, `ScanByBits`, `ChargedIsMostSpecific` |
| `HealthProbe.dfy` | the probe's hysteresis | `Hysteresis` |
| `LoadBalancer.dfy` | round-robin picks under changing health | `Fairness`, `OnceBetween`, `Balance`, `SteadyServerIsPicked` |
| `PathPattern.dfy` | path patterns, parsed, printed, matched | `MatchMeaning`, `NestedMatch`, `PrintRoundTrip` |
| `Routing.dfy` | the recursive search for a handler | `FullMatchMeaning`, `SearchResult`, `Erasure`, `NestedHandlers`, `SubpathKept` |
| `ConnectionPool.dfy` | the upstream connection pool as interleaved steps | `RunKeepsConsistent`, `Overshoot`, `OvershootIsReached` |
| `SpillBuffer.dfy` | the buffer that moves from memory to a file | `Transparency`, `SoundRun` |
| `TokenList.dfy` | comma-separated lists (section 5.6.1 of RFC 9110) | `ListMeaning`, `AppendLaw` |
| `FormatString.dfy` | strings with variables | `Homomorphism`, `WrittenMeaning`, `AcceptedIsWritten` |
| `MediaTypes.dfy` | media types and negotiation | `NegotiationMeaning`, `Optimality`, `MediaTypeRoundTrip` |

`dafny verify dfyconfig.toml` checks the whole project.

## What the code does not promise

Where a property one would expect fails, the model keeps the code's behaviour, and the theorem says
exactly when the property holds.

- A name or value of 2^31 bytes or more is encoded without an error and not read back, because a
  length has 31 bits (`PairRoundTrip`, `LongNameIsLost`). The decoder compares a 32-bit length with
  the remaining length truncated to 32 bits, so an input of 4 GiB and more can be refused
  (`Fits` in `NameValue.dfy`).
- A stream body is not checked against 65535 bytes before its length is written modulo 2^16
  (`RecordRoundTrip`, `LargeBodyIsLost`).
- The stream writer drops bytes that a reader returns together with the end of file, and turns a
  read of no bytes into a record that ends the stream early (`EndToEnd`, `UncleanIsLost`). Above
  4 GiB a list that was decoded may not survive encoding it again (`Reencode`).
- STDOUT records that hold only a part of the header are written to stdout too (`CompleteResponse`,
  `LeakFreedom`, `LeakedRecords`).
- A rate window lasts one millisecond longer than its period, so twice the limit can pass within two
  milliseconds (`SlidingWindowTight`). An idle counter may be dropped and created again, and the
  bound needs that its clock is then not behind the newest window: a creation at window `b` keeps it
  if and only if no later window has been used (`ForwardIsExact`, `ClockMustNotGoBack`).
- With specific networks configured, an address that matches none of them is refused, and the
  other counters are charged although they do not decide (`Verdict`, `Isolation`).
- Client addresses are parsed into sixteen bytes, IPv4 ones too. The limits per IPv4 address and
  network are therefore never used (`IPv4LimitsUnused`), and all IPv4 clients share one counter in
  each table per IPv6 network up to a prefix length of 96 (`MappedClientsShare`).
- Specific networks are sorted by the size of their addresses first, and single addresses have
  sixteen bytes, so an IPv4 network is charged before a single IPv4 address inside it
  (`NetworkChargedBeforeHost`). The most specific entry is charged if and only if none is hidden in
  this way (`ChargedIsMostSpecific`, `HostsAreHidden`).
- A subpath whose first segment is empty loses it in a nested match (`NestedMatch`,
  `EmptySegmentLost`).
- A selected handler hands the subpath on unchanged only under a condition on its patterns
  (`SubpathKept`). One without path constraints empties it, so that no handler right below it whose
  only path constraints are relative patterns with a segment is ever selected (`PathlessHides`,
  `WithoutPathsHides`).
- Of required headers without values, only the last one in the iteration order of a map would count
  (`HeaderVerdict`, `HeaderOrderMatters`). This concerns only a `MatchCfg` that is built by hand: reading
  a configuration never makes such an entry (`pkg/protocols/http/handler.go:126-129`), and without
  them the order makes no difference (`ConfiguredHeaders`).
- A spill buffer whose file write or flush fails in part no longer agrees with its size, or loses
  what the memory held (`BrokenWrite`, `BrokenFlush`), and no later write repairs it (`FaultyRun`, `SoundRun`); closing a spilled buffer keeps its size
  (`CloseKeepsSound`).
- A pool that is loaded by k goroutines at once reaches its maximum plus k - 1 connections
  (`OvershootIsReached`).
- A probe threshold below two acts as two (`VerdictStep`).
- An escape in a format string keeps its backslash when the string is expanded (`WrittenMeaning`).
- A quality of zero does not rule out a media range (`ZeroQualityIsUsed`).
- An appended token that is empty, padded with blanks, holds a comma, or is not in lower case when
  the list is normalized does not come back as itself (`AppendLaw`).

## Model

| member | source | states |
|---|---|---|
| NameValue.EncodePairList | pkg/fastcgi/protocol.go:275-285 | the encoding loop computes the concatenated encodings, or the first failure |
| NameValue.DecodePairList | pkg/fastcgi/protocol.go:287-301 | the decoding loop computes the recursive decoding of the whole input, and ends because every pair consumes bytes |
| NameValue.DecodePair | pkg/fastcgi/protocol.go:219-271 | every accepted pair consumes at least two bytes of the input |
| NameValue.LengthRoundTrip | pkg/fastcgi/protocol.go:190-206 | a length field is read back as the length, whatever follows, exactly when the length is below 2^31 |
| NameValue.PairRoundTrip | pkg/fastcgi/protocol.go:185-271 | decoding an encoded pair followed by any bytes gives the pair and those bytes if and only if the pair fits its length fields |
| NameValue.LongNameIsLost | pkg/fastcgi/protocol.go:185-217 | a name of 2^31 bytes is encoded without an error and does not come back |
| NameValue.PairsRoundTrip | pkg/fastcgi/protocol.go:275-301 | list decoding inverts list encoding if and only if every pair fits |
| NameValue.SmallPairsFit | pkg/fastcgi/protocol.go:219-271 | below 4 GiB of encoding, lengths under 2^31 are all that the round trip needs |
| NameValue.Reencode | pkg/fastcgi/protocol.go:185-301 | a body that the decoder accepts re-encodes to one that is no longer; it decodes to the same pairs if and only if all of them fit, which they always do below 4 GiB |
| Records.RecordTypeRoundTrip | pkg/fastcgi/protocol.go:31-93 | the code of every record type decodes to that type |
| Records.BeginRequestRoundTrip | pkg/fastcgi/protocol.go:308-337 | a BEGIN_REQUEST body decodes to its role and its keep-connection flag |
| Records.EndRequestRoundTrip | pkg/fastcgi/protocol.go:355-376 | an END_REQUEST body decodes to its application status and its protocol status |
| Records.BodyRoundTrip | pkg/fastcgi/protocol.go:303-438 | an encoded body decodes to itself under a record type if and only if the type is one for its kind of body |
| Records.ReadAfterHeader | pkg/fastcgi/protocol.go:493-559 | reading takes the declared body, modulo 2^16, skips the declared padding, and leaves exactly the rest |
| Records.RecordRoundTrip | pkg/fastcgi/protocol.go:452-559 | reading undoes writing and leaves what follows if and only if the version is 1, the body fits its type, and its length fits 16 bits |
| Records.LargeBodyIsLost | pkg/fastcgi/protocol.go:470-490 | a stream body of 65536 bytes is written without an error and not read back |
| Records.ReadFrame | pkg/fastcgi/protocol.go:493-559 | a record with any declared padding of up to 255 bytes and any reserved byte is read as that record |
| Records.ReadAllFrames | pkg/fastcgi/protocol.go:493-559 | repeated reading of any sequence of padded records gives those records and consumes the whole input |
| Records.CutFrame | pkg/fastcgi/protocol.go:493-522 | of a frame that is cut anywhere nothing is read: the error is that of the header or that of the body |
| Records.RecordTypeCodes | pkg/fastcgi/protocol.go:31-93 | each record type has its number from 1 to 11, and no other number is one |
| Records.RoleCodes | pkg/fastcgi/protocol.go:103-133 | each role has its number from 1 to 3, and no other number is one |
| Records.StatusCodes | pkg/fastcgi/protocol.go:144-178 | each protocol status has its number from 0 to 3, and no other number is one |
| Records.WireLayout | pkg/fastcgi/protocol.go:476-488 | the bytes of a written record: version, type, identifier and length with their high bytes first, no padding, and the body |
| Records.FixedBodies | pkg/fastcgi/protocol.go:322-438 | which eight bytes make a request begin, a request end or an unknown type, and with what in it; any other length is refused |
| Records.ReservedAreZero | pkg/fastcgi/protocol.go:308-428 | the reserved bytes of a written body of fixed length are zeros |
| Records.HeaderRefused | pkg/fastcgi/protocol.go:493-522 | only version 1 and the eleven types are read; a header is refused for its version first and then for its type |
| Records.PairBodiesAreChecked | pkg/fastcgi/protocol.go:457-465 | a list of pairs is written exactly when its encoding succeeds and fits in 65535 bytes |
| Requests.Reader.Read | pkg/fastcgi/connection.go:300-307 | one read of a reader whose whole behaviour is a script of chunks and an end |
| Requests.BytesScript | pkg/fastcgi/connection.go:243-243 | a reader over bytes returns full buffers and then a rest that is not empty, together exactly the bytes, and then the end of file alone |
| Requests.Sender.WriteStream | pkg/fastcgi/connection.go:292-319 | the loop sends one record for each read and an empty one at the end of file, as far as the connection takes them, and reports a broken connection, or else a failing reader, exactly when there is one |
| Requests.Sender.WriteHead | pkg/fastcgi/connection.go:227-246 | the first record and the parameters are sent, or only the first record when the parameters cannot be encoded |
| Requests.Sender.WriteRequest | pkg/fastcgi/connection.go:226-273 | what is sent is exactly the records of the request up to its first failure, cut where the connection breaks, and the result is that failure; one reader for both streams is empty for the second |
| Requests.Sender.WriteInputs | pkg/fastcgi/connection.go:252-270 | stdin and then data are sent, each also when there is no reader but the role needs the stream, up to a reader that fails |
| Requests.RequestReadable | pkg/fastcgi/connection.go:226-319 | every record of every request is written without an error and can be read back |
| Requests.ReadEmitted | pkg/fastcgi/connection.go:275-290 | reading all emitted bytes gives the records sent, absent bodies read as empty ones |
| Requests.TakeSentStream | pkg/fastcgi/connection.go:292-319 | a stream is taken back whole, up to its one empty record, exactly when no read was empty; otherwise records of it are left over |
| Requests.EndToEnd | pkg/fastcgi/connection.go:226-319 | for every role, parameters and readers, the emitted bytes read back as that request, with exactly the bytes of each stream, if and only if the parameters fit and the readers never return an empty chunk or bytes with the end of file; without a reader, a responder and a filter still get an empty stdin and a filter empty data, and no one else gets either |
| Requests.UncleanIsLost | pkg/fastcgi/connection.go:299-312 | for every role, a request with a reader outside that class, for stdin or for data, does not arrive |
| Requests.RequestByType | pkg/fastcgi/connection.go:226-319 | the records of a request selected by type: one BEGIN_REQUEST in front, the encoded parameters, and one record per read of each input, empty for a responder or filter without stdin and a filter without data; behind a reader that fails there is no end of its stream and no later one |
| Requests.StreamsEndOnce | pkg/fastcgi/connection.go:248-319 | each stream that is due ends in exactly one empty record, and there is no record of one that is not |
| Requests.UnencodableParameters | pkg/fastcgi/connection.go:238-241 | when the parameters cannot be encoded only the first record is sent, and that is the error |
| CgiHeader.SkipEOL | pkg/fastcgi/header.go:117-133 | what follows a line feed, or a carriage return with a line feed, in front; none exactly when neither is in front |
| CgiHeader.Header.Parse | pkg/fastcgi/header.go:66-97 | feeding a chunk moves the parser to the scan of all bytes so far: its fields, what it keeps, the end and the error |
| CgiHeader.ScanAppend | pkg/fastcgi/header.go:66-97 | scanning a prefix and then the rest with what the prefix left is scanning both at once, even when a line end is cut in two |
| CgiHeader.ChunkInvariance | pkg/fastcgi/header.go:66-133 | however a byte stream is cut, the fields, the verdict and the remaining body are those of the uncut stream |
| CgiHeader.ScanLine | pkg/fastcgi/header.go:75-115 | a header line with any blanks around its value and either line end is read as its name and trimmed value |
| CgiHeader.ScanHeader | pkg/fastcgi/header.go:66-133 | a header written with any mix of line ends is read as its fields, and what follows its blank line is the body |
| CgiHeader.FieldMeaning | pkg/fastcgi/header.go:99-115 | a line is a field exactly with a first colon behind a name; its value is what follows without the blanks around it, and each other case has its error |
| CgiHeader.BadLineStops | pkg/fastcgi/header.go:75-93 | a line that is no field stops the parser with its error, behind exactly the fields in front of it, with the rest from that line on |
| Responses.TakeStdout | pkg/fastcgi/connection.go:195-213 | a STDOUT record is header data until the header has ended, and is written in any case |
| Responses.Receiver.ReadResponse | pkg/fastcgi/connection.go:150-224 | header, stdout, stderr, values, result and unread input are those of the loop over the connection's bytes |
| Responses.EndVerdict | pkg/fastcgi/connection.go:172-193 | an END_REQUEST ends the response, leaving what was gathered and what is behind it alone; it succeeds exactly with a complete status, application status zero and a header, and each other case has its own error |
| Responses.RespondToFrames | pkg/fastcgi/connection.go:150-224 | padding and framing make no difference: the loop over bytes is the loop over records |
| Responses.RunPayload | pkg/fastcgi/connection.go:195-216 | STDOUT, STDERR and value records in any order produce the header of the STDOUT concatenation, the leaked records and the body on stdout, and the STDERR concatenation |
| Responses.LeakFreedom | pkg/fastcgi/connection.go:198-213 | nothing but the body goes to stdout if and only if the first STDOUT record that is not empty holds the whole header |
| Responses.LeakedRecords | pkg/fastcgi/connection.go:198-213 | what leaks is exactly the records before the one in which the header ends |
| Responses.AllLeaks | pkg/fastcgi/connection.go:198-213 | while the header does not end, every STDOUT record is written as it came |
| Responses.CompleteResponse | pkg/fastcgi/connection.go:150-224 | a response on the wire ending in a successful END_REQUEST returns its header and all of STDERR, leaves what is behind unread, and stdout is exactly the body if and only if the header came in one record; it fails on a full stdout, else on a header that cannot be parsed, with its error, else on a missing header, and holds what came before the record it stopped on |
| Responses.StopsOnStdout | pkg/fastcgi/connection.go:195-216 | a response that stops before its end stops on a STDOUT record, and stdout and stderr hold what the records before it make |
| Responses.UnreadableTail | pkg/fastcgi/connection.go:155-159 | payload in front of bytes that are no record gives that read error with those bytes left, even behind a complete header, unless the payload has stopped the loop |
| Responses.ConnectionEnds | pkg/fastcgi/connection.go:155-159 | a connection that ends behind complete records, or anywhere inside one, is a failure |
| Responses.FinishedByEnd | pkg/fastcgi/connection.go:150-224 | over all inputs, a response finishes only by an END_REQUEST with both statuses of success right in front of the unread input, with a header |
| Responses.UnexpectedRecord | pkg/fastcgi/connection.go:161-220 | any other record stops the loop with its type in the error and adds nothing |
| RateCounters.RateCounter.constructor | pkg/netutils/rate_limiter.go:27-39 | a counter starts empty, at the last multiple of its period |
| RateCounters.RateCounter.Update | pkg/netutils/rate_limiter.go:47-72 | the counter and the verdict are those of the update function of the old counter |
| RateCounters.AlignProperties | pkg/netutils/rate_limiter.go:60-60 | a start is a multiple of the period, less than a period before the timestamp when that is not negative |
| RateCounters.UpdateKeepsConsistent | pkg/netutils/rate_limiter.go:47-72 | an update keeps the invariant, whatever its timestamp: aligned starts that move by whole periods, a count that is the units accepted in the current window, at most the limit |
| RateCounters.RunConsistent | pkg/netutils/rate_limiter.go:47-72 | every history of updates, drops and creations keeps that invariant, as long as no creation is behind the newest window |
| RateCounters.SlidingWindow | pkg/netutils/rate_limiter.go:47-72 | in every such history, in any order of timestamps, the units accepted in any period's worth of milliseconds are at most twice the limit |
| RateCounters.ForwardIsExact | pkg/netutils/rate_limiter.go:27-72 | a creation at window b while the newest window is a keeps that bound in every history around it if and only if b is not behind a, for every limit above zero and period above one |
| RateCounters.CausalIsForward | pkg/netutils/rate_limiter.go:33-36 | a clock that never goes back behind an earlier reading or timestamp creates no counter behind the newest window |
| RateCounters.RoomIsUsed | pkg/netutils/rate_limiter.go:47-72 | after every history, an update is accepted exactly when its timestamp is not before the current window and the units that its window has accepted leave room for it |
| RateCounters.Unlimited | pkg/netutils/rate_limiter.go:47-51 | a counter without a period accepts every update and counts none, over every history |
| RateCounters.SlidingWindowTight | pkg/netutils/rate_limiter.go:59-62 | twice the limit is reached within two milliseconds, for every limit and every period above one |
| RateCounters.ClockMustNotGoBack | pkg/netutils/rate_limiter.go:33-36 | for every such limit and period and any two windows, three times the limit passes when a counter is created again in the earlier one |
| RateLimiters.SortLimiters | pkg/netutils/rate_limiter.go:162-190 | sorting keeps the entries |
| RateLimiters.SortIsSorted | pkg/netutils/rate_limiter.go:162-190 | no entry is in front of one that the comparison puts before it |
| RateLimiters.RateLimiter.constructor | pkg/netutils/rate_limiter.go:331-366 | a limiter starts with empty tables and fresh counters for the sorted networks |
| RateLimiters.RateLimiter.TouchOne | pkg/netutils/rate_limiter.go:410-418 | the counter of a network is created on demand and updated, and no other entry of the table changes |
| RateLimiters.RateLimiter.TouchFamily | pkg/netutils/rate_limiter.go:401-420 | whatever the order in which the tables are visited, each is updated at the address's network, and the verdict is that all passed |
| RateLimiters.RateLimiter.UpdateAddresses | pkg/netutils/rate_limiter.go:443-459 | the loop over specific networks updates the matching ones until one passes |
| RateLimiters.RateLimiter.Update | pkg/netutils/rate_limiter.go:389-462 | the limiter's state and verdict are those of the update function of its old state |
| RateLimiters.RateLimiter.GC | pkg/netutils/rate_limiter.go:368-387 | exactly the empty counters of the tables are dropped, in any order of visits |
| RateLimiters.RefusalChargesNothing | pkg/netutils/rate_limiter.go:59-68 | a refused update adds nothing: at most it empties an expired window |
| RateLimiters.Charging | pkg/netutils/rate_limiter.go:445-459 | the verdict is that some matching entry has room, IPv4 addresses compared in four bytes; a pass charges exactly the first such entry, a refusal none |
| RateLimiters.ContainsIsCovers | pkg/netutils/rate_limiter.go:447-447 | a network contains an address exactly when their raw bits agree up to its length, from index 96 on in sixteen bytes against four |
| RateLimiters.ScanByBits | pkg/netutils/rate_limiter.go:445-459 | on those bits: an entry changes only if it covers the address and no earlier covering one has passed, and the verdict is that some covering entry has room |
| RateLimiters.UncoveredIsRefused | pkg/netutils/rate_limiter.go:443-459 | an address whose bits differ from every specific network is refused and charges none of them |
| RateLimiters.ChargedIsMostSpecific | pkg/netutils/rate_limiter.go:162-190 | the charged network has the longest prefix among those of its own address size with room, and among all of them if and only if no four-byte network with room hides a longer sixteen-byte one |
| RateLimiters.HostsAreHidden | pkg/netutils/rate_limiter.go:162-190 | when the IPv4 addresses in sixteen bytes are single ones, beside any networks: that is if and only if no four-byte network with room is in front of a matching single address with room, or one of these networks is a /32 |
| RateLimiters.NetworkChargedBeforeHost | pkg/netutils/rate_limiter.go:162-190 | a client with a limit of its own inside an IPv4 network with one charges the network, in whatever order they are configured |
| RateLimiters.RunKeepsSorted | pkg/netutils/rate_limiter.go:354-363 | the specific networks stay sorted over every run |
| RateLimiters.Verdict | pkg/netutils/rate_limiter.go:389-462 | with specific networks: some matching one has room; without: every counter that the address touches passes |
| RateLimiters.Isolation | pkg/netutils/rate_limiter.go:389-462 | an update replaces exactly the counters it touches, each by its own update, and no other counter, in particular of another network of the same length |
| RateLimiters.CollectIsolation | pkg/netutils/rate_limiter.go:368-387 | collecting removes exactly the per-network counters with no units |
| RateLimiters.CounterHistory | pkg/netutils/rate_limiter.go:368-462 | over every run of a limiter, each counter and its accepted units are those of its own history alone |
| RateLimiters.LimiterBound | pkg/netutils/rate_limiter.go:368-462 | over every run of updates, in any order of timestamps, and collections, no counter key accepts more than twice its limit in a period's worth of milliseconds; only the counters of networks need that they are not created behind their newest window |
| RateLimiters.CausalLimiterBound | pkg/netutils/rate_limiter.go:368-462 | with a clock that never goes back behind an earlier reading or timestamp, that bound holds for every key |
| RateLimiters.IPv4LimitsUnused | pkg/netutils/rate_limiter.go:401-420 | over every run on parsed client addresses, which have sixteen bytes, the tables per IPv4 network stay empty, and states and verdicts are as without them |
| RateLimiters.MappedClientsShare | pkg/netutils/rate_limiter.go:422-441 | a prefix length tells no two IPv4 clients apart if and only if it is at most 96 |
| RateLimiters.MappedClientsTouchAlike | pkg/netutils/rate_limiter.go:422-441 | up to that length an update for one IPv4 client reaches the very counter that any other reaches |
| HealthProbes.HealthProbe.Execute | pkg/boulevard/health_probe.go:81-131 | the state, the count and the verdict are those of one transition on whether all outcomes are good |
| HealthProbes.StateIs | pkg/boulevard/health_probe.go:81-131 | after every run the state tells which kind of run of outcomes is at its end, and the count is its length |
| HealthProbes.OutcomeIs | pkg/boulevard/health_probe.go:81-131 | one failed test, wherever it is, makes the outcome a failure |
| HealthProbes.VerdictStep | pkg/boulevard/health_probe.go:81-131 | the verdict goes down exactly when the trailing failures reach the larger of 2 and the threshold, and comes back likewise on successes |
| HealthProbes.Hysteresis | pkg/boulevard/health_probe.go:81-131 | over every run, down means that a full run of failures has happened that no full run of successes has followed |
| LoadBalancers.Server.Tick | pkg/boulevard/load_balancer.go:112-129 | a tick moves the probe, and afterwards the server's flag is the probe's verdict |
| LoadBalancers.TickMovesOne | pkg/boulevard/load_balancer.go:112-129 | a tick moves one server's probe by one step and leaves every other flag as it is, and so does a call all of them |
| LoadBalancers.LoadBalancer.Address | pkg/boulevard/load_balancer.go:133-152 | the loop returns the address of the picked server and moves the index behind it, or changes nothing when no server is healthy |
| LoadBalancers.PickIsNearest | pkg/boulevard/load_balancer.go:133-152 | a pick is the healthy server the least far ahead; there is none exactly when no server is healthy |
| LoadBalancers.PickedInTime | pkg/boulevard/load_balancer.go:133-152 | a server that stays healthy is picked before as many calls as it is ahead |
| LoadBalancers.Fairness | pkg/boulevard/load_balancer.go:133-152 | a server that stays healthy is picked in any n consecutive calls, whatever happens to the others |
| LoadBalancers.TakeTurns | pkg/boulevard/load_balancer.go:133-152 | of two servers that stay healthy the nearer one is picked as often as the other or once more, over any run |
| LoadBalancers.Balance | pkg/boulevard/load_balancer.go:133-152 | pick counts of servers that stay healthy differ by at most one over any run |
| LoadBalancers.OnceBetween | pkg/boulevard/load_balancer.go:133-152 | between two consecutive picks of a server that stays healthy every other such server is picked exactly once |
| LoadBalancers.SteadyServerIsPicked | pkg/boulevard/load_balancer.go:94-152 | over any interleaving of ticks and calls, a server whose trailing failures stay below the threshold, from the start or since it recovered, is picked in any n consecutive calls |
| PathPatterns.ParsePattern | pkg/protocols/http/path_pattern.go:47-93 | the parsing loop computes the pattern or the error of the specification |
| PathPatterns.ShowPattern | pkg/protocols/http/path_pattern.go:21-45 | the printing loop writes the joined segments with the slashes that the flags ask for |
| PathPatterns.PrintRoundTrip | pkg/protocols/http/path_pattern.go:21-93 | parsing a printed pattern gives it back if and only if no literal segment would need an escape |
| PathPatterns.PatternWritten | pkg/protocols/http/path_pattern.go:47-93 | a text of non-empty segments parses to their values, in order, relative exactly without a leading slash and a prefix exactly with a last one |
| PathPatterns.PatternRefused | pkg/protocols/http/path_pattern.go:47-93 | a text is refused exactly when it is empty or a segment other than the last is |
| PathPatterns.MatchPath | pkg/protocols/http/path_pattern.go:113-139 | the matching loop computes the verdict and the subpath of the specification |
| PathPatterns.MatchMeaning | pkg/protocols/http/path_pattern.go:113-139 | a path matches exactly when its segments equal the pattern's, position by position and up to wildcards, with more of them only for a prefix pattern; the subpath is the segments behind, joined |
| PathPatterns.PathSegmentsAre | pkg/protocols/http/path_pattern.go:113-139 | the segments of a path are what is between its slashes, without those around it |
| PathPatterns.LeavesItself | pkg/protocols/http/path_pattern.go:113-139 | a match leaves the path it matched only for a pattern without segments and a path without slashes around it |
| PathPatterns.MatchConcat | pkg/protocols/http/path_pattern.go:113-139 | matching two segment lists in a row is matching the first and then the second on what is left |
| PathPatterns.NestedMatch | pkg/protocols/http/path_pattern.go:113-139 | matching a prefix pattern and then a relative one on the subpath agrees with matching their concatenation, for every inner pattern, if and only if the next segment is not empty |
| PathPatterns.EmptySegmentLost | pkg/protocols/http/path_pattern.go:113-139 | when the segment behind the match is empty, some inner pattern tells the two apart |
| Routing.AnyTextMatches | pkg/protocols/http/handler.go:330-348 | the loop over patterns finds whether one of them matches |
| Routing.MatchHeader | pkg/protocols/http/handler.go:356-391 | the loops over required headers compute the verdict of the two specifications |
| Routing.MatchPaths | pkg/protocols/http/handler.go:396-429 | the loops over patterns and regular expressions find the subpath of the first pattern that matches |
| Routing.CheckConstraints | pkg/protocols/http/handler.go:293-391 | the constraints on everything but the path hold all together |
| Routing.MatchHandler | pkg/protocols/http/handler.go:283-462 | the context changes only on a full match, then as the handler's settings and subpath say |
| Routing.FindHandler | pkg/protocols/http/protocol.go:205-223 | the recursive search ends on every tree, with the handler and the context of the specification |
| Routing.ChainExists | pkg/protocols/http/protocol.go:205-223 | every tree has a chain: each element the first selecting sibling under the threaded subpath, no child of the last selecting |
| Routing.ChainUnique | pkg/protocols/http/protocol.go:205-223 | there is only one such chain |
| Routing.SearchResult | pkg/protocols/http/protocol.go:205-223 | the search returns the end of the one chain with the subpath there, none exactly when no top-level handler selects, and the settings folded in order over the fully matched handlers |
| Routing.LastSettingWins | pkg/protocols/http/handler.go:431-452 | each setting comes from the last fully matched handler that has one; an empty limiter there means none |
| Routing.NestedHandlers | pkg/protocols/http/handler.go:396-429 | a handler with a prefix pattern around one with a relative pattern selects the same requests, with the same subpath, as one handler with the nested pattern, unless the segment behind the outer match is empty |
| Routing.Erasure | pkg/protocols/http/handler.go:431-461 | deleting every next-handler handler with its subtree changes neither the selected handler nor the subpath, whatever the other settings |
| Routing.EraseIsComplete | pkg/protocols/http/handler.go:454-456 | no next-handler handler is left anywhere in the erased tree |
| Routing.ErasedAnywhere | pkg/protocols/http/handler.go:454-456 | whatever position of the erased tree one looks at, the handler there is no next-handler handler |
| Routing.SubpathKept | pkg/protocols/http/handler.go:394-459 | the search goes on below the first selecting handler, with the subpath unchanged if and only if a condition on its patterns and the subpath holds |
| Routing.KeepsInitialSubpath | pkg/protocols/http/request_context.go:68-75 | at the top of the tree a pattern keeps the subpath, the path without its leading slash, if and only if it has no segments and there is no other slash around the path |
| Routing.NeverBelowPathless | pkg/protocols/http/handler.go:394-459 | below a handler without path constraints the subpath is empty, and one whose only path constraints are relative patterns with a segment does not match |
| Routing.PathlessHides | pkg/protocols/http/protocol.go:205-223 | so no such handler is on the chain that the search follows, anywhere in a tree |
| Routing.PathlessHidesAt | pkg/protocols/http/protocol.go:205-223 | by positions in the tree: of any two handlers next to each other on the chain, the upper one has path constraints or the lower one does not need a segment |
| Routing.WithoutPathsHides | pkg/protocols/http/handler.go:394-459 | a handler that is selected on its own is not selected inside a handler that asks for nothing |
| Routing.HeaderVerdict | pkg/protocols/http/handler.go:359-372 | which required headers decide: any entry with values, but only the last one of those without, which only a hand-built configuration holds |
| Routing.ConfiguredHeaders | pkg/protocols/http/handler.go:359-372 | without such entries the verdict is that some entry matches, in any order |
| Routing.HeaderOrderMatters | pkg/protocols/http/handler.go:359-372 | two required headers without values can give either verdict, depending on the iteration order |
| Routing.FullMatchMeaning | pkg/protocols/http/handler.go:283-429 | a handler fully matches exactly when the request meets its constraints field by field: TLS, some listed version by its numbers, some listed method, some host, some header entry, some path pattern or regular expression |
| Routing.SubpathMeaning | pkg/protocols/http/handler.go:394-429 | the new subpath is what the first matching pattern leaves, and empty when none does |
| Routing.FindMeaning | pkg/protocols/http/protocol.go:205-223 | a single handler without children is found exactly when the request meets those constraints and it is not there for its settings only |
| ConnectionPools.StepKeepsConsistent | pkg/httputils/client.go:132-197 | every atomic step of every goroutine and of the watcher keeps the invariant |
| ConnectionPools.RunKeepsConsistent | pkg/httputils/client.go:132-273 | in every reachable state the count is exactly the idle and the held connections, no connection is in two places, and idle ones are open |
| ConnectionPools.ClosedBy | pkg/httputils/client.go:183-269 | only the goroutine that holds a connection, and the watcher, close it, and it stays closed |
| ConnectionPools.Overshoot | pkg/httputils/client.go:152-165 | with at most k goroutines between the load and the increment, the count never exceeds the maximum minus one plus k |
| ConnectionPools.OvershootFromStart | pkg/httputils/client.go:144-165 | that bound holds over every run from an empty pool |
| ConnectionPools.OvershootIsReached | pkg/httputils/client.go:144-165 | the bound is sharp: for every maximum and every k some run reaches it |
| ConnectionPools.Client.TakeIdleConn | pkg/httputils/client.go:135-142 | the oldest idle connection is taken, if there is one |
| ConnectionPools.Client.MayConnect | pkg/httputils/client.go:152-154 | the load decides between connecting and waiting |
| ConnectionPools.Client.CountNewConn | pkg/httputils/client.go:156-164 | a new connection is counted once, and is held |
| ConnectionPools.Client.HijackConn | pkg/httputils/client.go:179-181 | a hijacked connection leaves the pool's count |
| ConnectionPools.Client.ReleaseConn | pkg/httputils/client.go:183-197 | a closed connection leaves the count; an open one goes to the goroutine that waits for one, or else to the end of the idle ones |
| ConnectionPools.Client.SweepIdle | pkg/httputils/client.go:252-269 | the loop closes and uncounts exactly the expired connections, keeps the others in order, and finds the earliest timeout |
| ConnectionPools.Client.CloseIdleConnections | pkg/httputils/client.go:246-273 | a pass leaves exactly the connections that have not expired, and comes back no later than the first of them does |
| ConnectionPools.KeptIs | pkg/httputils/client.go:255-269 | a pass keeps exactly the connections whose timeout is not over, as often as they were there |
| ConnectionPools.PassKeepsConsistent | pkg/httputils/client.go:246-273 | a whole pass is a run of the watcher's atomic steps, so it keeps the invariant |
| SpillBuffers.SpillBuffer.Write | pkg/boulevard/spill_buffer.go:76-114 | memory, file, size and result are those of the write function of the old buffer, for every behaviour of the file system |
| SpillBuffers.SpillBuffer.Reader | pkg/boulevard/spill_buffer.go:61-74 | a reader gives the content, from memory or from the file, or the error when the file cannot be opened |
| SpillBuffers.SpillBuffer.Size | pkg/boulevard/spill_buffer.go:39-41 | the recorded size |
| SpillBuffers.SpillBuffer.Close | pkg/boulevard/spill_buffer.go:43-59 | closing forgets the file and nothing else, unless the file cannot be closed; each failure is reported |
| SpillBuffers.WriteIsPlain | pkg/boulevard/spill_buffer.go:76-114 | a write agrees with the plain bounded buffer if and only if no file operation that it needs fails |
| SpillBuffers.RefusalsChangeNothing | pkg/boulevard/spill_buffer.go:77-93 | a refused write and a failed open change nothing |
| SpillBuffers.BrokenWrite | pkg/boulevard/spill_buffer.go:105-111 | after a write that breaks off, the size is behind the content by exactly the bytes written |
| SpillBuffers.BrokenFlush | pkg/boulevard/spill_buffer.go:95-102 | after a flush that breaks off, the content is what the disk took |
| SpillBuffers.FaultyRun | pkg/boulevard/spill_buffer.go:76-114 | over every run of writes, whatever the file system does in each: the size is the bytes of the writes that succeeded, and without a broken flush the content is exactly the bytes that the results count |
| SpillBuffers.BrokenFlushRun | pkg/boulevard/spill_buffer.go:95-111 | with a broken flush the content is what the disk took of all counted before it, and then all counted after it |
| SpillBuffers.SoundRun | pkg/boulevard/spill_buffer.go:76-114 | over every such run the buffer stays sound if and only if no write or flush broke with a lasting effect |
| SpillBuffers.Transparency | pkg/boulevard/spill_buffer.go:29-114 | every sequence of writes gives the results and the content of a plain bounded buffer whatever the memory size, and the size is the content's, at most the maximum |
| SpillBuffers.CloseReports | pkg/boulevard/spill_buffer.go:43-59 | each failure is reported exactly when there is a file and it happens, and the file's content stays readable only when it could not be closed |
| SpillBuffers.CloseKeepsSound | pkg/boulevard/spill_buffer.go:43-59 | after closing, the size is still the content's if and only if nothing was in a file or it could not be closed |
| TokenLists.SplitTokenList | pkg/httputils/syntax.go:5-30 | the loop computes the trimmed non-empty parts, in lower case when asked to |
| TokenLists.TokensConcat | pkg/httputils/syntax.go:5-30 | the tokens around a comma are those on its left and then those on its right |
| TokenLists.ListMeaning | pkg/httputils/syntax.go:5-30 | a list written from tokens, with any blanks around them and empty parts between them, has those tokens in order, in lower case when normalized |
| TokenLists.TrimmedListSame | pkg/httputils/syntax.go:32-45 | cutting commas and blanks off the end loses no token |
| TokenLists.AppendLaw | pkg/httputils/syntax.go:5-45 | the appended list has the tokens of the list followed by the appended ones, for every list, if and only if each appended one can be carried as it is |
| FormatStrings.FormatString.ParseValue | pkg/boulevard/format_string.go:32-146 | the loop computes the parts of the specification; an error leaves the value as it was |
| FormatStrings.FormatString.ExpandValue | pkg/boulevard/format_string.go:169-190 | the loop writes the expansion of all parts in order |
| FormatStrings.FirstPart | pkg/boulevard/format_string.go:36-137 | a part takes at least one character and no more than there are, so that parsing ends at the end of the input |
| FormatStrings.Homomorphism | pkg/boulevard/format_string.go:32-190 | two strings that parse can be concatenated, and the expansion is the concatenation of the expansions, under any variables |
| FormatStrings.WrittenMeaning | pkg/boulevard/format_string.go:32-190 | a string written from any text, variables and environment variables parses and expands to what these stand for |
| FormatStrings.AcceptedIsWritten | pkg/boulevard/format_string.go:32-146 | exactly the texts written from valid pieces parse |
| FormatStrings.NameCharacters | pkg/boulevard/format_string.go:192-218 | the characters of variable names and of environment names, by their codes |
| MediaTypes.ParsedType.Parse | pkg/protocols/http/media_types.go:52-93 | the fields are set as the specification says, or an error is found exactly when it says so, with the fields before it set; text without parameters leaves earlier ones in place |
| MediaTypes.UnfinishedIs | pkg/protocols/http/media_types.go:52-93 | how far a failed parse sets the fields: the type when a slash ends one that is not blank, the subtype when it is not blank either, the parameters never |
| MediaTypes.ParsedType.Show | pkg/protocols/http/media_types.go:37-50 | the loop writes the type, the subtype and every parameter in order |
| MediaTypes.ParseAll | pkg/protocols/http/media_types.go:80-90 | the loop parses every parameter, and fails exactly when one of them cannot be parsed |
| MediaTypes.NegotiateMediaType | pkg/protocols/http/media_types.go:252-268 | the loops return the first supported type of the first range, in sorted order, that matches one, or else the first supported type |
| MediaTypes.Optimality | pkg/protocols/http/media_types.go:220-268 | whatever order the sort chooses among equals, the result is a supported type that a best usable range matches, with none that it matches earlier in the list, or the first supported type when no range is usable |
| MediaTypes.NegotiationMeaning | pkg/protocols/http/media_types.go:220-268 | for every order without an inversion the result is the first supported type that a range accepts to which no usable one is to be preferred, by a higher quality, or at equal quality by more of type, subtype and parameters set; without a usable range it is the first supported type |
| MediaTypes.FullRangeWins | pkg/protocols/http/media_types.go:220-268 | at equal quality a supported type that a range names in full beats one that only wildcards match |
| MediaTypes.BestIsUnique | pkg/protocols/http/media_types.go:220-250 | all best ranges have the same quality and specificity |
| MediaTypes.ZeroQualityIsUsed | pkg/protocols/http/media_types.go:252-268 | the result comes from a range of quality zero exactly when no usable range has a positive one |
| MediaTypes.MediaTypeRoundTrip | pkg/protocols/http/media_types.go:37-93 | a media type survives printing and parsing if and only if it is valid, and everything that is parsed is valid |

## Left out

- Sockets, TLS, ACME, timers, logging, configuration reading, templates, the control API and the command-line tools.
- The rest of `pkg/fastcgi/connection.go`: fetching values at the start, and cancellation in `SendRequest`; `pkg/fastcgi/client.go`, a weaker twin of the HTTP pool.
- `Header.Field`, `Header.Status` and `Header.CopyToHTTPHeader` of `pkg/fastcgi/header.go`, which are look-ups in the parsed fields; the length hint that processing values stores.
- Responses.Receiver.ReadResponse: the body goes to a spill buffer whose file system works; other failures to write stdout are not modelled.
- Records.RecordRoundTrip: `Record.Write` and `Record.Read` are functions on byte sequences, so the writes into a buffer and the partial reads from a connection are not modelled.
- RateCounters.RateCounter.Update: timestamps and counts are unbounded integers, so 64-bit overflow is not modelled.
- RateCounters.ForwardIsExact: windows start at or after the epoch, as clocks read, and the period is above one millisecond; configured ones are whole seconds.
- RateLimiters.RateLimiter.Update: the tables hold counters as values instead of pointers; the key of a table is the list of address bits of the prefix instead of its printed form, which tells the same networks apart.
- RateLimiters.SortLimiters: the library sort is represented by an insertion sort on values.
- LoadBalancers.LoadBalancer.Address: calls happen one after the other; the code does not lock the index, and concurrent calls are not modelled. A call sees one health of each server.
- HealthProbes.HealthProbe.Execute: which tests are executed is an input, as their outcomes.
- Routing.FindHandler: the handlers are an immutable tree; regular expressions, host patterns and header look-up are predicates of the request.
- PathPatterns.PrintRoundTrip: it is about patterns whose segments hold no slash, and that without segments are absolute prefixes, as all parsed ones are.
- ConnectionPools.OvershootFromStart: safety only; that a waiting goroutine is woken at all, the accuracy of timers and `Stop` are not modelled. A held connection is released or hijacked once, as `pkg/protocols/http/action_reverse_proxy.go` does.
- TokenLists.SplitTokenList: lower case is that of ASCII.
- MediaTypes.NegotiateMediaType: the order that the library sort produces is a parameter, any permutation without an inversion; qualities are real numbers.
- MediaTypes.MediaTypeRoundTrip: media ranges are not parsed or printed, since their quality is a floating-point number.
