# Proxy capture engine: a Dafny model

This project models the core of mcp-nettools' TCP proxy. That is the
part that records the traffic it forwards. Four pieces are modelled:

- **`RingBuffer`** is the per-proxy capture buffer. It is a circular array of
  captured packets under a byte budget. An oversized packet is cut to the
  budget. The oldest packets are evicted until the new one fits. The array
  doubles when every slot is in use.
  - `buffer.dfy` models it as a class over an `array<Option<Packet>>` with a
    ghost `Contents` sequence (oldest first).
  - The class invariant `Valid()` ties the array, `head`, `tail`, `count`
    and `currentSize` to `Contents`.
  - Each method is proved against the value-level specification functions
    `Truncate`, `Evict` and `Added`. Their FIFO, minimality and budget
    properties are proved as lemmas.
- **`detectProtocol`** is the ordered first-match classifier of one chunk:
  HTTP/1.x, then HTTP/2, gRPC, TLS, and Unknown otherwise. The HTTP/2 rule
  tests for the client connection preface of section 3.4 of RFC 9113. The TLS
  rule tests for record content type 22 (handshake) with major version 3,
  section 6.2.1 of RFC 5246. See `sniffer.dfy`, with the byte-string tests
  in `bytes.dfy`.
- **`extractAsciiStrings`** is the left-to-right scan for printable runs
  longer than four bytes, capped at ten. It is a loop method proved equal to
  a recursive reference definition `Runs`. Its order and completeness
  properties are proved as lemmas (`ascii_strings.dfy`).
- **`captureData`** records one chunk, and **`ProxyManager`** is the
  registry of running instances keyed by listen port (`proxy.dfy`). Whether
  the listener could bind (`bindOk`) and the current time (`now`) come in as
  parameters. The registry invariant says that every entry is the running
  instance listening on its key, with a valid capture buffer of its own: no two
  entries share a buffer or its array, so a capture on one instance leaves the
  others untouched.

All files are verified together. Modules: `Wrappers`, `Bytes`, `Sniffer`,
`AsciiStrings`, `Buffer`, `Proxy`.

## Model

| member | source | states |
|---|---|---|
| Bytes.HasPrefix | cmd/proxy.go:304-312 | `strings.HasPrefix` on bytes: the pattern fits in the chunk and equals its front slice |
| Bytes.HasPrefixPointwise | cmd/proxy.go:304-312 | `HasPrefix` holds exactly when the pattern is no longer than the chunk and agrees with it byte for byte |
| Bytes.Contains | cmd/proxy.go:317 | `strings.Contains` on bytes: true exactly when the pattern occurs at some index |
| Bytes.NotContainsWithoutFirstByte | cmd/proxy.go:317 | a pattern whose first byte never occurs in the chunk does not occur in it |
| Sniffer.Label | cmd/proxy.go:308-326 | the stored label is one of "HTTP/1.x", "HTTP/2", "gRPC", "TLS", "Unknown" |
| Sniffer.LabelsDistinct | cmd/proxy.go:308-326 | distinct protocols get distinct labels, so the label identifies the rule that fired |
| Sniffer.DetectProtocol | cmd/proxy.go:300-327 | the result's rule matches the chunk, and no rule ranked before it matches (first match wins, Unknown last) |
| Sniffer.LabelIsOneOfFive | cmd/proxy.go:300-327 | the reported label is one of "HTTP/1.x", "HTTP/2", "gRPC", "TLS", "Unknown" |
| Sniffer.Http1WinsOverLaterRules | cmd/proxy.go:304-309 | a chunk starting with one of the seven HTTP/1.x prefixes is HTTP/1.x, whatever else it contains |
| Sniffer.GrpcExactly | cmd/proxy.go:317-319 | gRPC if and only if neither HTTP rule matches and "/grpc." or ".proto." occurs somewhere |
| Sniffer.TlsExactly | cmd/proxy.go:322-324 | TLS if and only if no earlier rule matches, length > 5, byte 0 is 0x16 and byte 1 is 0x03 |
| Sniffer.ShortChunkIsNotTls | cmd/proxy.go:322 | a chunk of at most 5 bytes is never TLS |
| Sniffer.Http2PrefaceExample | cmd/proxy.go:312-314 | the RFC 9113 client preface is classified HTTP/2 |
| Sniffer.TlsRecordExample | cmd/proxy.go:322-324 | the record header 16 03 01 00 05 01 is classified TLS |
| Sniffer.PlainTextExample | cmd/proxy.go:326 | "hello world" is Unknown |
| AsciiStrings.Kept | cmd/proxy.go:338-348 | the length test of each flush: a run is appended only when longer than 4 bytes |
| AsciiStrings.KeptIsRunOrNothing | cmd/proxy.go:338-348 | a run is kept, alone, exactly when it has more than 4 bytes, and is dropped otherwise |
| AsciiStrings.Runs | cmd/proxy.go:334-348 | the reference definition of the scan before the cap: the maximal printable runs longer than 4 bytes, left to right |
| AsciiStrings.RunsSplit | cmd/proxy.go:334-343 | one unfolding of the reference: the leading run when kept, then the runs of the rest |
| AsciiStrings.RunsCount | cmd/proxy.go:334-348 | the runs are disjoint and at least 5 bytes long, so an n-byte chunk yields at most n / 5 of them |
| AsciiStrings.LeadingRunLength | cmd/proxy.go:334-336 | the longest printable prefix: all of it is printable and the byte after it is not |
| AsciiStrings.FirstTen | cmd/proxy.go:351-353 | at most ten results, the list itself when it has at most ten, else exactly its first ten |
| AsciiStrings.ExtractAsciiStrings | cmd/proxy.go:330-356 | the scan returns the first ten reference runs of the data; at most 10 strings, each longer than 4 bytes and printable |
| AsciiStrings.PrintableSnoc | cmd/proxy.go:335-336 | appending a printable byte keeps the current run printable |
| AsciiStrings.FlushStep | cmd/proxy.go:337-342 | after a flush at a non-printable byte the strings found so far are exactly the reference runs of the data read so far |
| AsciiStrings.ExtractedShape | cmd/proxy.go:338-353 | the capped result has at most ten strings, each longer than 4 bytes and printable |
| AsciiStrings.FlushAtNonPrintable | cmd/proxy.go:337-342 | a non-printable byte closes the current run, which is kept exactly when longer than 4 |
| AsciiStrings.FlushAtEnd | cmd/proxy.go:345-348 | a run that reaches the end of the data is flushed like any other |
| AsciiStrings.RunsAppend | cmd/proxy.go:334-343 | runs are found left to right: splitting the data after a non-printable byte concatenates the results |
| AsciiStrings.RunsShape | cmd/proxy.go:338 | every result is longer than 4 bytes and printable |
| AsciiStrings.RunsAreMaximal | cmd/proxy.go:334-348 | every result is a maximal printable run of the data (soundness) |
| AsciiStrings.RunsAreMaximalBeyond | cmd/proxy.go:334-348 | the soundness step past a leading run: later results are maximal runs of the data |
| AsciiStrings.MaximalRunsAreFound | cmd/proxy.go:334-348 | every maximal printable run longer than 4 bytes is among the results (completeness) |
| AsciiStrings.FoundAfterBreak | cmd/proxy.go:337-342 | completeness when the data starts with a non-printable byte |
| AsciiStrings.FoundAtFront | cmd/proxy.go:334-342 | a maximal run at offset 0, longer than 4 bytes, is the first result |
| AsciiStrings.FoundAfterLeadingRun | cmd/proxy.go:334-348 | a maximal run after the leading run is among the results of the rest |
| AsciiStrings.RunThenBreak | cmd/proxy.go:337-341 | a printable run followed by a break yields that run alone, when it is long enough |
| AsciiStrings.RunBreakThen | cmd/proxy.go:334-342 | a printable run, a break, then more data: the run (when longer than 4 bytes) comes first, then the runs of the rest |
| AsciiStrings.ShortTail | cmd/proxy.go:345-348 | a trailing run of at most 4 bytes yields nothing |
| AsciiStrings.TwoRuns | cmd/proxy.go:334-348 | two runs of at least 5 bytes separated by breaks, then a short tail, yield exactly those two runs |
| AsciiStrings.TwoRunsExample | cmd/proxy.go:334-348 | "AAAAA\x00BBBBB\x01C" yields ["AAAAA", "BBBBB"] |
| Buffer.TotalSize | cmd/buffer.go:61-75 | what `currentSize` counts: the sum of the retained packets' raw-data lengths |
| Buffer.TotalSizeBoundsEach | cmd/buffer.go:61-75 | every retained packet's raw data counts toward the total |
| Buffer.TotalSizeAppend | cmd/buffer.go:75 | appending a packet adds its raw-data length to the byte total |
| Buffer.Truncate | cmd/buffer.go:52-56 | raw data longer than the budget is cut to exactly the budget; every other field is kept; a packet that fits is unchanged |
| Buffer.Evict | cmd/buffer.go:58-64 | eviction leaves a suffix of the contents |
| Buffer.EvictFits | cmd/buffer.go:59-64 | after eviction the incoming bytes fit, whenever they fit on their own |
| Buffer.EvictMinimal | cmd/buffer.go:59-64 | every packet dropped had to go: each longer suffix would still overflow |
| Buffer.Added | cmd/buffer.go:50-75 | the value-level `Add`: evict oldest-first for the truncated packet, then append it; its shape and budget are proved in the two rows below |
| Buffer.AddedWithinBudget | cmd/buffer.go:50-75 | after an add the byte total is within the budget |
| Buffer.AddedIsMinimalFifo | cmd/buffer.go:58-75 | an add keeps a suffix of the old contents followed by the truncated new packet; the packets dropped are exactly those that had to go |
| Buffer.FifoExample | cmd/buffer.go:58-75 | at the specification level, budget 2X holding two X-byte packets: adding a third X-byte packet leaves packets 2 and 3, in order |
| Buffer.WrapIsMod | cmd/buffer.go:62 | the ring index step equals Go's `% len(data)` |
| Buffer.RingPop | cmd/buffer.go:60-63 | the oldest packet sits at `tail`; advancing `tail` removes it and keeps the ring layout |
| Buffer.RingPush | cmd/buffer.go:72-74 | writing the slot at `head` of a non-full ring then stepping `head` appends the packet |
| Buffer.RingSlices | cmd/buffer.go:106-111 | the two-slice read-out (one slice when not wrapped) gives the live slots oldest first |
| Buffer.RingFromZero | cmd/buffer.go:90-92 | packets copied to the front of the new array form a ring with tail 0 and head = count |
| Buffer.CopyInto | cmd/buffer.go:84-87 | `copy` into the destination at an offset replaces exactly that range |
| Buffer.RingBuffer.constructor | cmd/buffer.go:31-43 | a non-positive budget means 10 MiB; the new buffer is empty with 1000 slots |
| Buffer.RingBuffer.Add | cmd/buffer.go:46-76 | the new contents are the specification's add of the packet; the ring and byte invariants hold; the array is kept or doubled |
| Buffer.RingBuffer.EvictFor | cmd/buffer.go:59-64 | the eviction loop leaves the specification's eviction and makes room for the incoming bytes |
| Buffer.RingBuffer.DropOldest | cmd/buffer.go:60-63 | one eviction step removes exactly the oldest packet, keeping the array and the invariants |
| Buffer.RingBuffer.Push | cmd/buffer.go:72-75 | storing at `head` appends the packet and keeps the invariants |
| Buffer.RingBuffer.Grow | cmd/buffer.go:79-93 | capacity doubles, order and contents are kept, tail becomes 0 and head becomes count |
| Buffer.RingBuffer.CopyLive | cmd/buffer.go:83-88 | the one- or two-slice copy puts the live packets, oldest first, at the front of the new array |
| Buffer.RingBuffer.GetAll | cmd/buffer.go:96-114 | returns exactly the retained packets, oldest first, empty when there are none, changing nothing |
| Buffer.RingBuffer.Clear | cmd/buffer.go:117-130 | contents empty, all indices and the byte count 0, every slot emptied, the array kept |
| Buffer.RingBuffer.UsagePercent | cmd/buffer.go:134-146 | usage is 100 × bytes held / budget, between 0 and 100, and 0 exactly when nothing is held |
| Buffer.RingBuffer.GetStats | cmd/buffer.go:149-154 | reports the number of retained packets, their byte total and the usage |
| Buffer.AddedToEmpty | cmd/buffer.go:72-75 | a packet that fits an empty buffer is kept whole and alone |
| Buffer.OnePacketStats | cmd/proxy_test.go:14-52 | one 100-byte packet in a 1 MiB buffer: 1 packet, 100 bytes, usage above zero |
| Proxy.HexPreview | cmd/proxy.go:279-283 | the hex dump input is the first min(n, 200) bytes of the chunk |
| Proxy.Capture | cmd/proxy.go:286-294 | the record of a chunk: timestamp and direction as given, the full length and a copy of the data, a hex preview of at most 200 leading bytes, the strings found and a protocol whose rule matches |
| Proxy.Instance.constructor | cmd/proxy.go:65-74 | a new instance holds its configuration and start time, an empty buffer with the requested budget, and zero bytes captured |
| Proxy.Instance.CaptureData | cmd/proxy.go:266-297 | the byte counter grows by exactly the chunk length; the buffer receives the record of the chunk |
| Proxy.Instance.Stop | cmd/proxy.go:140-141 | stopping closes `Done` and the listener and leaves the byte counter unchanged |
| Proxy.CapturedRecord | cmd/proxy.go:266-296 | the stored record has the full chunk length; it keeps min(n, budget) bytes of raw data and a hex preview of min(n, 200) bytes; it has the detected protocol and at most ten printable strings |
| Proxy.ProxyManager.constructor | cmd/proxy.go:42-46 | the registry starts empty |
| Proxy.ProxyManager.StartProxy | cmd/proxy.go:49-84 | a port in use is refused with the registry unchanged; a failed bind inserts nothing; otherwise exactly that port is added with a fresh, empty instance |
| Proxy.ProxyManager.StopProxy | cmd/proxy.go:87-112 | an unknown port is an error with the registry unchanged; otherwise that instance is signalled and closed, only its key is removed, and its byte total is returned |
| Proxy.ProxyManager.GetProxy | cmd/proxy.go:115-120 | present exactly when the port is registered, and then the instance listening on that port |
| Proxy.ProxyManager.GetAllProxies | cmd/proxy.go:123-132 | every registered instance exactly once: as many as there are ports, no duplicates |
| Proxy.Collect | cmd/proxy.go:127-130 | the listing loop: every instance of the map exactly once, each the one on its own port |
| Proxy.CollectStep | cmd/proxy.go:128-129 | appending the instance of a port not yet listed keeps the list keyed and its ports distinct |
| Proxy.ProxyManager.StopAll | cmd/proxy.go:135-145 | every instance is signalled and closed with its byte counter unchanged, and the registry is left empty |
| Proxy.StopEach | cmd/proxy.go:139-143 | the stopping loop: every instance of the map is signalled and closed, and no byte counter changes |
| Proxy.CaptureWhileRegistered | cmd/proxy.go:246 | a chunk captured by one registered instance changes only that instance: the registry stays valid, and every other instance keeps its buffer contents and byte counter |
| Proxy.Lifecycle | cmd/proxy_test.go:55-115 | a started proxy is listed alone with zero bytes and zero usage; starting it again is refused; it stops with zero bytes; stopping it again is an error |

## Left out

- Socket I/O and goroutines are not modelled, because they are relay
  loops over real connections. This covers `run`, `handleConnection`,
  `copyWithCapture`, the listen, accept, dial, read and write calls, and
  the one-second deadlines (cmd/proxy.go:148-263). The bind outcome is the
  `bindOk` parameter of `StartProxy`.
- Mutexes, the read-write lock and the atomic connection counters are not
  modelled; every operation is taken as atomic. `GetConnectionCount` and
  `ProxyStats.Connections` are only changed by the accept and relay loops,
  so they are left out with them.
- Buffer.RingBuffer.UsagePercent: computed over exact reals. Rounding of
  Go's `float64` division is not modelled.
- `hex.Dump` text formatting is not modelled. The model keeps the bytes it
  is given (`hexPreview`).
- Clock values are not modelled: `time.Now` becomes the `now` parameter,
  used as the timestamp and `startedAt`.
- Log messages and the text of error messages are not modelled. Errors are
  the `Outcome` kinds, which carry the port.
- Buffer.RingBuffer.Add: the Go code writes the truncated raw data back into
  the caller's packet object. The model treats packets as values, so the
  caller's packet is not changed.
- The order of `GetAllProxies` is not modelled, because Go's map iteration
  order is unspecified. The result is pinned down only up to order.
- Proxy.Instance.CaptureData: `BytesCaptured` is an `int64`, but the model
  uses unbounded integers, so overflow is not modelled.
- Detected protocols are a datatype, and `Label` maps them to the strings
  the Go code stores.
- `cmd/tools.go` (request handlers and JSON encoding) is not part of this
  model, nor is `cmd/main.go` (server and tool registration).
