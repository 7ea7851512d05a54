# A verified model of the cmsc417 UDP time server

`assignment1/src/server.c` is a single-socket UDP time server. Each client sends
a 22-byte TimeRequest: a 2-byte id `0x0417`, a 4-byte sequence number and 16
opaque bytes. The server keeps one session per client address. The session holds
the highest sequence number seen, a ttl and a single 38-byte pending response.
The response is the request copied verbatim, then the clock reading as two
big-endian 64-bit fields. A `poll` loop reads datagrams, sometimes drops one on
purpose, and flushes every session's pending response when the socket is
writable.

The model keeps the program's own structure:

- `Wire` holds the fixed-size wire format as pure functions:
  - the big-endian integer codec;
  - the id test and the signed sequence number;
  - the response layout;
  - what `recvfrom` leaves in the 22-byte request buffer.
- `Address` holds the session's `addr` text ("a.b.c.d:port"). A parser reads
  the text back into the address, so the round trip can be proved.
- `Sessions` holds the session table as a value:
  - `Accept` is the update applied on a good request;
  - `Deliver` is what one handled datagram does to the table;
  - `IsFlushOf` says what a flush must send.
- `Events` holds the poll interest mask as a 16-bit value, with the Linux
  `<poll.h>` flag values, and how one pass of the loop changes it.
- `Args` holds the integer checks of `server_parser` and `server_parseopt`,
  and the drop gate on exact rationals.
- `Server` holds the mutable state as classes:
  - `TimeServer` has the global `TRQST_BUF` as an array and the uthash table
    as a map from address to `ClientFrame` objects;
  - each `ClientFrame` has its own 38-byte response array;
  - `PollFd` carries `sock.events`.

  The methods update this state in place. Each method is proved against the
  pure functions above through the abstract view `TimeServer.Sessions()`.

System calls become inputs and outputs:

- the received datagram and its sender are a `Datagram` argument;
- `clock_gettime` is the `sec`/`nsec` arguments;
- `revents` and the drop decision are arguments of `Step`;
- each `sendto` is one `Send` in the returned list.

## Model

| member | source | states |
|---|---|---|
| Wire.FromToBigEndian | assignment1/src/server.c:134-135 | decoding the n-byte big-endian form of x gives x back |
| Wire.ToFromBigEndian | assignment1/src/server.c:128 | re-encoding the number a byte string denotes gives the same bytes |
| Wire.EncodeU64 | assignment1/src/server.c:134-135 | the htonll store is 8 bytes that decode to the stored value |
| Wire.ToUint64 | assignment1/src/server.c:134-135 | the `(uint64_t)` cast keeps values in range and is congruent to its input modulo 2^64 |
| Wire.AsInt32 | assignment1/src/server.c:128 | storing a u32 into a C int gives a value in int range, congruent modulo 2^32, and negative exactly when the top bit is set |
| Wire.RequestId | assignment1/src/server.c:122 | the id is byte 0 times 256 plus byte 1 (network order) |
| Wire.TimeRequestBytes | assignment1/src/server.c:122 | a request is accepted iff its first bytes are 0x04, 0x17 |
| Wire.IsTimeRequest | assignment1/src/server.c:122 | stated by TimeRequestBytes: the id test passes exactly when the first two bytes are 0x04, 0x17 |
| Wire.RequestSeq | assignment1/src/server.c:128 | the sequence number is the C int in range congruent to the big-endian u32 field modulo 2^32; it is negative exactly when the field is 2^31 or more |
| Wire.SequenceField | assignment1/src/server.c:128 | stated by FromToBigEndian and ToFromBigEndian: the unsigned 32-bit value of bytes 2 to 5 read most significant first, which RequestSeq then stores as a C int |
| Wire.BuildResponse | assignment1/src/server.c:126-135 | the response is 38 bytes: the request verbatim, then fields that decode to `(uint64_t)tv_sec` and `(uint64_t)tv_nsec` |
| Wire.ResponseFieldsDetermineResponse | assignment1/src/server.c:126-135 | every 38-byte buffer is the response built from its own prefix and decoded fields: building and decoding are inverse |
| Wire.Received | assignment1/src/server.c:110 | after recvfrom, byte i of TRQST_BUF is the datagram's byte i if the datagram has one, else the previous byte |
| Wire.FullDatagramReplacesBuffer | assignment1/src/server.c:110 | a datagram of 22 or more bytes replaces the whole buffer with its first 22 bytes |
| Wire.EmptyDatagramReusesStaleRequest | assignment1/src/server.c:110 | an empty datagram leaves the buffer unchanged |
| Address.Decimal | assignment1/src/server.c:98 | the `%d` text of a non-negative number is non-empty, all digits, and has no leading zero unless the number is 0 |
| Address.ParseDecimalOfDecimal | assignment1/src/server.c:97-98 | reading the decimal text back gives the number |
| Address.DottedQuad | assignment1/src/server.c:97 | the inet_ntop text is between 7 and 15 characters, so it and its NUL fit the INET_ADDRSTRLEN bytes inet_ntop is given; ParseAddressString reads it back |
| Address.AddressString | assignment1/src/server.c:96-99 | the address text is at most 21 characters, so it and its NUL fit INET_ADDRSTRLEN + 6 bytes |
| Address.ParseAddressString | assignment1/src/server.c:96-99 | parsing the address text gives back the IPv4 address and port it was made from |
| Address.AddressStringInjective | assignment1/src/server.c:96-99 | distinct addresses get distinct texts |
| Sessions.NewSession | assignment1/src/server.c:93-101 | a new session has maxSeq 0 and ttl 0 (the memset), and its buffer is whatever malloc left |
| Sessions.NewSessionNamesSender | assignment1/src/server.c:95-99 | a new session's address text parses to its sender and to no other address |
| Sessions.Current | assignment1/src/server.c:114-120 | stated by Deliver and HighSequenceNeverAdvances: the session HASH_FIND returns for a known sender, and for a new sender the fresh session handleIncomingClient sets up |
| Sessions.Accept | assignment1/src/server.c:126-135 | on a good request the buffer becomes the response for it, maxSeq becomes the larger of maxSeq and the signed seq, ttl becomes TTL0 exactly when maxSeq changed and is kept otherwise, and the address is kept |
| Sessions.Deliver | assignment1/src/server.c:114-137 | afterwards the sender has exactly one session and no other session changes; a bad id leaves an existing session unchanged and gives a new sender a fresh session; a good id makes the sender's session Accept of its found-or-created session: the response stored, maxSeq advanced, ttl reset exactly when maxSeq advances, address kept |
| Sessions.DeliverKeepsSeqsNonNegative | assignment1/src/server.c:129-133 | if every maxSeq is non-negative before a delivery, every maxSeq is non-negative after it |
| Sessions.HighSequenceNeverAdvances | assignment1/src/server.c:114-133 | a good request whose u32 sequence field is 2^31 or more only refreshes the buffer of the found-or-created session, known sender or new; maxSeq and ttl stay the same |
| Sessions.EmptyDatagramAnswersStaleRequest | assignment1/src/server.c:110-135 | after an empty datagram from any sender, known or new, that sender's pending response is the response to the stale accepted request left in the buffer |
| Sessions.MaxSeqNeverDecreases | assignment1/src/server.c:114-133 | over any run of handled datagrams, each with its own clock reading and new senders included, no session is lost and no maxSeq goes down |
| Sessions.OthersDoNotInterfere | assignment1/src/server.c:114-137 | over any run of handled datagrams, datagrams from other senders, known or new, never change a session |
| Sessions.SecondRequestSupersedesFirst | assignment1/src/server.c:126-135 | two good requests from one client before a flush: the flush sends that client exactly one datagram, the response to the second request |
| Sessions.BadFirstRequestFlushesJunk | assignment1/src/server.c:114-124 | a bad-id first datagram leaves a session, and the flush sends its never-written buffer to the sender |
| Sessions.BadFirstRequestBreaksAnswered | assignment1/src/server.c:114-124 | a concrete input after which a session holds no send-ready response |
| Sessions.DeliverChecked | assignment1/src/server.c:114-137 | the intended delivery: a bad request changes nothing; a good one gives the same table as Deliver, whatever the new buffer held |
| Sessions.DeliverCheckedKeepsAnswered | assignment1/src/server.c:114-137 | under the intended delivery every session always holds a 38-byte response that begins with an accepted request |
| Events.NextEvents | assignment1/src/server.c:189-204 | one pass never clears a bit; a handled datagram adds POLLOUT; a writable pass adds POLLIN; a pass that handles nothing and flushes nothing leaves the mask unchanged; NextEventsFrame states that it sets nothing else |
| Events.NextEventsFrame | assignment1/src/server.c:190-203 | one pass changes no bit other than POLLIN and POLLOUT; POLLOUT changes only when a datagram was handled, POLLIN only when the socket was writable |
| Events.HandlerResultIrrelevant | assignment1/src/server.c:192-194 | both handler results, 0 and -1, pass the `< 1` test and give the same mask |
| Events.EventsOnlyGrow | assignment1/src/server.c:193-202 | over any run of passes every bit once set stays set |
| Events.ReachableEvents | assignment1/src/server.c:189-204 | from the initial POLLIN or POLLPRI the mask is always either that or that plus POLLOUT; NoWritingBeforeFirstDatagram states that POLLOUT appears only once a datagram has been handled |
| Events.NoWritingBeforeFirstDatagram | assignment1/src/server.c:190-203 | until a datagram is handled, every pass leaves POLLOUT clear, writable passes and dropped datagrams included |
| Events.WritingNeverEnds | assignment1/src/server.c:190-194 | after one handled datagram, POLLOUT is set after every later run of passes |
| Events.IntendedNextEvents | assignment1/src/server.c:189-204 | the intended toggle: after a flush POLLIN is set and POLLOUT cleared; after a handled datagram (and no flush) POLLOUT is set and POLLIN cleared |
| Events.IntendedAlternates | assignment1/src/server.c:189-204 | under the intended toggle the mask always waits for exactly one of reading and writing |
| Args.PortError | assignment1/src/server.c:50-56 | a port is accepted iff it is above 1024 (0 is refused as not a number) and is kept as given |
| Args.PercentError | assignment1/src/server.c:58-63 | a drop percent is accepted iff it is in 0..100 |
| Args.ServerParser | assignment1/src/server.c:45-70 | one option is accepted exactly when it is valid; an accepted `-p` changes only the port and an accepted `-d` only the drop percent |
| Args.ParseOptions | assignment1/src/server.c:81 | stated by ParseOptionsOk: success exactly when every option is valid, with the last value of each option |
| Args.ServerParseopt | assignment1/src/server.c:72-91 | stated by ServerParseoptAccepts: the server starts exactly when every option is valid and a port was given |
| Args.ParseOptionsOk | assignment1/src/server.c:81-84 | parsing succeeds iff every option is in range; the result then holds the last port and the last percent given (or the start values), keeps the ranges, and its port is 0 iff no port option was given |
| Args.ServerParseoptAccepts | assignment1/src/server.c:72-91 | the server starts iff every option is valid and a port was given; it then runs with the last `-p` value, above 1024, and the last `-d` value (0 when none), in 0..100 |
| Args.BoundPort | assignment1/src/server.c:173 | htons keeps the 16-bit value congruent to the port modulo 2^16, so an in-range port is unchanged |
| Args.WrappedPortBindsPrivileged | assignment1/src/server.c:173 | `-p 65616` is accepted, and the server asks bind for port 80 |
| Args.CheckedPortError | assignment1/src/server.c:50-56 | the intended check accepts exactly 1024 < port < 65536, and the bound port is then the port given |
| Args.DropExtremes | assignment1/src/server.c:191 | with the gate on exact rationals, 0% never drops and 100% always drops |
| Args.Drops | assignment1/src/server.c:190-191 | on exact rationals the drop gate is the integer comparison 100 × draw < percent × 2^31 |
| Server.ClientFrame.constructor | assignment1/src/server.c:93-101 | a new frame has the sender as key, its address text, maxSeq 0, ttl 0 and a fresh 38-byte buffer |
| Server.ClientFrame.Update | assignment1/src/server.c:126-135 | the frame's view after the update is Accept of its view before |
| Server.ClientFrame.CopyRequest | assignment1/src/server.c:127 | the first 22 bytes of the buffer become the request; the rest are unchanged |
| Server.ClientFrame.StoreTimestamp | assignment1/src/server.c:134-135 | the buffer becomes the response built from its first 22 bytes and the clock reading |
| Server.PollFd.constructor | assignment1/src/server.c:165 | the mask starts as POLLIN or POLLPRI |
| Server.TimeServer.constructor | assignment1/src/server.c:27 | the static request buffer starts zeroed and the table empty |
| Server.TimeServer.Receive | assignment1/src/server.c:110 | the request buffer becomes Received of its old contents and the datagram; no session changes |
| Server.TimeServer.AddClient | assignment1/src/server.c:115-120 | the table gains exactly the new frame for the sender, a fresh NewSession; nothing else changes |
| Server.TimeServer.FindOrAddClient | assignment1/src/server.c:114-120 | afterwards the sender has a frame, and the table is the old one with the sender's Current session |
| Server.TimeServer.StoreResponse | assignment1/src/server.c:125-136 | only the sender's session changes, to Accept of what it was |
| Server.TimeServer.Respond | assignment1/src/server.c:114-137 | the table becomes Deliver of the old table; the result is 0 for an accepted request and -1 otherwise |
| Server.TimeServer.HandleIncomingMessage | assignment1/src/server.c:103-138 | the request buffer becomes Received; the table becomes Deliver of the old table for some contents of a new session's buffer; the result is 0 or -1 by the id |
| Server.TimeServer.FlushOutgoingBuffers | assignment1/src/server.c:140-150 | the sends are exactly one per session, to its address, with its buffer, in some order; the table is not modified |
| Server.TimeServer.ReadReady | assignment1/src/server.c:190-199 | the datagram is always received into the request buffer; a dropped one changes no session and not the mask; a handled one is delivered and adds POLLOUT |
| Server.TimeServer.WriteReady | assignment1/src/server.c:200-203 | the sends are a flush of the table, the table is unchanged, and POLLIN is added |
| Server.TimeServer.Step | assignment1/src/server.c:189-204 | one `default:` pass: the mask becomes NextEvents of the old one, the request buffer and table change as the read half says, and the sends are a flush exactly when the socket was writable |

## Left out

- Socket system calls (`socket`, `fcntl`, `bind`, `poll`, `recvfrom`, `sendto`) and their `exit(1)` failure paths are not modelled. The datagram, `revents` and the drop decision are inputs, and the sends are an output list.
- The `poll` results -1 (fatal) and 0 (a log line) are not modelled: nothing in the model changes in either case. `Step` is the `default:` branch.
- `clock_gettime` is replaced by the `sec` and `nsec` arguments.
- `rand()` and the `double` comparison of the drop gate are not modelled. `Step` takes the decision as a boolean. `Args.Drops` restates the comparison on exact rationals rather than IEEE doubles.
- The argp plumbing and `atoi` are not modelled. Options arrive as already-converted integers, and text that is not a number arrives as 0, which is what `atoi` gives. `drop_chance` is kept as the integer percent it is computed from.
- The uthash layout and its iteration order are not modelled. The table is a map keyed by (IPv4 address, port), and a flush may send in any order. The real key is the whole `sockaddr_in`, including its family and zero padding; the model assumes these are the same for every IPv4 sender.
- `malloc`, `realloc` and the never-freed memory are not modelled. The contents of a new frame's buffer are left unknown: `Deliver` takes them as a `junk` argument and `HandleIncomingMessage` states its result for some such contents.
- The logging (`printf`, `puts`, `perror`) is not modelled.
- The ttl countdown is not modelled because the source has none: `min_ttl` stays -1 and nothing reads `ttl`. The model only stores `ttl` as the source does.
- Three behaviours of the code are easy to misread, and the model follows the code:
  - A short datagram overwrites only a prefix of the request buffer and is still handled.
  - The sequence number is a signed C `int`.
  - The interest mask bits are never cleared (see Findings).
- Server.TimeServer.HandleIncomingMessage: states the new table only up to the unknown contents of a new session's buffer, because that buffer comes from an uninitialised `malloc`.
- Server.TimeServer.Step: states the mask with handler result 0. `Events.HandlerResultIrrelevant` shows that -1 gives the same mask.

## Findings

| source | as written | input that shows it | evidently intended | confidence | as-written member | corrected member |
|---|---|---|---|---|---|---|
| assignment1/src/server.c:193-202 | `events \|= POLLOUT & ~POLLIN` and `events \|= POLLIN & ~POLLOUT` only ever set bits, so once one datagram has been handled POLLOUT stays set and every later pass flushes every session again | any readable pass with a datagram that is not dropped, followed by any passes | switch the mask between waiting to read and waiting to write | not executed | Events.WritingNeverEnds | Events.IntendedAlternates |
| assignment1/src/server.c:173 | the port check only asks for a value above 1024, and `htons` keeps the low 16 bits of the int | `-p 65616` is accepted and the server asks bind for port 80 | reject ports above 65535 | not executed | Args.WrappedPortBindsPrivileged | Args.CheckedPortError |
| assignment1/src/server.c:114-124 | the sender's session is created before the id check, so a bad-id first datagram leaves a session whose buffer was never written, and each flush sends those bytes | an empty table and a zero-filled datagram from a new sender | check the id before creating the session, so every session always holds a send-ready response | not executed | Sessions.BadFirstRequestFlushesJunk | Sessions.DeliverChecked |

The `Server` classes follow the code as written, so their contracts describe
what the program does. The corrected definitions sit beside the as-written
ones in `Events`, `Args` and `Sessions`, and the intended properties are proved
about them: `Events.IntendedAlternates`, `Args.CheckedPortError` and
`Sessions.DeliverCheckedKeepsAnswered`.
