/** The server's mutable state and the steps of its main loop: the global
    request buffer, the uthash table of client_frame records and the poll
    interest mask, updated in place. System calls are replaced by inputs
    (the received datagram, the clock reading, revents, the drop decision) and
    outputs (the datagrams to send). */
module Server {
  import opened Wire
  import opened Address
  import opened Sessions
  import opened Events

  /** What recvfrom delivers: the sender and the datagram's bytes. */
  datatype Datagram = Datagram(from: SockAddr, payload: seq<uint8>)

  /** struct client_frame: one client's session record. */
  class ClientFrame {
    const sockAddr: SockAddr
    const addr: string
    var maxSeq: int
    const buf: array<uint8>
    var ttl: int

    /** handleIncomingClient: key, address text, zeroed counters, and a
        response buffer of TRESP_LEN bytes whose contents are not set. */
    constructor (remaddr: SockAddr)
      ensures sockAddr == remaddr && addr == AddressString(remaddr)
      ensures maxSeq == 0 && ttl == 0
      ensures buf.Length == TRESP_LEN && fresh(buf)
    {
      sockAddr := remaddr;
      addr := AddressString(remaddr);
      maxSeq := 0;
      ttl := 0;
      buf := new uint8[TRESP_LEN];
    }

    ghost function View(): Session
      reads this, buf
    {
      Session(addr, maxSeq, ttl, buf[..])
    }

    /** The accepted-request branch of handleIncomingMessage on this frame:
        copy the request into the response buffer, advance maxSeq and ttl on a
        larger sequence number, then store the clock reading after it. */
    method Update(request: array<uint8>, sec: int, nsec: int)
      requires request.Length == TRQST_LEN && buf.Length == TRESP_LEN && request != buf
      modifies this, buf
      ensures View() == Accept(old(View()), request[..], sec, nsec)
    {
      CopyRequest(buf, request);
      var seqNum := RequestSeq(buf[..TRQST_LEN]);
      assert seqNum == RequestSeq(request[..]);
      if maxSeq < seqNum {
        maxSeq := seqNum;
        ttl := TTL0;
      }
      StoreTimestamp(buf, sec, nsec);
      assert buf[..] == BuildResponse(request[..], sec, nsec);
    }

    /** memcpy(buf, TRQST_BUF, TRQST_LEN) */
    static method CopyRequest(buf: array<uint8>, request: array<uint8>)
      requires buf.Length == TRESP_LEN && request.Length == TRQST_LEN && buf != request
      modifies buf
      ensures buf[..TRQST_LEN] == request[..]
      ensures buf[TRQST_LEN..] == old(buf[TRQST_LEN..])
    {
      forall i | 0 <= i < TRQST_LEN {
        buf[i] := request[i];
      }
    }

    /** The two htonll stores at offsets 22 and 30: the response then is the
        request already in the buffer followed by the clock reading. */
    static method StoreTimestamp(buf: array<uint8>, sec: int, nsec: int)
      requires buf.Length == TRESP_LEN
      modifies buf
      ensures buf[..] == BuildResponse(old(buf[..TRQST_LEN]), sec, nsec)
    {
      var secBytes := EncodeU64(ToUint64(sec));
      forall i | 0 <= i < 8 {
        buf[22 + i] := secBytes[i];
      }
      var nsecBytes := EncodeU64(ToUint64(nsec));
      forall i | 0 <= i < 8 {
        buf[30 + i] := nsecBytes[i];
      }
      assert buf[..] == old(buf[..TRQST_LEN]) + secBytes + nsecBytes;
    }

  }

  /** struct pollfd sock: the interest mask of the server socket. */
  class PollFd {
    var events: bv16

    /** sock.events = POLLIN | POLLPRI */
    constructor ()
      ensures events == INITIAL_EVENTS
    {
      events := INITIAL_EVENTS;
    }
  }

  class TimeServer {
    /** TRQST_BUF: the one buffer every datagram is received into. */
    const requestBuf: array<uint8>
    /** The uthash table `clients`, keyed by the sender's address. */
    var clients: map<SockAddr, ClientFrame>
    ghost var Repr: set<object>

    ghost predicate Valid()
      reads this
    {
      && this in Repr && requestBuf in Repr && requestBuf.Length == TRQST_LEN
      && (forall k | k in clients ::
            && clients[k] in Repr && clients[k].buf in Repr
            && clients[k].sockAddr == k
            && clients[k].buf.Length == TRESP_LEN
            && clients[k].buf != requestBuf)
      && (forall k1, k2 | k1 in clients && k2 in clients && k1 != k2 ::
            clients[k1].buf != clients[k2].buf)
    }

    /** The session table as a value. */
    ghost function Sessions(): Table
      reads this, Repr
      requires Valid()
    {
      map k | k in clients :: clients[k].View()
    }

    /** The state at start-up: static TRQST_BUF is zero and there are no clients. */
    constructor ()
      ensures Valid() && fresh(Repr)
      ensures requestBuf[..] == seq(TRQST_LEN, _ => 0)
      ensures Sessions() == map[]
    {
      requestBuf := new uint8[TRQST_LEN](_ => 0);
      clients := map[];
      new;
      Repr := {this, requestBuf};
    }

    /** recvfrom(sock, TRQST_BUF, TRQST_LEN, ...): the datagram's first bytes,
        at most TRQST_LEN of them, overwrite the request buffer. */
    method Receive(payload: seq<uint8>)
      requires Valid()
      modifies requestBuf
      ensures Valid()
      ensures requestBuf[..] == Received(old(requestBuf[..]), payload)
      ensures Sessions() == old(Sessions())
    {
      var n := if |payload| < TRQST_LEN then |payload| else TRQST_LEN;
      forall i | 0 <= i < n {
        requestBuf[i] := payload[i];
      }
    }

    /** handleIncomingClient followed by HASH_ADD: a new frame for `from`
        enters the table; no other session changes. */
    method AddClient(from: SockAddr) returns (locals: ClientFrame)
      requires Valid() && from !in clients
      modifies this
      ensures Valid() && fresh(Repr - old(Repr))
      ensures clients == old(clients)[from := locals] && fresh(locals) && fresh(locals.buf)
      ensures Sessions() == old(Sessions())[from := NewSession(from, locals.buf[..])]
    {
      ghost var before := Sessions();
      locals := new ClientFrame(from);
      assert locals.View() == NewSession(from, locals.buf[..]);
      ghost var expected := before[from := locals.View()];
      clients := clients[from := locals];
      Repr := Repr + {locals, locals.buf};
      assert Sessions() == expected by {
        forall k | k in clients
          ensures clients[k].View() == expected[k]
        {
        }
      }
    }

    /** HASH_FIND, and on a miss handleIncomingClient and HASH_ADD: afterwards
        `from` has a frame, and the table holds the session Current gives.
        `junk` is the new frame's unset buffer, when one was made. */
    method FindOrAddClient(from: SockAddr) returns (locals: ClientFrame, ghost junk: seq<uint8>)
      requires Valid()
      modifies this
      ensures Valid() && fresh(Repr - old(Repr))
      ensures from in clients && clients[from] == locals
      ensures Sessions() == old(Sessions())[from := Current(old(Sessions()), from, junk)]
    {
      if from in clients {
        locals := clients[from];
        junk := [];
        assert Sessions() == old(Sessions())[from := Current(old(Sessions()), from, junk)];
      } else {
        locals := AddClient(from);
        junk := locals.buf[..];
      }
    }

    /** The accepted-request branch of handleIncomingMessage, seen from the
        table: only the sender's session changes. */
    method StoreResponse(from: SockAddr, locals: ClientFrame, sec: int, nsec: int)
      requires Valid() && from in clients && clients[from] == locals
      modifies locals, locals.buf
      ensures Valid()
      ensures Sessions() == old(Sessions())[from := Accept(old(Sessions())[from], requestBuf[..], sec, nsec)]
    {
      ghost var before := Sessions();
      locals.Update(requestBuf, sec, nsec);
      ghost var expected := before[from := Accept(before[from], requestBuf[..], sec, nsec)];
      forall k | k in clients
        ensures clients[k].View() == expected[k]
      {
        if k != from {
          assert clients[k] != locals && clients[k].buf != locals.buf;
        }
      }
      assert Sessions() == expected;
    }

    /** handleIncomingMessage after recvfrom: find or create the sender's
        session and, when the request buffer carries the right id, store the
        response built from it and the clock reading (sec, nsec). Returns 0 for
        an accepted request and -1 for a bad id. */
    method Respond(from: SockAddr, sec: int, nsec: int) returns (rc: int, ghost junk: seq<uint8>)
      requires Valid()
      modifies this, Repr - {requestBuf}
      ensures Valid() && fresh(Repr - old(Repr))
      ensures rc == (if IsTimeRequest(requestBuf[..]) then 0 else -1)
      ensures Sessions() == Deliver(old(Sessions()), from, requestBuf[..], sec, nsec, junk)
    {
      var locals;
      locals, junk := FindOrAddClient(from);
      if IsTimeRequest(requestBuf[..]) {
        StoreResponse(from, locals, sec, nsec);
        rc := 0;
      } else {
        rc := -1;
      }
    }

    /** handleIncomingMessage: recvfrom into the request buffer, then Respond. */
    method HandleIncomingMessage(dgram: Datagram, sec: int, nsec: int) returns (rc: int)
      requires Valid()
      modifies Repr
      ensures Valid() && fresh(Repr - old(Repr))
      ensures requestBuf[..] == Received(old(requestBuf[..]), dgram.payload)
      ensures rc == (if IsTimeRequest(requestBuf[..]) then 0 else -1)
      ensures exists junk: seq<uint8> ::
                Sessions() == Deliver(old(Sessions()), dgram.from, requestBuf[..], sec, nsec, junk)
    {
      Receive(dgram.payload);
      ghost var junk;
      rc, junk := Respond(dgram.from, sec, nsec);
    }

    /** flushOutgoingBuffers: one send of each session's response buffer to
        that session's address, walking the table in any order. */
    method FlushOutgoingBuffers() returns (sends: seq<Send>)
      requires Valid()
      ensures IsFlushOf(Sessions(), sends)
    {
      sends := [];
      var remaining := clients.Keys;
      ghost var done: set<SockAddr> := {};
      while remaining != {}
        invariant remaining !! done && remaining + done == clients.Keys
        invariant forall i | 0 <= i < |sends| ::
                    sends[i].to in done && sends[i].payload == clients[sends[i].to].buf[..]
        invariant forall k | k in done :: exists i :: 0 <= i < |sends| && sends[i].to == k
        invariant forall i, j | 0 <= i < j < |sends| :: sends[i].to != sends[j].to
        decreases remaining
      {
        var k :| k in remaining;
        ghost var prev := sends;
        sends := sends + [Send(k, clients[k].buf[..])];
        remaining := remaining - {k};
        forall k' | k' in done + {k} ensures exists i :: 0 <= i < |sends| && sends[i].to == k' {
          if k' == k {
            assert sends[|prev|].to == k;
          } else {
            var i :| 0 <= i < |prev| && prev[i].to == k';
            assert sends[i].to == k';
          }
        }
        done := done + {k};
      }
      assert done == clients.Keys;
    }

    /** The readable half of a `default:` pass: the datagram is received into
        the request buffer either way; unless it is dropped it is handled, and
        then POLLOUT is added to the mask (the handler's result, 0 or -1, is
        always below 1). */
    method ReadReady(sock: PollFd, dropped: bool, dgram: Datagram, sec: int, nsec: int)
      requires Valid() && sock !in Repr
      modifies Repr, sock
      ensures Valid() && fresh(Repr - old(Repr)) && sock !in Repr
      ensures requestBuf[..] == Received(old(requestBuf[..]), dgram.payload)
      ensures dropped ==> Sessions() == old(Sessions()) && sock.events == old(sock.events)
      ensures !dropped ==> sock.events == old(sock.events) | (POLLOUT & !POLLIN)
      ensures !dropped ==>
                exists junk: seq<uint8> ::
                  Sessions() == Deliver(old(Sessions()), dgram.from, requestBuf[..], sec, nsec, junk)
    {
      if !dropped {
        var rc := HandleIncomingMessage(dgram, sec, nsec);
        if rc < 1 {
          sock.events := sock.events | (POLLOUT & !POLLIN);
        }
      } else {
        Receive(dgram.payload);
      }
    }

    /** The writable half of a `default:` pass: flush every session, then add
        POLLIN to the mask. Nothing of the server changes. */
    method WriteReady(sock: PollFd) returns (sends: seq<Send>)
      requires Valid() && sock !in Repr
      modifies sock
      ensures Valid() && Sessions() == old(Sessions())
      ensures sock.events == old(sock.events) | (POLLIN & !POLLOUT)
      ensures IsFlushOf(Sessions(), sends)
    {
      sends := FlushOutgoingBuffers();
      sock.events := sock.events | (POLLIN & !POLLOUT);
    }

    /** One pass through the `default:` branch of the main loop, for the
        revents poll reported: the readable half, then the writable half. */
    method Step(sock: PollFd, revents: bv16, dropped: bool, dgram: Datagram, sec: int, nsec: int)
      returns (sends: seq<Send>)
      requires Valid() && sock !in Repr
      modifies Repr, sock
      ensures Valid() && fresh(Repr - old(Repr)) && sock !in Repr
      ensures sock.events == NextEvents(old(sock.events), revents, dropped, 0)
      ensures revents & POLLIN == 0 ==>
                requestBuf[..] == old(requestBuf[..]) && Sessions() == old(Sessions())
      ensures revents & POLLIN != 0 ==>
                requestBuf[..] == Received(old(requestBuf[..]), dgram.payload)
      ensures revents & POLLIN != 0 && dropped ==> Sessions() == old(Sessions())
      ensures revents & POLLIN != 0 && !dropped ==>
                exists junk: seq<uint8> ::
                  Sessions() == Deliver(old(Sessions()), dgram.from, requestBuf[..], sec, nsec, junk)
      ensures revents & POLLOUT != 0 ==> IsFlushOf(Sessions(), sends)
      ensures revents & POLLOUT == 0 ==> sends == []
    {
      if revents & POLLIN != 0 {
        ReadReady(sock, dropped, dgram, sec, nsec);
      }
      sends := [];
      if revents & POLLOUT != 0 {
        sends := WriteReady(sock);
      }
    }
  }
}
