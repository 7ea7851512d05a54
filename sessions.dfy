/** The session table as a value: what each client_frame holds, how one
    received datagram changes the table, and what a flush must send. */
module Sessions {
  import opened Wire
  import opened Address

  /** TTL0: the ttl a session gets whenever its maxSeq advances. */
  const TTL0: int := 5

  /** The observable fields of one client_frame. `buf` is the single pending
      response slot, overwritten by every accepted request. */
  datatype Session = Session(addr: string, maxSeq: int, ttl: int, buf: seq<uint8>)

  type Table = map<SockAddr, Session>

  /** One outgoing datagram: the destination and the bytes sent. */
  datatype Send = Send(to: SockAddr, payload: seq<uint8>)

  /** handleIncomingClient: a session for a new sender. Its buffer comes from
      an uninitialised malloc, so its contents `junk` are whatever was there. */
  function NewSession(from: SockAddr, junk: seq<uint8>): (s: Session)
    ensures s.maxSeq == 0 && s.ttl == 0 && s.buf == junk
  {
    Session(AddressString(from), 0, 0, junk)
  }

  /** A new session's address text names its sender and no other. */
  lemma NewSessionNamesSender(from: SockAddr, junk: seq<uint8>)
    ensures ParseAddress(NewSession(from, junk).addr) == Some(from)
    ensures forall other: SockAddr :: NewSession(other, junk).addr == NewSession(from, junk).addr ==> other == from
  {
    ParseAddressString(from);
    forall other: SockAddr | NewSession(other, junk).addr == NewSession(from, junk).addr
      ensures other == from
    {
      AddressStringInjective(other, from);
    }
  }

  /** The good-request branch of handleIncomingMessage on one session: the
      response slot always gets the new response; maxSeq and ttl change only
      when the request's (signed) sequence number is strictly larger. */
  function Accept(s: Session, req: seq<uint8>, sec: int, nsec: int): (r: Session)
    requires |req| == TRQST_LEN
    ensures r.addr == s.addr
    ensures r.buf == BuildResponse(req, sec, nsec)
    ensures r.maxSeq == Max(s.maxSeq, RequestSeq(req))
    ensures r.maxSeq != s.maxSeq ==> r.ttl == TTL0
    ensures r.maxSeq == s.maxSeq ==> r.ttl == s.ttl
  {
    var n := RequestSeq(req);
    var r := Session(s.addr, s.maxSeq, s.ttl, BuildResponse(req, sec, nsec));
    if s.maxSeq < n then r.(maxSeq := n, ttl := TTL0) else r
  }

  /** The session HASH_FIND returns for `from`, or the one created for it. */
  function Current(t: Table, from: SockAddr, junk: seq<uint8>): Session {
    if from in t then t[from] else NewSession(from, junk)
  }

  function Max(a: int, b: int): int {
    if a < b then b else a
  }

  /** handleIncomingMessage after recvfrom, on the table: `req` is the request
      buffer's contents, `from` the sender. The sender's session is found or
      created first, whatever the request holds; only a request with the right
      id then updates it. `junk` stands for a new session's unset buffer. */
  function Deliver(t: Table, from: SockAddr, req: seq<uint8>, sec: int, nsec: int,
                   junk: seq<uint8>): (t': Table)
    requires |req| == TRQST_LEN
    ensures t'.Keys == t.Keys + {from}
    ensures forall k | k in t && k != from :: t'[k] == t[k]
    ensures from !in t && !IsTimeRequest(req) ==> t'[from] == NewSession(from, junk)
    ensures from in t && !IsTimeRequest(req) ==> t'[from] == t[from]
    ensures IsTimeRequest(req) ==>
              t'[from].buf == BuildResponse(req, sec, nsec) &&
              t'[from].maxSeq == Max(Current(t, from, junk).maxSeq, RequestSeq(req))
    ensures IsTimeRequest(req) ==> t'[from] == Accept(Current(t, from, junk), req, sec, nsec)
  {
    var found := t[from := Current(t, from, junk)];
    assert found[from] == Current(t, from, junk);
    if IsTimeRequest(req) then found[from := Accept(found[from], req, sec, nsec)] else found
  }

  /** What flushOutgoingBuffers sends for table t, in whatever order the table
      is walked: exactly one datagram per session, to that session's address,
      carrying that session's response slot. */
  ghost predicate IsFlushOf(t: Table, sends: seq<Send>) {
    && (forall i | 0 <= i < |sends| :: sends[i].to in t && sends[i].payload == t[sends[i].to].buf)
    && (forall k | k in t :: exists i :: 0 <= i < |sends| && sends[i].to == k)
    && (forall i, j | 0 <= i < j < |sends| :: sends[i].to != sends[j].to)
  }

  /** Every table keeps maxSeq >= 0: sessions start at 0 and only grow. */
  ghost predicate SeqsNonNegative(t: Table) {
    forall k | k in t :: t[k].maxSeq >= 0
  }

  lemma DeliverKeepsSeqsNonNegative(t: Table, from: SockAddr, req: seq<uint8>, sec: int,
                                    nsec: int, junk: seq<uint8>)
    requires |req| == TRQST_LEN && SeqsNonNegative(t)
    ensures SeqsNonNegative(Deliver(t, from, req, sec, nsec, junk))
  {
  }

  /** A sequence field of 2^31 or more is a negative C int, so it never
      advances a session: such a request still refreshes the response slot. */
  lemma HighSequenceNeverAdvances(t: Table, from: SockAddr, req: seq<uint8>, sec: int,
                                  nsec: int, junk: seq<uint8>)
    requires |req| == TRQST_LEN && SeqsNonNegative(t)
    requires IsTimeRequest(req) && SequenceField(req) >= 0x8000_0000
    ensures Deliver(t, from, req, sec, nsec, junk)[from] ==
            Current(t, from, junk).(buf := BuildResponse(req, sec, nsec))
  {
  }

  /** An empty datagram leaves the previous request in TRQST_BUF, so whoever
      sent it is answered with the response to that stale request. */
  lemma EmptyDatagramAnswersStaleRequest(t: Table, from: SockAddr, prev: seq<uint8>, sec: int,
                                         nsec: int, junk: seq<uint8>)
    requires |prev| == TRQST_LEN && IsTimeRequest(prev)
    ensures Deliver(t, from, Received(prev, []), sec, nsec, junk)[from].buf ==
            BuildResponse(prev, sec, nsec)
  {
    EmptyDatagramReusesStaleRequest(prev);
  }

  /** One handled datagram: its sender, the request buffer it left, the clock
      reading taken for it, and the unset contents of a buffer made for it. */
  datatype Arrival = Arrival(from: SockAddr, req: seq<uint8>, sec: int, nsec: int, junk: seq<uint8>)

  /** The session table after a run of handled datagrams, new senders included. */
  function DeliverAll(t: Table, run: seq<Arrival>): Table
    requires forall i | 0 <= i < |run| :: |run[i].req| == TRQST_LEN
    decreases |run|
  {
    if run == [] then t
    else
      var a := run[0];
      DeliverAll(Deliver(t, a.from, a.req, a.sec, a.nsec, a.junk), run[1..])
  }

  /** Over any run of handled datagrams no session is lost and no session's
      maxSeq goes down. */
  lemma {:induction false} MaxSeqNeverDecreases(t: Table, run: seq<Arrival>)
    requires forall i | 0 <= i < |run| :: |run[i].req| == TRQST_LEN
    ensures t.Keys <= DeliverAll(t, run).Keys
    ensures forall k | k in t :: DeliverAll(t, run)[k].maxSeq >= t[k].maxSeq
    decreases |run|
  {
    if run != [] {
      var a := run[0];
      var t1 := Deliver(t, a.from, a.req, a.sec, a.nsec, a.junk);
      MaxSeqNeverDecreases(t1, run[1..]);
    }
  }

  /** Datagrams from other senders, known or new, never touch a session. */
  lemma {:induction false} OthersDoNotInterfere(t: Table, run: seq<Arrival>, c: SockAddr)
    requires forall i | 0 <= i < |run| :: |run[i].req| == TRQST_LEN
    requires forall i | 0 <= i < |run| :: run[i].from != c
    requires c in t
    ensures c in DeliverAll(t, run) && DeliverAll(t, run)[c] == t[c]
    decreases |run|
  {
    if run != [] {
      var a := run[0];
      var t1 := Deliver(t, a.from, a.req, a.sec, a.nsec, a.junk);
      OthersDoNotInterfere(t1, run[1..], c);
    }
  }

  /** Coalescing: two accepted requests from one client before a flush leave a
      single pending response, the one built from the second request, and any
      flush then sends that client exactly that one datagram. */
  lemma SecondRequestSupersedesFirst(t: Table, c: SockAddr, req1: seq<uint8>, req2: seq<uint8>,
                                     sec1: int, nsec1: int, sec2: int, nsec2: int,
                                     junk: seq<uint8>, sends: seq<Send>)
    requires |req1| == TRQST_LEN && |req2| == TRQST_LEN
    requires IsTimeRequest(req1) && IsTimeRequest(req2)
    requires IsFlushOf(Deliver(Deliver(t, c, req1, sec1, nsec1, junk), c, req2, sec2, nsec2, junk), sends)
    ensures exists i :: 0 <= i < |sends| && sends[i] == Send(c, BuildResponse(req2, sec2, nsec2))
    ensures forall i, j | 0 <= i < |sends| && 0 <= j < |sends| && sends[i].to == c && sends[j].to == c :: i == j
  {
    var t2 := Deliver(Deliver(t, c, req1, sec1, nsec1, junk), c, req2, sec2, nsec2, junk);
    assert c in t2;
    var i :| 0 <= i < |sends| && sends[i].to == c;
    assert sends[i].payload == BuildResponse(req2, sec2, nsec2);
  }

  /** A session whose slot holds a send-ready response: 38 bytes that begin
      with an accepted request. */
  predicate Answered(s: Session) {
    |s.buf| == TRESP_LEN && IsTimeRequest(s.buf[..TRQST_LEN])
  }

  predicate AllAnswered(t: Table) {
    forall k | k in t :: Answered(t[k])
  }

  /** As written the sender's session is created before the id is checked,
      so a first datagram with a bad id leaves a session whose slot was never
      written, and every later flush sends that slot's unset bytes. */
  lemma BadFirstRequestFlushesJunk(t: Table, from: SockAddr, req: seq<uint8>, sec: int,
                                   nsec: int, junk: seq<uint8>, sends: seq<Send>)
    requires |req| == TRQST_LEN && from !in t && !IsTimeRequest(req)
    requires IsFlushOf(Deliver(t, from, req, sec, nsec, junk), sends)
    ensures exists i :: 0 <= i < |sends| && sends[i] == Send(from, junk)
  {
    var t' := Deliver(t, from, req, sec, nsec, junk);
    assert from in t';
    var i :| 0 <= i < |sends| && sends[i].to == from;
    assert sends[i].payload == junk;
  }

  /** The same on one input: from an empty table, a zero-filled datagram from
      any sender, with the new slot's unset bytes happening to be zero, leaves
      a session that holds no response. */
  lemma BadFirstRequestBreaksAnswered(from: SockAddr)
    ensures !AllAnswered(Deliver(map[], from, seq(TRQST_LEN, _ => 0), 0, 0, seq(TRESP_LEN, _ => 0)))
  {
    var zeros: seq<uint8> := seq(TRQST_LEN, _ => 0);
    var junk: seq<uint8> := seq(TRESP_LEN, _ => 0);
    assert RequestId(zeros) == 0;
    assert junk[..TRQST_LEN] == zeros;
    var t' := Deliver(map[], from, zeros, 0, 0, junk);
    assert t'[from].buf == junk;
  }

  /** The delivery evidently intended: the id is checked first and a bad
      request leaves the table as it was, sender included. */
  function DeliverChecked(t: Table, from: SockAddr, req: seq<uint8>, sec: int, nsec: int): (t': Table)
    requires |req| == TRQST_LEN
    ensures !IsTimeRequest(req) ==> t' == t
    ensures IsTimeRequest(req) ==>
              forall junk: seq<uint8> :: t' == Deliver(t, from, req, sec, nsec, junk)
  {
    if IsTimeRequest(req) then
      assert forall junk: seq<uint8> ::
        Deliver(t, from, req, sec, nsec, junk) == Deliver(t, from, req, sec, nsec, []) by {
        forall junk: seq<uint8>
          ensures Deliver(t, from, req, sec, nsec, junk) == Deliver(t, from, req, sec, nsec, [])
        {
          AcceptForgetsJunk(t, from, req, sec, nsec, junk);
        }
      }
      Deliver(t, from, req, sec, nsec, [])
    else t
  }

  lemma AcceptForgetsJunk(t: Table, from: SockAddr, req: seq<uint8>, sec: int, nsec: int,
                          junk: seq<uint8>)
    requires |req| == TRQST_LEN
    ensures Accept(Current(t, from, junk), req, sec, nsec) == Accept(Current(t, from, []), req, sec, nsec)
  {
  }

  /** Under the intended delivery every session always holds a send-ready
      response, so a flush never sends anything else. */
  lemma DeliverCheckedKeepsAnswered(t: Table, from: SockAddr, req: seq<uint8>, sec: int, nsec: int)
    requires |req| == TRQST_LEN && AllAnswered(t)
    ensures AllAnswered(DeliverChecked(t, from, req, sec, nsec))
  {
    if IsTimeRequest(req) {
      var t' := DeliverChecked(t, from, req, sec, nsec);
      assert t'[from].buf == BuildResponse(req, sec, nsec);
    }
  }
}
