/** The TimeRequest / TimeResponse wire format: fixed-size datagrams whose
    multi-byte integers are big-endian (network byte order). */
module Wire {

  type uint8 = x: int | 0 <= x < 0x100
  type uint16 = x: int | 0 <= x < 0x1_0000
  type uint32 = x: int | 0 <= x < 0x1_0000_0000
  type uint64 = x: int | 0 <= x < 0x1_0000_0000_0000_0000

  /** TRQST_LEN: size of a TimeRequest. */
  const TRQST_LEN: nat := 22
  /** TRESP_LEN: size of a TimeResponse. */
  const TRESP_LEN: nat := 38
  /** The id every TimeRequest must carry in its first two bytes. */
  const TIME_REQUEST_ID: uint16 := 0x0417

  function Pow256(n: nat): (p: nat)
    ensures p >= 1
  {
    if n == 0 then 1 else 256 * Pow256(n - 1)
  }

  /** The n-byte big-endian representation of x. */
  function ToBigEndian(x: nat, n: nat): (s: seq<uint8>)
    requires x < Pow256(n)
    ensures |s| == n
  {
    if n == 0 then []
    else
      assert x / 256 < Pow256(n - 1);
      ToBigEndian(x / 256, n - 1) + [x % 256]
  }

  /** The number a big-endian byte string denotes. */
  function FromBigEndian(s: seq<uint8>): (x: nat)
    ensures x < Pow256(|s|)
  {
    if s == [] then 0
    else
      var hi := FromBigEndian(s[..|s| - 1]);
      assert hi * 256 + s[|s| - 1] < Pow256(|s|) by {
        assert hi <= Pow256(|s| - 1) - 1;
        assert hi * 256 <= Pow256(|s| - 1) * 256 - 256;
      }
      hi * 256 + s[|s| - 1]
  }

  lemma {:induction false} FromToBigEndian(x: nat, n: nat)
    requires x < Pow256(n)
    ensures FromBigEndian(ToBigEndian(x, n)) == x
  {
    if n > 0 {
      var s := ToBigEndian(x, n);
      assert s[..n - 1] == ToBigEndian(x / 256, n - 1);
      FromToBigEndian(x / 256, n - 1);
    }
  }

  lemma {:induction false} ToFromBigEndian(s: seq<uint8>)
    ensures ToBigEndian(FromBigEndian(s), |s|) == s
  {
    if s != [] {
      var n := |s|;
      var x := FromBigEndian(s);
      var hi := FromBigEndian(s[..n - 1]);
      assert x / 256 == hi && x % 256 == s[n - 1];
      ToFromBigEndian(s[..n - 1]);
      assert s == s[..n - 1] + [s[n - 1]];
    }
  }

  /** A big-endian u64, as htonll stores it. */
  function EncodeU64(x: uint64): (s: seq<uint8>)
    ensures |s| == 8 && FromBigEndian(s) == x
  {
    assert Pow256(8) == 0x1_0000_0000_0000_0000;
    FromToBigEndian(x, 8);
    ToBigEndian(x, 8)
  }

  /** The C conversion (uint64_t)v for an integer v (time_t, long):
      reduction modulo 2^64. */
  function ToUint64(v: int): (u: uint64)
    ensures 0 <= v < 0x1_0000_0000_0000_0000 ==> u == v
    ensures (u - v) % 0x1_0000_0000_0000_0000 == 0
  {
    v % 0x1_0000_0000_0000_0000
  }

  /** The conversion of a uint32_t into a 32-bit two's-complement C int. */
  function AsInt32(u: uint32): (i: int)
    ensures -0x8000_0000 <= i < 0x8000_0000
    ensures i % 0x1_0000_0000 == u
    ensures i < 0 <==> u >= 0x8000_0000
  {
    if u < 0x8000_0000 then u else u - 0x1_0000_0000
  }

  /** ntohs(*(uint16_t *)TRQST_BUF): the id field of a request buffer. */
  function RequestId(buf: seq<uint8>): (id: uint16)
    requires |buf| == TRQST_LEN
    ensures id == buf[0] as int * 256 + buf[1] as int
  {
    assert Pow256(2) == 0x1_0000;
    var field := buf[0..2];
    assert field[..1] == [buf[0]] && field[..1][..0] == [];
    assert FromBigEndian(field[..1]) == buf[0];
    FromBigEndian(field)
  }

  /** A request buffer is accepted exactly when its id is 0x0417. */
  predicate IsTimeRequest(buf: seq<uint8>)
    requires |buf| == TRQST_LEN
  {
    RequestId(buf) == TIME_REQUEST_ID
  }

  lemma TimeRequestBytes(buf: seq<uint8>)
    requires |buf| == TRQST_LEN
    ensures IsTimeRequest(buf) <==> buf[0] == 0x04 && buf[1] == 0x17
  {
  }

  /** ntohl(*(uint32_t *)&buf[2]): the unsigned sequence field. */
  function SequenceField(buf: seq<uint8>): (u: uint32)
    requires |buf| >= 6
  {
    assert Pow256(4) == 0x1_0000_0000;
    FromBigEndian(buf[2..6])
  }

  /** `int seq = ntohl(...)`: the sequence field as the C int it is stored in. */
  function RequestSeq(buf: seq<uint8>): (s: int)
    requires |buf| == TRQST_LEN
    ensures -0x8000_0000 <= s < 0x8000_0000
    ensures s < 0 <==> SequenceField(buf) >= 0x8000_0000
    ensures (s - SequenceField(buf)) % 0x1_0000_0000 == 0
  {
    AsInt32(SequenceField(buf))
  }

  /** The 38-byte TimeResponse: the request verbatim, then the seconds and the
      nanoseconds of the clock reading, each as a big-endian u64. */
  function BuildResponse(req: seq<uint8>, sec: int, nsec: int): (r: seq<uint8>)
    requires |req| == TRQST_LEN
    ensures |r| == TRESP_LEN
    ensures r[..TRQST_LEN] == req
    ensures FromBigEndian(r[22..30]) == ToUint64(sec)
    ensures FromBigEndian(r[30..38]) == ToUint64(nsec)
  {
    var r := req + EncodeU64(ToUint64(sec)) + EncodeU64(ToUint64(nsec));
    assert r[22..30] == EncodeU64(ToUint64(sec));
    assert r[30..38] == EncodeU64(ToUint64(nsec));
    r
  }

  /** Every 38-byte buffer is the response built from its own first 22 bytes
      and the two u64 fields it carries: a response is determined by, and
      decodes back to, what it was built from. */
  lemma {:induction false} ResponseFieldsDetermineResponse(r: seq<uint8>)
    requires |r| == TRESP_LEN
    ensures BuildResponse(r[..TRQST_LEN], FromBigEndian(r[22..30]), FromBigEndian(r[30..38])) == r
  {
    var sec := FromBigEndian(r[22..30]);
    var nsec := FromBigEndian(r[30..38]);
    assert Pow256(8) == 0x1_0000_0000_0000_0000;
    ToFromBigEndian(r[22..30]);
    ToFromBigEndian(r[30..38]);
    assert r == r[..22] + r[22..30] + r[30..38];
  }

  /** The contents of TRQST_BUF after recvfrom stores a datagram into it: at most
      TRQST_LEN bytes are written, a longer datagram is truncated and a shorter one
      overwrites only a prefix, leaving the tail of the previous contents. */
  function Received(prev: seq<uint8>, datagram: seq<uint8>): (buf: seq<uint8>)
    requires |prev| == TRQST_LEN
    ensures |buf| == TRQST_LEN
    ensures forall i | 0 <= i < TRQST_LEN ::
              buf[i] == if i < |datagram| then datagram[i] else prev[i]
  {
    var n := if |datagram| < TRQST_LEN then |datagram| else TRQST_LEN;
    datagram[..n] + prev[n..]
  }

  /** A datagram of at least TRQST_LEN bytes replaces the whole buffer. */
  lemma FullDatagramReplacesBuffer(prev: seq<uint8>, datagram: seq<uint8>)
    requires |prev| == TRQST_LEN && |datagram| >= TRQST_LEN
    ensures Received(prev, datagram) == datagram[..TRQST_LEN]
  {
  }

  /** An empty datagram leaves the buffer as it was. */
  lemma EmptyDatagramReusesStaleRequest(prev: seq<uint8>)
    requires |prev| == TRQST_LEN
    ensures Received(prev, []) == prev
  {
  }
}
