/** A client's network identity (the sockaddr_in used as the session key) and
    the "ip:port" text built for it when its session is created. */
module Address {
  import opened Wire

  /** The four bytes of sin_addr, in network order. */
  type IPv4 = s: seq<uint8> | |s| == 4 witness [0, 0, 0, 0]

  /** The sender of a datagram: its IPv4 address and its port in host order
      (ntohs(sin_port)). The family is always AF_INET and sin_zero is zeroed,
      so these two fields are all that tells two keys apart. */
  datatype SockAddr = SockAddr(ip: IPv4, port: uint16)

  /** INET_ADDRSTRLEN from <netinet/in.h>. */
  const INET_ADDRSTRLEN: nat := 16
  /** The size of the buffer allocated for the address text, NUL included. */
  const ADDR_BUF_LEN: nat := INET_ADDRSTRLEN + 6

  datatype Option<T> = None | Some(value: T)

  function DigitChar(d: nat): (c: char)
    requires d < 10
    ensures '0' <= c <= '9'
  {
    (('0' as int) + d) as char
  }

  function DigitValue(c: char): (d: nat)
    requires '0' <= c <= '9'
    ensures d < 10 && DigitChar(d) == c
  {
    (c as int) - ('0' as int)
  }

  predicate AllDigits(s: string) {
    forall i | 0 <= i < |s| :: '0' <= s[i] <= '9'
  }

  /** The "%d" (or inet_ntop) text of a non-negative number: decimal digits,
      most significant first, no leading zero. */
  function Decimal(n: nat): (s: string)
    ensures |s| >= 1
    ensures AllDigits(s)
    ensures n == 0 || s[0] != '0'
  {
    if n < 10 then [DigitChar(n)] else Decimal(n / 10) + [DigitChar(n % 10)]
  }

  /** The value of a string of decimal digits. */
  function ParseDecimal(s: string): nat
    requires AllDigits(s)
  {
    if s == [] then 0 else ParseDecimal(s[..|s| - 1]) * 10 + DigitValue(s[|s| - 1])
  }

  lemma {:induction false} ParseDecimalOfDecimal(n: nat)
    ensures ParseDecimal(Decimal(n)) == n
  {
    var s := Decimal(n);
    if n >= 10 {
      assert s[..|s| - 1] == Decimal(n / 10);
      ParseDecimalOfDecimal(n / 10);
    } else {
      assert s[..0] == [];
    }
  }

  /** A number below 10^k takes at most k digits. */
  lemma {:induction false} DecimalLength(n: nat, k: nat, bound: nat)
    requires k >= 1 && bound == Pow10(k) && n < bound
    ensures |Decimal(n)| <= k
  {
    if n >= 10 {
      DecimalLength(n / 10, k - 1, Pow10(k - 1));
    }
  }

  function Pow10(k: nat): (p: nat)
    ensures p >= 1
  {
    if k == 0 then 1 else 10 * Pow10(k - 1)
  }

  /** inet_ntop(AF_INET, ...): the dotted-decimal text of an IPv4 address,
      which with its NUL fits an INET_ADDRSTRLEN buffer. */
  function DottedQuad(ip: IPv4): (s: string)
    ensures 7 <= |s| && |s| + 1 <= INET_ADDRSTRLEN
  {
    DecimalLength(ip[0], 3, 1000);
    DecimalLength(ip[1], 3, 1000);
    DecimalLength(ip[2], 3, 1000);
    DecimalLength(ip[3], 3, 1000);
    Decimal(ip[0]) + "." + Decimal(ip[1]) + "." + Decimal(ip[2]) + "." + Decimal(ip[3])
  }

  /** The session's `addr` text: the dotted quad, a colon and the decimal port.
      With its terminating NUL it fits the INET_ADDRSTRLEN + 6 allocation. */
  function AddressString(a: SockAddr): (s: string)
    ensures |s| <= 21 && |s| + 1 <= ADDR_BUF_LEN
  {
    assert Pow10(3) == 1000 && Pow10(5) == 100000;
    DecimalLength(a.port, 5, 100000);
    DottedQuad(a.ip) + ":" + Decimal(a.port)
  }

  /** The text before the first `sep` in s, and the text after it. */
  function SplitAt(s: string, sep: char): Option<(string, string)> {
    if s == [] then None
    else if s[0] == sep then Some(([], s[1..]))
    else match SplitAt(s[1..], sep)
      case None => None
      case Some((before, after)) => Some(([s[0]] + before, after))
  }

  lemma {:induction false} SplitAtFirst(before: string, sep: char, after: string)
    requires sep !in before
    ensures SplitAt(before + [sep] + after, sep) == Some((before, after))
  {
    if before != [] {
      assert (before + [sep] + after)[1..] == before[1..] + [sep] + after;
      SplitAtFirst(before[1..], sep, after);
      assert [before[0]] + before[1..] == before;
    }
  }

  /** One decimal field of the address text, with an upper bound on its value. */
  function DecimalField(s: string, limit: nat): Option<nat> {
    if s != [] && AllDigits(s) && ParseDecimal(s) < limit then Some(ParseDecimal(s)) else None
  }

  /** Reads an "a.b.c.d:port" text back into the address it names. */
  function ParseAddress(s: string): Option<SockAddr> {
    match SplitAt(s, '.')
    case None => None
    case Some((f0, r0)) =>
      match SplitAt(r0, '.')
      case None => None
      case Some((f1, r1)) =>
        match SplitAt(r1, '.')
        case None => None
        case Some((f2, r2)) =>
          match SplitAt(r2, ':')
          case None => None
          case Some((f3, p)) =>
            match (DecimalField(f0, 256), DecimalField(f1, 256), DecimalField(f2, 256),
                   DecimalField(f3, 256), DecimalField(p, 0x1_0000))
            case (Some(a), Some(b), Some(c), Some(d), Some(port)) =>
              Some(SockAddr([a, b, c, d], port))
            case _ => None
  }

  lemma DecimalFieldOf(n: nat, limit: nat)
    requires n < limit
    ensures DecimalField(Decimal(n), limit) == Some(n)
  {
    ParseDecimalOfDecimal(n);
  }

  /** The address text names its address: reading it back gives the key. */
  lemma {:induction false} ParseAddressString(a: SockAddr)
    ensures ParseAddress(AddressString(a)) == Some(a)
  {
    var d0, d1, d2, d3, p := Decimal(a.ip[0]), Decimal(a.ip[1]), Decimal(a.ip[2]),
                              Decimal(a.ip[3]), Decimal(a.port);
    var r2 := d3 + ":" + p;
    var r1 := d2 + "." + r2;
    var r0 := d1 + "." + r1;
    assert AddressString(a) == d0 + "." + r0;
    SplitAtFirst(d0, '.', r0);
    SplitAtFirst(d1, '.', r1);
    SplitAtFirst(d2, '.', r2);
    SplitAtFirst(d3, ':', p);
    DecimalFieldOf(a.ip[0], 256);
    DecimalFieldOf(a.ip[1], 256);
    DecimalFieldOf(a.ip[2], 256);
    DecimalFieldOf(a.ip[3], 256);
    DecimalFieldOf(a.port, 0x1_0000);
    QuadOfItsBytes(a.ip);
  }

  lemma QuadOfItsBytes(ip: IPv4)
    ensures [ip[0], ip[1], ip[2], ip[3]] == ip
  {
  }

  /** Distinct session keys get distinct address texts. */
  lemma AddressStringInjective(a: SockAddr, b: SockAddr)
    requires AddressString(a) == AddressString(b)
    ensures a == b
  {
    ParseAddressString(a);
    ParseAddressString(b);
  }
}
