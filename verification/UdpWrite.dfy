/** unpv13e/udpcksum/udpwrite.c: filling in the headers of a UDP datagram and its checksum. */
module UdpWrite {
  import opened SeqFacts
  import opened InternetChecksum

  type Bytes2 = s: seq<Byte> | |s| == 2 witness [0, 0]
  type Bytes4 = s: seq<Byte> | |s| == 4 witness [0, 0, 0, 0]

  /** The two endpoints, as their bytes stand in memory (network byte order). */
  datatype Endpoints = Endpoints(src: Bytes4, dst: Bytes4, sport: Bytes2, dport: Bytes2)

  const HEADER_BYTES := 28
  const SUM_OFFSET := 26
  const PROTOCOL_UDP: Byte := 17
  const TTL_OUT: Byte := 64

  /** htons: the low 16 bits, high byte first. */
  function Htons(n: nat): Bytes2 {
    Bytes(Big, n % 0x1_0000)
  }

  /** The pseudo-header and the UDP header for so much data. */
  function Header(e: Endpoints, userlen: nat, sum: seq<Byte>): seq<Byte> {
    var length := Htons(8 + userlen);
    Repeated<Byte>(0, 9) + [PROTOCOL_UDP] + length + e.src + e.dst + e.sport + e.dport + length + sum
  }

  /** All that the checksum covers (RFC 768). */
  function Covered(e: Endpoints, data: seq<Byte>, sum: seq<Byte>): seq<Byte> {
    Header(e, |data|, sum) + data
  }

  /** The first nine bytes of the IP header that replace the zeros before sending. */
  function IpStart(total: nat): (s: seq<Byte>)
    ensures |s| == 9
  {
    [0x45, 0] + Htons(total) + [0, 0, 0, 0, TTL_OUT]
  }

  function Patched(s: seq<Byte>, k: nat, b: seq<Byte>): (r: seq<Byte>)
    requires k + |b| <= |s|
    ensures |r| == |s|
  {
    s[..k] + b + s[k + |b|..]
  }

  lemma {:induction false} PatchedAt(a: seq<Byte>, x: seq<Byte>, c: seq<Byte>, b: seq<Byte>)
    requires |x| == |b|
    ensures Patched(a + x + c, |a|, b) == a + b + c
  {
    assert (a + x + c)[..|a|] == a && (a + x + c)[|a| + |b|..] == c;
  }

  /** Consecutive fields of a zeroed header, one after the other. */
  lemma {:induction false} PatchedNext(a: seq<Byte>, n: nat, c: seq<Byte>, b: seq<Byte>)
    requires |b| <= n
    ensures |a + Repeated<Byte>(0, n) + c| == |a| + n + |c|
    ensures Patched(a + Repeated<Byte>(0, n) + c, |a|, b) == a + b + Repeated<Byte>(0, n - |b|) + c
  {
    assert Repeated<Byte>(0, n) == Repeated<Byte>(0, |b|) + Repeated<Byte>(0, n - |b|);
    assert a + Repeated<Byte>(0, n) + c == a + Repeated<Byte>(0, |b|) + (Repeated<Byte>(0, n - |b|) + c);
    PatchedAt(a, Repeated<Byte>(0, |b|), Repeated<Byte>(0, n - |b|) + c, b);
    assert a + b + (Repeated<Byte>(0, n - |b|) + c) == a + b + Repeated<Byte>(0, n - |b|) + c;
  }

  method Put(buf: array<Byte>, k: nat, b: seq<Byte>)
    requires k + |b| <= buf.Length
    modifies buf
    ensures buf[..] == Patched(old(buf[..]), k, b)
  {
    for i := 0 to |b|
      invariant forall j :: 0 <= j < buf.Length ==> buf[j] == if k <= j < k + i then b[j - k] else old(buf[j])
    {
      buf[k + i] := b[i];
    }
  }

  /** The header as far as the checksum needs it (udpwrite.c:37-48). */
  method FillHeader(buf: array<Byte>, userlen: nat, e: Endpoints)
    requires buf.Length >= HEADER_BYTES + userlen
    modifies buf
    ensures buf[..] == Header(e, userlen, [0, 0]) + old(buf[HEADER_BYTES..])
  {
    ghost var data := buf[HEADER_BYTES..];
    assert buf[..] == [] + buf[..HEADER_BYTES] + data;
    PatchedAt([], buf[..HEADER_BYTES], data, Repeated<Byte>(0, 28));
    Put(buf, 0, Repeated<Byte>(0, 28));
    var length := Htons(8 + userlen);
    ghost var h := Repeated<Byte>(0, 10);
    assert Repeated<Byte>(0, 28) == h + Repeated<Byte>(0, 18);
    assert buf[..] == h + Repeated<Byte>(0, 18) + data;
    PatchedNext(h, 18, data, length);
    Put(buf, 10, length);
    assert h == Repeated<Byte>(0, 9) + [0];
    assert h + length + Repeated<Byte>(0, 16) + data == Repeated<Byte>(0, 9) + [0] + (length + Repeated<Byte>(0, 16) + data);
    PatchedAt(Repeated<Byte>(0, 9), [0], length + Repeated<Byte>(0, 16) + data, [PROTOCOL_UDP]);
    Put(buf, 9, [PROTOCOL_UDP]);
    h := Repeated<Byte>(0, 9) + [PROTOCOL_UDP] + length;
    assert buf[..] == h + Repeated<Byte>(0, 16) + data;
    hide Htons, Repeated, Patched;
    h := PutNext(buf, h, 16, data, e.src);
    h := PutNext(buf, h, 12, data, e.dst);
    h := PutNext(buf, h, 8, data, e.sport);
    h := PutNext(buf, h, 6, data, e.dport);
    h := PutNext(buf, h, 4, data, length);
    ZerosTwo();
  }

  lemma ZerosTwo()
    ensures Repeated<Byte>(0, 2) == [0, 0]
  {
  }

  /** Writes the next field of the header. */
  method PutNext(buf: array<Byte>, ghost h: seq<Byte>, n: nat, ghost data: seq<Byte>, b: seq<Byte>)
    returns (ghost h': seq<Byte>)
    requires |b| <= n && n <= HEADER_BYTES && |h| == HEADER_BYTES - n && buf[..] == h + Repeated<Byte>(0, n) + data
    modifies buf
    ensures h' == h + b && buf[..] == h' + Repeated<Byte>(0, n - |b|) + data
  {
    PatchedNext(h, n, data, b);
    assert |buf[..]| == buf.Length;
    Put(buf, HEADER_BYTES - n, b);
    h' := h + b;
  }

  /** The value udp_write stores for a datagram whose checksum field is zero. */
  function SumToSend(order: Order, covered: seq<Byte>, zerosum: bool): Word {
    if zerosum then 0 else Transmitted(Folded(Sum(order, covered)))
  }

  /** udp_write up to the call of sendto: the user data stands behind 28 bytes for the headers. */
  method Fill(order: Order, buf: array<Byte>, userlen: nat, e: Endpoints, zerosum: bool)
    requires buf.Length >= HEADER_BYTES + userlen
    modifies buf
    ensures var data := old(buf[HEADER_BYTES..HEADER_BYTES + userlen]);
            var sum := SumToSend(order, Covered(e, data, [0, 0]), zerosum);
            && buf[..HEADER_BYTES + userlen] == Datagram(e, data, Bytes(order, sum))
            && IsUdpDatagram(buf[..HEADER_BYTES + userlen], e, data, Bytes(order, sum))
    ensures buf[HEADER_BYTES + userlen..] == old(buf[HEADER_BYTES + userlen..])
  {
    hide Header, Folded, Sum, Checksum, Patched, IpStart, Bytes, Transmitted, IsUdpDatagram;
    BytesOfZero(order);
    var total := HEADER_BYTES + userlen;
    ghost var behind := buf[HEADER_BYTES..];
    ghost var data, tail := buf[HEADER_BYTES..total], buf[total..];
    assert behind[..userlen] == data && behind[userlen..] == tail;
    FillHeader(buf, userlen, e);
    ghost var sum: Word := 0;
    if !zerosum {
      HeaderFront(e, userlen, [0, 0], behind);
      assert buf[..total] == buf[..][..total];
      var c := InCksum(order, buf, total);
      c := Transmitted(c);
      HeaderSum(e, userlen, [0, 0], Bytes(order, c), behind);
      Put(buf, SUM_OFFSET, Bytes(order, c));
      sum := c;
    }
    HeaderFront(e, userlen, Bytes(order, sum), behind);
    assert |buf[..]| == buf.Length;
    ghost var s := buf[..];
    PatchedFront(s, IpStart(total));
    Put(buf, 0, IpStart(total));
    FrontAndRest(s, IpStart(total), total);
    assert buf[..total] == buf[..][..total] && buf[total..] == buf[..][total..];
    DatagramFields(e, data, Bytes(order, sum));
  }

  /** What is sent: the headers, of which the first nine bytes are those of IP, and the data. */
  function Datagram(e: Endpoints, data: seq<Byte>, sum: seq<Byte>): seq<Byte>
    requires |sum| == 2
  {
    CoveredSize(e, data, sum);
    IpStart(HEADER_BYTES + |data|) + Covered(e, data, sum)[9..]
  }

  /** The fields of a datagram by their offsets: the IP header without options, the two addresses, the UDP
      ports, its length and checksum, and the data. The two bytes at 10 still hold the UDP length, where
      the kernel puts the checksum of the IP header. */
  ghost predicate IsUdpDatagram(d: seq<Byte>, e: Endpoints, data: seq<Byte>, sum: seq<Byte>) {
    var n := |data|;
    && |d| == 28 + n
    && d[0] == 0x45 && d[1] == 0
    && d[2] == (28 + n) / 256 % 256 && d[3] == (28 + n) % 256
    && d[4] == d[5] == d[6] == d[7] == 0
    && d[8] == 64 && d[9] == 17
    && d[10] == (8 + n) / 256 % 256 && d[11] == (8 + n) % 256
    && d[12..16] == e.src && d[16..20] == e.dst
    && d[20..22] == e.sport && d[22..24] == e.dport
    && d[24] == (8 + n) / 256 % 256 && d[25] == (8 + n) % 256
    && d[26..28] == sum && d[28..] == data
  }

  lemma Quotient(n: nat, q: nat, r: nat)
    requires n == 256 * q + r && r < 256
    ensures n / 256 == q && n % 256 == r
  {
  }

  lemma HtonsBytes(n: nat)
    ensures Htons(n)[0] == n / 256 % 256 && Htons(n)[1] == n % 256
  {
    var q, r := n / 0x1_0000, n % 0x1_0000;
    var hi, lo := r / 256, r % 256;
    assert n == 256 * (256 * q + hi) + lo && 0 <= lo < 256 && 0 <= hi < 256;
    Quotient(n, 256 * q + hi, lo);
    Quotient(256 * q + hi, q, hi);
  }

  lemma {:induction false} DatagramFields(e: Endpoints, data: seq<Byte>, sum: seq<Byte>)
    requires |sum| == 2
    ensures IsUdpDatagram(Datagram(e, data, sum), e, data, sum)
  {
    var n := |data|;
    HtonsBytes(28 + n);
    HtonsBytes(8 + n);
    CoveredSize(e, data, sum);
    CoveredFields(e, data, sum);
    hide Htons, Covered, Header;
    var d, c := Datagram(e, data, sum), Covered(e, data, sum);
    assert d == IpStart(28 + n) + c[9..];
    assert forall i :: 9 <= i < |c| ==> d[i] == c[i];
    assert forall i, j :: 9 <= i <= j <= |c| ==> d[i..j] == c[i..j];
    assert d[28..] == d[28..|c|] && c[28..] == c[28..|c|];
  }

  /** The fields from offset 9 on, which the checksum covers too. */
  lemma {:induction false} CoveredFields(e: Endpoints, data: seq<Byte>, sum: seq<Byte>)
    requires |sum| == 2
    ensures var c, length := Covered(e, data, sum), Htons(8 + |data|);
            && |c| == 28 + |data| && c[9] == 17 && c[10] == length[0] && c[11] == length[1]
            && c[12..16] == e.src && c[16..20] == e.dst && c[20..22] == e.sport && c[22..24] == e.dport
            && c[24] == length[0] && c[25] == length[1] && c[26..28] == sum && c[28..] == data
  {
  }

  lemma {:induction false} CoveredSize(e: Endpoints, data: seq<Byte>, sum: seq<Byte>)
    requires |sum| == 2
    ensures |Header(e, |data|, sum)| == HEADER_BYTES && |Covered(e, data, sum)| == HEADER_BYTES + |data|
  {
  }

  lemma {:induction false} HeaderFront(e: Endpoints, userlen: nat, sum: seq<Byte>, behind: seq<Byte>)
    requires |sum| == 2 && userlen <= |behind|
    ensures |Header(e, userlen, sum)| == HEADER_BYTES
    ensures var s := Header(e, userlen, sum) + behind;
            s[..HEADER_BYTES + userlen] == Covered(e, behind[..userlen], sum) && s[HEADER_BYTES + userlen..] == behind[userlen..]
  {
  }

  lemma {:induction false} HeaderSum(e: Endpoints, userlen: nat, x: seq<Byte>, b: seq<Byte>, behind: seq<Byte>)
    requires |x| == |b| == 2
    ensures |Header(e, userlen, x) + behind| == HEADER_BYTES + |behind|
    ensures Patched(Header(e, userlen, x) + behind, SUM_OFFSET, b) == Header(e, userlen, b) + behind
  {
    var length := Htons(8 + userlen);
    var a := Repeated<Byte>(0, 9) + [PROTOCOL_UDP] + length + e.src + e.dst + e.sport + e.dport + length;
    assert Header(e, userlen, x) + behind == a + x + behind && Header(e, userlen, b) + behind == a + b + behind;
    PatchedAt(a, x, behind, b);
  }

  lemma {:induction false} FrontAndRest(s: seq<Byte>, ip: seq<Byte>, total: nat)
    requires |ip| == 9 <= total <= |s|
    ensures (ip + s[9..])[..total] == ip + s[..total][9..] && (ip + s[9..])[total..] == s[total..]
  {
  }

  lemma {:induction false} PatchedFront(s: seq<Byte>, b: seq<Byte>)
    requires |b| <= |s|
    ensures Patched(s, 0, b) == b + s[|b|..]
  {
  }

  /** What the receiver's UDP checks: the datagram with the first nine bytes of the IP header zeroed. */
  function Checked(datagram: seq<Byte>): seq<Byte>
    requires |datagram| >= 9
  {
    Repeated<Byte>(0, 9) + datagram[9..]
  }

  lemma {:induction false} StoredIsPatched(order: Order, s: seq<Byte>, k: nat, w: Word)
    requires k + 2 <= |s|
    ensures Stored(order, s, k, w) == Patched(s, k, Bytes(order, w))
  {
  }

  /** A machine of either byte order accepts what a machine of either byte order filled in; the field
      is zero, which means no checksum, exactly when the sender asked for that. */
  lemma {:induction false} DatagramAccepted(sender: Order, receiver: Order, e: Endpoints, data: seq<Byte>,
                                            zerosum: bool)
    requires HEADER_BYTES + |data| <= MAX_BYTES
    ensures var field := Bytes(sender, SumToSend(sender, Covered(e, data, [0, 0]), zerosum));
            && (field == [0, 0] <==> zerosum)
            && |Datagram(e, data, field)| == HEADER_BYTES + |data|
            && (!zerosum ==> Checksum(receiver, Checked(Datagram(e, data, field))) == 0)
  {
    var zero: seq<Byte> := [0, 0];
    var s := Covered(e, data, zero);
    var sum := SumToSend(sender, s, zerosum);
    var field := Bytes(sender, sum);
    CoveredSize(e, data, zero);
    CoveredSize(e, data, field);
    FieldIsZero(sender, sum);
    if !zerosum {
      var c := Covered(e, data, field);
      CheckedIs(e, data, field);
      HeaderSum(e, |data|, zero, field, data);
      HeaderSum(e, |data|, zero, zero, data);
      StoredIsPatched(sender, s, SUM_OFFSET, sum);
      StoredIsPatched(sender, s, SUM_OFFSET, 0);
      hide Covered, Checked, IpStart, Datagram, Header;
      FoldedIsChecksum(sender, s);
      StoredChecksumAccepted(sender, s, SUM_OFFSET);
      assert Stored(sender, s, SUM_OFFSET, 0) == s by {
        BytesOfZero(sender);
      }
      ByteOrderIndependent(c);
      SwappedZero(Checksum(Little, c));
    }
  }

  lemma {:induction false} BytesOfZero(order: Order)
    ensures Bytes(order, 0) == [0, 0]
  {
  }

  lemma {:induction false} FieldIsZero(order: Order, w: Word)
    ensures Bytes(order, w) == [0, 0] <==> w == 0
  {
    assert w == 0x100 * (w / 0x100) + w % 0x100;
  }

  lemma {:induction false} SwappedZero(w: Word)
    ensures Swapped(w) == 0 <==> w == 0
  {
  }

  lemma {:induction false} CheckedIs(e: Endpoints, data: seq<Byte>, field: seq<Byte>)
    requires |field| == 2
    ensures |Datagram(e, data, field)| >= 9 && Checked(Datagram(e, data, field)) == Covered(e, data, field)
  {
    var c := Covered(e, data, field);
    CoveredSize(e, data, field);
    assert c[..9] == Repeated<Byte>(0, 9);
    assert Datagram(e, data, field)[9..] == c[9..];
    assert c == c[..9] + c[9..];
  }
}
