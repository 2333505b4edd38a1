/** The checksums that src/ip-util.c stores into IPv4 packets: `tcp_checksum`, `udp_checksum`,
    `icmp_checksum` and `ip_checksum`. A packet starts at offset `ip` of a buffer. */
module IpCksum {
  import opened ByteOrder
  import opened Cksum
  import opened Crc32c
  import opened Dnet
  import opened Memory

  // ---- stores ----

  function StoreWord(b: seq<byte>, off: nat, w: nat, bigEndian: bool): (r: seq<byte>)
    requires off + 2 <= |b| && w < 65536
    ensures |r| == |b|
  {
    Splice(b, off, HostBytes(w, bigEndian))
  }

  method PutWord(buf: array<byte>, off: nat, w: nat, bigEndian: bool)
    requires off + 2 <= buf.Length && w < 65536
    modifies buf
    ensures buf[..] == StoreWord(old(buf[..]), off, w, bigEndian)
  {
    Memcpy(buf, off, HostBytes(w, bigEndian));
  }

  // ---- what each checksum stores ----

  /** The accumulator of TCP and UDP: the segment, the protocol plus the length, the addresses. */
  function TransportSum(b: seq<byte>, ip: nat, off: nat, len: nat, extra: nat, bigEndian: bool): int32
    requires ip + 20 <= |b| && off + Reach(len) <= |b|
  {
    CksumAdd(b, ip + 12, 8, Int32(CksumAdd(b, off, len, 0, bigEndian) + extra), bigEndian)
  }

  function TcpSummed(b: seq<byte>, ip: nat, tcp: nat, len: nat, bigEndian: bool): (r: seq<byte>)
    requires ip + 20 <= |b| && tcp + len <= |b| && TCP_HDR_LEN <= len <= INT_MAX
    ensures |r| == |b|
  {
    var z := StoreWord(b, tcp + 16, 0, bigEndian);
    var sum := TransportSum(z, ip, tcp, len, Htonl(z[ip + 9] + len, bigEndian), bigEndian);
    StoreWord(z, tcp + 16, Carry(sum), bigEndian)
  }

  /** A checksum of 0 is sent as 0xffff (RFC 768). */
  function NonZero(c: nat): nat {
    if c == 0 then 0xffff else c
  }

  function UdpSummed(b: seq<byte>, ip: nat, udp: nat, len: nat, bigEndian: bool): (r: seq<byte>)
    requires ip + 20 <= |b| && udp + len <= |b| && UDP_HDR_LEN <= len <= INT_MAX
    ensures |r| == |b|
  {
    var z := StoreWord(b, udp + 6, 0, bigEndian);
    var sum := TransportSum(z, ip, udp, len, Htonl(IP_PROTO_UDP + len, bigEndian), bigEndian);
    StoreWord(z, udp + 6, NonZero(Carry(sum)), bigEndian)
  }

  /** The field is not cleared first. */
  function IcmpSummed(b: seq<byte>, icmp: nat, len: nat, bigEndian: bool): (r: seq<byte>)
    requires icmp + len <= |b| && ICMP_HDR_LEN <= len
    ensures |r| == |b|
  {
    StoreWord(b, icmp + 2, Carry(CksumAdd(b, icmp, len, 0, bigEndian)), bigEndian)
  }

  function SctpSummed(b: seq<byte>, sctp: nat, len: nat): (r: seq<byte>)
    requires sctp + len <= |b| && SCTP_HDR_LEN <= len
    ensures |r| == |b|
  {
    var z := Splice(b, sctp + 8, [0, 0, 0, 0]);
    Splice(z, sctp + 8, NetBytes(Castagnoli(z[sctp..sctp + len])))
  }

  function HeaderSummed(b: seq<byte>, ip: nat, hl: nat, bigEndian: bool): (r: seq<byte>)
    requires ip + IP_HDR_LEN <= |b| && ip + Reach(hl) <= |b|
    ensures |r| == |b|
  {
    var z := StoreWord(b, ip + 10, 0, bigEndian);
    StoreWord(z, ip + 10, Carry(CksumAdd(z, ip, hl, 0, bigEndian)), bigEndian)
  }

  // ---- the functions that store them ----

  method TcpChecksum(buf: array<byte>, ip: nat, tcp: nat, len: nat, bigEndian: bool)
    requires ip + 20 <= buf.Length && tcp + len <= buf.Length && TCP_HDR_LEN <= len <= INT_MAX
    modifies buf
    ensures buf[..] == TcpSummed(old(buf[..]), ip, tcp, len, bigEndian)
  {
    hide StoreWord, Htonl, Carry, CksumAdd, Int32;
    PutWord(buf, tcp + 16, 0, bigEndian);
    var sum := IpCksumAdd(buf, tcp, len, 0, bigEndian);
    sum := Int32(sum + Htonl(buf[ip + 9] as nat + len, bigEndian));
    sum := IpCksumAdd(buf, ip + 12, 8, sum, bigEndian);
    PutWord(buf, tcp + 16, Carry(sum), bigEndian);
  }

  method UdpChecksum(buf: array<byte>, ip: nat, udp: nat, len: nat, bigEndian: bool)
    requires ip + 20 <= buf.Length && udp + len <= buf.Length && UDP_HDR_LEN <= len <= INT_MAX
    modifies buf
    ensures buf[..] == UdpSummed(old(buf[..]), ip, udp, len, bigEndian)
  {
    hide StoreWord, Htonl, Carry, CksumAdd, Int32;
    PutWord(buf, udp + 6, 0, bigEndian);
    var sum := IpCksumAdd(buf, udp, len, 0, bigEndian);
    sum := Int32(sum + Htonl(IP_PROTO_UDP + len, bigEndian));
    sum := IpCksumAdd(buf, ip + 12, 8, sum, bigEndian);
    var c := Carry(sum);
    if c == 0 { c := 0xffff; }
    PutWord(buf, udp + 6, c, bigEndian);
  }

  method IcmpChecksum(buf: array<byte>, icmp: nat, len: nat, bigEndian: bool)
    requires icmp + len <= buf.Length && ICMP_HDR_LEN <= len
    modifies buf
    ensures buf[..] == IcmpSummed(old(buf[..]), icmp, len, bigEndian)
  {
    hide StoreWord, Carry, CksumAdd;
    var sum := IpCksumAdd(buf, icmp, len, 0, bigEndian);
    PutWord(buf, icmp + 2, Carry(sum), bigEndian);
  }

  /** The SCTP branch of `ip_checksum` */
  method SctpChecksum(buf: array<byte>, sctp: nat, len: nat)
    requires sctp + len <= buf.Length && SCTP_HDR_LEN <= len
    modifies buf
    ensures buf[..] == SctpSummed(old(buf[..]), sctp, len)
  {
    hide Castagnoli, NetBytes, Splice;
    Memcpy(buf, sctp + 8, [0, 0, 0, 0]);
    var crc := Crc32c.Crc32c(buf, sctp, len);
    assert buf[..][sctp..sctp + len] == buf[sctp..sctp + len];
    Memcpy(buf, sctp + 8, NetBytes(crc));
  }

  method HeaderChecksum(buf: array<byte>, ip: nat, hl: nat, bigEndian: bool)
    requires ip + IP_HDR_LEN <= buf.Length && ip + Reach(hl) <= buf.Length
    modifies buf
    ensures buf[..] == HeaderSummed(old(buf[..]), ip, hl, bigEndian)
  {
    hide StoreWord, Carry, CksumAdd;
    PutWord(buf, ip + 10, 0, bigEndian);
    var sum := IpCksumAdd(buf, ip, hl, 0, bigEndian);
    PutWord(buf, ip + 10, Carry(sum), bigEndian);
  }

  // ---- ip_checksum ----

  /** `ip_off` as a number. */
  function OffsetField(b: seq<byte>, ip: nat): (off: nat)
    requires ip + 8 <= |b|
    ensures off < 65536
  {
    HostWord(b[ip + 6], b[ip + 7], true)
  }

  /** Neither `IP_OFFMASK` nor `IP_MF` bits: the packet is not a fragment. */
  predicate Whole(off: nat) {
    off % 0x2000 == 0 && off / 0x2000 % 2 == 0
  }

  /** The don't-fragment bit, which is the second highest of the word, plays no part. */
  lemma {:induction false} WholeIff(b: seq<byte>, ip: nat)
    requires ip + 8 <= |b|
    ensures Whole(OffsetField(b, ip)) <==> Unfragmented(b, ip)
  {}

  /** In terms of the bytes: more-fragments bit and offset are 0. */
  predicate Unfragmented(b: seq<byte>, ip: nat)
    requires ip + 8 <= |b|
  {
    b[ip + 6] % 64 == 0 && b[ip + 7] == 0
  }

  /** The protocols that have a checksum here. */
  predicate HasChecksum(p: byte) {
    p == IP_PROTO_TCP || p == IP_PROTO_UDP || p == IP_PROTO_ICMP || p == IP_PROTO_IGMP || p == IP_PROTO_SCTP
  }

  /** `len`, the length that is left, is looked at only where there is a checksum. */
  predicate SegmentInside(b: seq<byte>, ip: nat, off: nat, len: int) {
    ip + IP_HDR_LEN <= |b| && (HasChecksum(b[ip + 9]) ==> 0 <= len <= INT_MAX && off + len <= |b|)
  }

  function TransportSummed(b: seq<byte>, ip: nat, off: nat, len: int, bigEndian: bool): (r: seq<byte>)
    requires SegmentInside(b, ip, off, len)
    ensures |r| == |b|
  {
    var p := b[ip + 9];
    if p == IP_PROTO_TCP then
      if len >= TCP_HDR_LEN then TcpSummed(b, ip, off, len, bigEndian) else b
    else if p == IP_PROTO_UDP then
      if len >= UDP_HDR_LEN then UdpSummed(b, ip, off, len, bigEndian) else b
    else if p == IP_PROTO_ICMP || p == IP_PROTO_IGMP then
      if len >= ICMP_HDR_LEN then IcmpSummed(b, off, len, bigEndian) else b
    else if p == IP_PROTO_SCTP then
      if len >= SCTP_HDR_LEN then SctpSummed(b, off, len) else b
    else b
  }

  /** What `ip_checksum` may be called on: the header lies in memory, and so does what it says is
      behind it if that is looked at. */
  predicate Summable(b: seq<byte>, ip: nat, len: nat, flags: int) {
    len >= IP_HDR_LEN ==>
      && ip + IP_HDR_LEN <= |b| && ip + Reach(HeaderLen(b, ip)) <= |b|
      && (HeaderOnly(b, ip, flags) || SegmentInside(b, ip, ip + HeaderLen(b, ip), len - HeaderLen(b, ip)))
  }

  /** `ip_checksum` returns once the header is done: by the flag, or because of a fragment. */
  predicate HeaderOnly(b: seq<byte>, ip: nat, flags: int)
    requires ip + 8 <= |b|
  {
    FragmentOnly(flags) || !Whole(OffsetField(b, ip))
  }

  /** `flags & IP_CHECKSUM_FRAGMENT` */
  predicate FragmentOnly(flags: int) {
    flags / IP_CHECKSUM_FRAGMENT % 2 == 1
  }

  function IpSummed(b: seq<byte>, ip: nat, len: nat, flags: int, bigEndian: bool): (r: seq<byte>)
    requires Summable(b, ip, len, flags)
    ensures |r| == |b|
  {
    if len < IP_HDR_LEN then b
    else
      var hl := HeaderLen(b, ip);
      var h := HeaderSummed(b, ip, hl, bigEndian);
      HeaderFieldsKept(b, ip, hl, bigEndian);
      if HeaderOnly(h, ip, flags) then h
      else TransportSummed(h, ip, ip + hl, len - hl, bigEndian)
  }

  method TransportChecksum(buf: array<byte>, ip: nat, off: nat, len: int, bigEndian: bool)
    requires SegmentInside(buf[..], ip, off, len)
    modifies buf
    ensures buf[..] == TransportSummed(old(buf[..]), ip, off, len, bigEndian)
  {
    hide TcpSummed, UdpSummed, IcmpSummed, SctpSummed;
    var p := buf[ip + 9];
    if p == IP_PROTO_TCP {
      if len >= TCP_HDR_LEN { TcpChecksum(buf, ip, off, len, bigEndian); }
    } else if p == IP_PROTO_UDP {
      if len >= UDP_HDR_LEN { UdpChecksum(buf, ip, off, len, bigEndian); }
    } else if p == IP_PROTO_ICMP || p == IP_PROTO_IGMP {
      if len >= ICMP_HDR_LEN { IcmpChecksum(buf, off, len, bigEndian); }
    } else if p == IP_PROTO_SCTP {
      if len >= SCTP_HDR_LEN { SctpChecksum(buf, off, len); }
    }
  }

  /** `off = htons(ip->ip_off)` and the test for a fragment */
  method IsWhole(buf: array<byte>, ip: nat, bigEndian: bool) returns (whole: bool)
    requires ip + 8 <= buf.Length
    ensures whole == Whole(OffsetField(buf[..], ip))
  {
    var off := Htons(HostWord(buf[ip + 6], buf[ip + 7], bigEndian), bigEndian);
    OffsetIsNetworkOrder(buf[ip + 6], buf[ip + 7], bigEndian);
    return !(off % 0x2000 != 0 || off / 0x2000 % 2 != 0);
  }

  lemma {:induction false} OffsetIsNetworkOrder(a: byte, b: byte, bigEndian: bool)
    ensures Htons(HostWord(a, b, bigEndian), bigEndian) == HostWord(a, b, true)
  {}

  method IpChecksum(buf: array<byte>, ip: nat, len: nat, flags: int, bigEndian: bool)
    requires Summable(buf[..], ip, len, flags)
    modifies buf
    ensures buf[..] == IpSummed(old(buf[..]), ip, len, flags, bigEndian)
  {
    hide HeaderSummed, TransportSummed, Whole, OffsetField, Reach;
    if len < IP_HDR_LEN { return; }
    var hl := 4 * (buf[ip] as nat % 16);
    assert hl == HeaderLen(buf[..], ip);
    HeaderFieldsKept(buf[..], ip, hl, bigEndian);
    HeaderChecksum(buf, ip, hl, bigEndian);
    if FragmentOnly(flags) { return; }
    var whole := IsWhole(buf, ip, bigEndian);
    if !whole { return; }
    TransportChecksum(buf, ip, ip + hl, len - hl, bigEndian);
  }

  // ---- what a receiver finds ----

  /** The pseudo-header of RFC 793 and RFC 768: addresses, protocol and length. */
  function Pseudo(addresses: seq<byte>, p: byte, len: nat): seq<byte>
    requires len <= 65535
  {
    addresses + ([0, p] + [len / 256, len % 256])
  }

  lemma {:induction false} HtonlScales(v: nat, bigEndian: bool)
    requires v < 0x100_0000
    ensures (Htonl(v, bigEndian) - (if bigEndian then v else 256 * v)) % 65535 == 0
  {
    if !bigEndian {
      var a, b, c := v / 0x1_0000, v / 256 % 256, v % 256;
      assert v == 0x1_0000 * a + 256 * b + c && v / 0x1_0000 % 256 == a && v / 0x100_0000 == 0;
      assert Htonl(v, false) - 256 * v == 65535 * (256 * (c - a));
      Multiple(256 * (c - a));
    }
  }

  lemma {:induction false} LengthWords(p: byte, len: nat, bigEndian: bool)
    requires len <= 65535
    ensures var w := HostWord(0, p, bigEndian) + HostWord(len / 256, len % 256, bigEndian);
            (w - (if bigEndian then p + len else 256 * (p + len))) % 65535 == 0 && (p > 0 ==> w > 0)
  {
    if !bigEndian {
      var h, l := len / 256, len % 256;
      assert 256 * p as int + h + 256 * l - 256 * (p + len) == 65535 * -h;
      Multiple(-h);
    }
  }

  lemma {:induction false} PseudoSum(addresses: seq<byte>, p: byte, len: nat, bigEndian: bool)
    requires |addresses| % 2 == 0 && len <= 65535
    ensures WordSum(Pseudo(addresses, p, len), bigEndian)
         == WordSum(addresses, bigEndian) + HostWord(0, p, bigEndian) + HostWord(len / 256, len % 256, bigEndian)
  {
    hide HostWord, WordSum;
    var a: seq<byte>, b: seq<byte> := [0, p], [len / 256, len % 256];
    SumOfParts(addresses, a + b, bigEndian);
    SumOfParts(a, b, bigEndian);
    SumOfWord(a, bigEndian);
    SumOfWord(b, bigEndian);
  }

  /** The words of protocol and length differ from the value the code adds by a multiple of 65535. */
  lemma {:induction false} SameResidue(p: byte, len: nat, bigEndian: bool)
    requires len <= 65535
    ensures (HostWord(0, p, bigEndian) + HostWord(len / 256, len % 256, bigEndian) - Htonl(p + len, bigEndian)) % 65535 == 0
  {
    hide HostWord, Htonl;
    LengthWords(p, len, bigEndian);
    HtonlScales(p + len, bigEndian);
    Difference(HostWord(0, p, bigEndian) + HostWord(len / 256, len % 256, bigEndian), Htonl(p + len, bigEndian),
               if bigEndian then p + len else 256 * (p + len));
  }

  lemma {:induction false} Difference(a: int, b: int, c: int)
    requires (a - c) % 65535 == 0 && (b - c) % 65535 == 0
    ensures (a - b) % 65535 == 0
  {
    var i, j := (a - c) / 65535, (b - c) / 65535;
    assert a - b == 65535 * (i - j);
    Multiple(i - j);
  }

  /** A segment with its checksum field cleared, the checksum `c` made from `total`, and a
      pseudo-header: the receiver's sum folds to 0 exactly when `total` fits an `int` and differs
      from the true sum by nothing but multiples of 65535. */
  lemma {:induction false} StoredVerifiesIff(pseudo: seq<byte>, seg: seq<byte>, k: nat, c: nat, total: nat, d: nat,
                                             bigEndian: bool)
    requires |pseudo| % 2 == 0 && |pseudo| <= 40 && |seg| <= 65535
    requires k % 2 == 0 && k + 2 <= |seg| && seg[k] == 0 && seg[k + 1] == 0
    requires total < 0x1_8010_0000 && d <= 256 && WordSum(pseudo, bigEndian) > 0
    requires (WordSum(pseudo, bigEndian) + WordSum(seg, bigEndian) - total - d) % 65535 == 0
    requires c < 65536 && (c == Carry(Int32(total)) || c == NonZero(Carry(Int32(total))))
    ensures Verifies(pseudo + Splice(seg, k, HostBytes(c, bigEndian)), bigEndian) <==> total <= INT_MAX && d == 0
  {
    hide WordSum, Carry, Int32;
    var d2 := HostBytes(c, bigEndian);
    var stored := Splice(seg, k, d2);
    SumOfParts(pseudo, stored, bigEndian);
    StoreChangesSum(seg, k, d2, bigEndian);
    SumBound(pseudo, bigEndian);
    SumBound(stored, bigEndian);
    var r := WordSum(pseudo + stored, bigEndian);
    assert r == WordSum(pseudo, bigEndian) + WordSum(seg, bigEndian) + c;
    FoldsToZeroIff(total, c, r, d);
  }

  /** The true value of the accumulator of TCP and UDP. */
  function Total(z: seq<byte>, ip: nat, off: nat, len: nat, extra: nat, bigEndian: bool): nat
    requires ip + 20 <= |z| && off + len <= |z|
  {
    WordSum(z[off..off + len], bigEndian) + extra + WordSum(z[ip + 12..ip + 20], bigEndian)
  }

  lemma {:induction false} TransportSumIsTotal(z: seq<byte>, ip: nat, off: nat, len: nat, extra: nat, bigEndian: bool)
    requires ip + 20 <= |z| && off + len <= |z| && len >= 2
    ensures TransportSum(z, ip, off, len, extra, bigEndian) == Int32(Total(z, ip, off, len, extra, bigEndian))
  {
    hide Int32, WordSum;
    var a, b := WordSum(z[off..off + len], bigEndian), WordSum(z[ip + 12..ip + 20], bigEndian);
    Int32Adds(0 + a, extra);
    Int32Adds(a + extra, b);
  }

  lemma {:induction false} TotalBound(z: seq<byte>, ip: nat, off: nat, len: nat, extra: nat, bigEndian: bool)
    requires ip + 20 <= |z| && off + len <= |z| && len <= 65535 && extra < 0x1_0000_0000
    ensures Total(z, ip, off, len, extra, bigEndian) < 0x1_8010_0000
  {
    hide WordSum;
    SumBound(z[off..off + len], bigEndian);
    SumBound(z[ip + 12..ip + 20], bigEndian);
  }

  /** A receiver's check of the segment at `off` with its pseudo-header. */
  predicate Accepted(r: seq<byte>, ip: nat, off: nat, len: nat, p: byte, bigEndian: bool)
    requires ip + 20 <= |r| && off + len <= |r| && len <= 65535
  {
    Verifies(Pseudo(r[ip + 12..ip + 20], p, len) + r[off..off + len], bigEndian)
  }

  /** Storing `Carry(Int32(total))` in a cleared field of a segment, for either protocol. */
  lemma {:induction false} TransportVerifiesIff(z: seq<byte>, ip: nat, off: nat, len: nat, k: nat, p: byte, c: nat,
                                                bigEndian: bool)
    requires ip + 20 <= off && off + len <= |z| && len <= 65535 && p > 0
    requires k % 2 == 0 && k + 2 <= len && z[off + k] == 0 && z[off + k + 1] == 0
    requires var total := Total(z, ip, off, len, Htonl(p + len, bigEndian), bigEndian);
             c < 65536 && (c == Carry(Int32(total)) || c == NonZero(Carry(Int32(total))))
    ensures Accepted(StoreWord(z, off + k, c, bigEndian), ip, off, len, p, bigEndian)
       <==> Total(z, ip, off, len, Htonl(p + len, bigEndian), bigEndian) <= INT_MAX
  {
    hide Carry, Int32, WordSum, Verifies, Htonl, HostWord, Pseudo, Splice, HostBytes, NonZero;
    var seg, a := z[off..off + len], z[ip + 12..ip + 20];
    var extra := Htonl(p + len, bigEndian);
    SpliceInside(z, off + k, HostBytes(c, bigEndian), off, off + len);
    SpliceOutside(z, off + k, HostBytes(c, bigEndian), ip + 12, ip + 20);
    PseudoSum(a, p, len, bigEndian);
    LengthWords(p, len, bigEndian);
    SameResidue(p, len, bigEndian);
    TotalBound(z, ip, off, len, extra, bigEndian);
    PseudoLength(a, p, len);
    StoredVerifiesIff(Pseudo(a, p, len), seg, k, c, Total(z, ip, off, len, extra, bigEndian), 0, bigEndian);
  }

  lemma {:induction false} PseudoLength(a: seq<byte>, p: byte, len: nat)
    requires len <= 65535
    ensures |Pseudo(a, p, len)| == |a| + 4
  {}

  /** `tcp_checksum` leaves a segment that verifies exactly when no partial sum leaves the range of
      an `int`. */
  lemma {:induction false} TcpVerifiesIff(b: seq<byte>, ip: nat, tcp: nat, len: nat, bigEndian: bool)
    requires ip + 20 <= tcp && tcp + len <= |b| && TCP_HDR_LEN <= len <= 65535 && b[ip + 9] == IP_PROTO_TCP
    ensures Accepted(TcpSummed(b, ip, tcp, len, bigEndian), ip, tcp, len, IP_PROTO_TCP, bigEndian)
       <==> Total(StoreWord(b, tcp + 16, 0, bigEndian), ip, tcp, len, Htonl(IP_PROTO_TCP + len, bigEndian), bigEndian)
            <= INT_MAX
  {
    hide Carry, Int32, Htonl, HostBytes, Accepted, Total, TransportSum, CksumAdd, NonZero, Splice;
    var z := StoreWord(b, tcp + 16, 0, bigEndian);
    var extra := Htonl(IP_PROTO_TCP + len, bigEndian);
    SpliceOutside(b, tcp + 16, HostBytes(0, bigEndian), ip + 9, ip + 10);
    assert z[ip + 9] == z[ip + 9..ip + 10][0] == b[ip + 9..ip + 10][0];
    TransportSumIsTotal(z, ip, tcp, len, extra, bigEndian);
    ClearedField(b, tcp + 16, bigEndian);
    var c := Carry(TransportSum(z, ip, tcp, len, extra, bigEndian));
    TransportVerifiesIff(z, ip, tcp, len, 16, IP_PROTO_TCP, c, bigEndian);
  }

  lemma {:induction false} ClearedField(b: seq<byte>, off: nat, bigEndian: bool)
    requires off + 2 <= |b|
    ensures var z := StoreWord(b, off, 0, bigEndian); z[off] == 0 && z[off + 1] == 0
  {}

  lemma {:induction false} UdpVerifiesIff(b: seq<byte>, ip: nat, udp: nat, len: nat, bigEndian: bool)
    requires ip + 20 <= udp && udp + len <= |b| && UDP_HDR_LEN <= len <= 65535
    ensures Accepted(UdpSummed(b, ip, udp, len, bigEndian), ip, udp, len, IP_PROTO_UDP, bigEndian)
       <==> Total(StoreWord(b, udp + 6, 0, bigEndian), ip, udp, len, Htonl(IP_PROTO_UDP + len, bigEndian), bigEndian)
            <= INT_MAX
    ensures var r := UdpSummed(b, ip, udp, len, bigEndian); r[udp + 6] != 0 || r[udp + 7] != 0
  {
    hide Carry, Int32, WordSum, Verifies, Htonl, HostWord, HostBytes, Pseudo, Accepted, Total, TransportSum,
         CksumAdd, Splice;
    var z := StoreWord(b, udp + 6, 0, bigEndian);
    var extra := Htonl(IP_PROTO_UDP + len, bigEndian);
    TransportSumIsTotal(z, ip, udp, len, extra, bigEndian);
    ClearedField(b, udp + 6, bigEndian);
    var c := NonZero(Carry(TransportSum(z, ip, udp, len, extra, bigEndian)));
    StoredIsThere(z, udp + 6, c, bigEndian);
    TransportVerifiesIff(z, ip, udp, len, 6, IP_PROTO_UDP, c, bigEndian);
  }

  lemma {:induction false} StoredIsThere(b: seq<byte>, off: nat, c: nat, bigEndian: bool)
    requires off + 2 <= |b| && 0 < c < 65536
    ensures var r := StoreWord(b, off, c, bigEndian); r[off] != 0 || r[off + 1] != 0
  {}

  /** On a little-endian host the byte order of the length decides: no segment whose protocol plus
      length has a low byte of 128 or more verifies, and every segment of at most 1500 bytes with a
      low byte of up to 123 does. */
  lemma {:induction false} LowLengthByteDecides(b: seq<byte>, ip: nat, off: nat, len: nat, p: byte)
    requires ip + 20 <= off && off + len <= |b| && len <= 65535
    requires (p == IP_PROTO_TCP && TCP_HDR_LEN <= len && b[ip + 9] == p) || (p == IP_PROTO_UDP && UDP_HDR_LEN <= len)
    ensures var r := if p == IP_PROTO_TCP then TcpSummed(b, ip, off, len, false) else UdpSummed(b, ip, off, len, false);
            ((p + len) % 256 >= 128 ==> !Accepted(r, ip, off, len, p, false))
            && ((p + len) % 256 <= 123 && len <= 1500 ==> Accepted(r, ip, off, len, p, false))
  {
    hide TcpSummed, UdpSummed, Accepted, Total, Htonl, StoreWord;
    if p == IP_PROTO_TCP {
      LowLengthByteBounds(StoreWord(b, off + 16, 0, false), ip, off, len, p);
      TcpVerifiesIff(b, ip, off, len, false);
    } else {
      LowLengthByteBounds(StoreWord(b, off + 6, 0, false), ip, off, len, p);
      UdpVerifiesIff(b, ip, off, len, false);
    }
  }

  lemma {:induction false} LowLengthByteBounds(z: seq<byte>, ip: nat, off: nat, len: nat, p: byte)
    requires ip + 20 <= |z| && off + len <= |z| && len <= 65535
    ensures var total := Total(z, ip, off, len, Htonl(p + len, false), false);
            ((p + len) % 256 >= 128 ==> total > INT_MAX)
            && ((p + len) % 256 <= 123 && len <= 1500 ==> total <= INT_MAX)
  {
    hide WordSum;
    SumBound(z[off..off + len], false);
    SumBound(z[ip + 12..ip + 20], false);
    assert Htonl(p + len, false) >= (p + len) % 256 * 0x100_0000;
    assert Htonl(p + len, false) < ((p + len) % 256 + 1) * 0x100_0000;
  }

  /** `icmp_checksum` leaves a message that verifies exactly when its field was 0 before, or was
      0xffff and some other word was not 0. */
  lemma {:induction false} IcmpVerifiesIff(b: seq<byte>, icmp: nat, len: nat, bigEndian: bool)
    requires icmp + len <= |b| && ICMP_HDR_LEN <= len <= 65535
    ensures Verifies(IcmpSummed(b, icmp, len, bigEndian)[icmp..icmp + len], bigEndian)
       <==> var w := HostWord(b[icmp + 2], b[icmp + 3], bigEndian);
            w == 0 || (w == 65535 && WordSum(b[icmp..icmp + len], bigEndian) != 65535)
  {
    hide Carry, WordSum, HostWord, Splice, HostBytes;
    var s := b[icmp..icmp + len];
    var sum := WordSum(s, bigEndian);
    PacketSumFits(s, bigEndian);
    Int32OfSum(sum);
    var d := HostBytes(Carry(sum), bigEndian);
    SpliceInside(b, icmp + 2, d, icmp, icmp + len);
    StoreChangesSum(s, 2, d, bigEndian);
    SumBound(Splice(s, 2, d), bigEndian);
    FieldInSum(s, 2, bigEndian);
    CarryNegates(sum);
    CarryEnds(sum);
    CarryEnds(WordSum(Splice(s, 2, d), bigEndian));
    IcmpArithmetic(sum, Carry(sum), s[2], s[3], WordSum(Splice(s, 2, d), bigEndian), bigEndian);
  }

  lemma {:induction false} FieldInSum(s: seq<byte>, k: nat, bigEndian: bool)
    requires k % 2 == 0 && k + 2 <= |s|
    ensures HostWord(s[k], s[k + 1], bigEndian) <= WordSum(s, bigEndian)
  {
    hide WordSum, Splice;
    StoreChangesSum(s, k, [0, 0], bigEndian);
  }

  lemma {:induction false} Int32OfSum(x: nat)
    requires x <= INT_MAX
    ensures Int32(0 + x) == x
  {}

  lemma {:induction false} IcmpArithmetic(sum: nat, c: nat, x: byte, y: byte, r: nat, bigEndian: bool)
    requires r + HostWord(x, y, bigEndian) == sum + c && (c + sum) % 65535 == 0 && c < 65536
    requires (c == 0 <==> sum > 0 && sum % 65535 == 0) && (c == 65535 <==> sum == 0)
    requires HostWord(x, y, bigEndian) <= sum
    ensures r > 0 && r % 65535 == 0
       <==> HostWord(x, y, bigEndian) == 0 || (HostWord(x, y, bigEndian) == 65535 && sum != 65535)
  {
    hide HostWord;
    var i, w := (c + sum) / 65535, HostWord(x, y, bigEndian);
    assert r == 65535 * i - w;
    Multiple(i);
    if w == 65535 { Multiple(i - 1); }
  }

  /** The header verifies exactly when it is long enough to hold the field, or verified before: that
      is to say always, for a header of the length it must have. */
  lemma {:induction false} HeaderVerifies(b: seq<byte>, ip: nat, hl: nat, bigEndian: bool)
    requires hl <= 60 && hl % 4 == 0 && ip + IP_HDR_LEN <= |b| && ip + Reach(hl) <= |b|
    ensures Verifies(HeaderSummed(b, ip, hl, bigEndian)[ip..ip + hl], bigEndian)
       <==> hl >= 12 || Verifies(b[ip..ip + hl], bigEndian)
  {
    hide Verifies, HeaderSummed;
    if hl >= 12 {
      LongHeaderVerifies(b, ip, hl, bigEndian);
    } else {
      HeaderSummedKeeps(b, ip, hl, ip, ip + hl, bigEndian);
    }
  }

  lemma {:induction false} LongHeaderVerifies(b: seq<byte>, ip: nat, hl: nat, bigEndian: bool)
    requires 12 <= hl <= 60 && ip + IP_HDR_LEN <= |b| && ip + hl <= |b|
    ensures Verifies(HeaderSummed(b, ip, hl, bigEndian)[ip..ip + hl], bigEndian)
  {
    hide Carry, WordSum, HostWord, Splice, HostBytes;
    var z := StoreWord(b, ip + 10, 0, bigEndian);
    var s := z[ip..ip + hl];
    var sum := WordSum(s, bigEndian);
    SumBound(s, bigEndian);
    Int32OfSum(sum);
    var d := HostBytes(Carry(sum), bigEndian);
    SpliceInside(z, ip + 10, d, ip, ip + hl);
    ClearedField(b, ip + 10, bigEndian);
    ZeroWord(bigEndian);
    StoreChangesSum(s, 10, d, bigEndian);
    CarryNegates(sum);
    CarryEnds(sum);
    CarryEnds(WordSum(Splice(s, 10, d), bigEndian));
  }

  lemma {:induction false} ZeroWord(bigEndian: bool)
    ensures HostWord(0, 0, bigEndian) == 0
  {}

  /** A receiver that clears the field and computes the CRC again finds the bytes that are there. */
  lemma {:induction false} SctpVerifies(b: seq<byte>, sctp: nat, len: nat)
    requires sctp + len <= |b| && SCTP_HDR_LEN <= len
    ensures var r := SctpSummed(b, sctp, len);
            r[sctp + 8..sctp + 12] == NetBytes(Castagnoli(Splice(r[sctp..sctp + len], 8, [0, 0, 0, 0])))
  {
    hide Castagnoli, NetBytes, Splice;
    var zeros: seq<byte> := [0, 0, 0, 0];
    var z := Splice(b, sctp + 8, zeros);
    var crc := NetBytes(Castagnoli(z[sctp..sctp + len]));
    SpliceInside(z, sctp + 8, crc, sctp, sctp + len);
    SpliceInside(b, sctp + 8, zeros, sctp, sctp + len);
    SpliceAgain(b[sctp..sctp + len], 8, zeros, crc);
  }

  lemma {:induction false} SpliceAgain(s: seq<byte>, off: nat, d: seq<byte>, e: seq<byte>)
    requires off + |d| <= |s| && |d| == |e|
    ensures Splice(Splice(Splice(s, off, d), off, e), off, d) == Splice(s, off, d)
  {}

  // ---- ip_checksum as a whole ----

  /** Only the two bytes of the field change. */
  lemma {:induction false} HeaderSummedKeeps(b: seq<byte>, ip: nat, hl: nat, lo: nat, hi: nat, bigEndian: bool)
    requires ip + IP_HDR_LEN <= |b| && ip + Reach(hl) <= |b| && lo <= hi <= |b|
    requires hi <= ip + 10 || ip + 12 <= lo
    ensures HeaderSummed(b, ip, hl, bigEndian)[lo..hi] == b[lo..hi]
  {
    hide Carry, CksumAdd, Splice, HostBytes;
    var z := StoreWord(b, ip + 10, 0, bigEndian);
    SpliceOutside(b, ip + 10, HostBytes(0, bigEndian), lo, hi);
    SpliceOutside(z, ip + 10, HostBytes(Carry(CksumAdd(z, ip, hl, 0, bigEndian)), bigEndian), lo, hi);
  }

  /** A transport checksum changes nothing outside its segment. */
  lemma {:induction false} TransportSummedKeeps(b: seq<byte>, ip: nat, off: nat, len: int, lo: nat, hi: nat,
                                                bigEndian: bool)
    requires SegmentInside(b, ip, off, len) && lo <= hi <= |b|
    requires hi <= off || off + len <= lo
    ensures TransportSummed(b, ip, off, len, bigEndian)[lo..hi] == b[lo..hi]
  {
    hide TcpSummed, UdpSummed, IcmpSummed, SctpSummed;
    var p := b[ip + 9];
    if p == IP_PROTO_TCP && len >= TCP_HDR_LEN {
      TcpSummedKeeps(b, ip, off, len, lo, hi, bigEndian);
    } else if p == IP_PROTO_UDP && len >= UDP_HDR_LEN {
      UdpSummedKeeps(b, ip, off, len, lo, hi, bigEndian);
    } else if (p == IP_PROTO_ICMP || p == IP_PROTO_IGMP) && len >= ICMP_HDR_LEN {
      IcmpSummedKeeps(b, off, len, lo, hi, bigEndian);
    } else if p == IP_PROTO_SCTP && len >= SCTP_HDR_LEN {
      SctpSummedKeeps(b, off, len, lo, hi);
    }
  }

  lemma {:induction false} TcpSummedKeeps(b: seq<byte>, ip: nat, tcp: nat, len: nat, lo: nat, hi: nat, bigEndian: bool)
    requires ip + 20 <= |b| && tcp + len <= |b| && TCP_HDR_LEN <= len <= INT_MAX && lo <= hi <= |b|
    requires hi <= tcp || tcp + len <= lo
    ensures TcpSummed(b, ip, tcp, len, bigEndian)[lo..hi] == b[lo..hi]
  {
    hide Carry, TransportSum, Splice, HostBytes, Htonl;
    var z := StoreWord(b, tcp + 16, 0, bigEndian);
    var c := Carry(TransportSum(z, ip, tcp, len, Htonl(z[ip + 9] + len, bigEndian), bigEndian));
    SpliceOutside(b, tcp + 16, HostBytes(0, bigEndian), lo, hi);
    SpliceOutside(z, tcp + 16, HostBytes(c, bigEndian), lo, hi);
  }

  lemma {:induction false} UdpSummedKeeps(b: seq<byte>, ip: nat, udp: nat, len: nat, lo: nat, hi: nat, bigEndian: bool)
    requires ip + 20 <= |b| && udp + len <= |b| && UDP_HDR_LEN <= len <= INT_MAX && lo <= hi <= |b|
    requires hi <= udp || udp + len <= lo
    ensures UdpSummed(b, ip, udp, len, bigEndian)[lo..hi] == b[lo..hi]
  {
    hide Carry, TransportSum, Splice, HostBytes, Htonl;
    var z := StoreWord(b, udp + 6, 0, bigEndian);
    var c := NonZero(Carry(TransportSum(z, ip, udp, len, Htonl(IP_PROTO_UDP + len, bigEndian), bigEndian)));
    SpliceOutside(b, udp + 6, HostBytes(0, bigEndian), lo, hi);
    SpliceOutside(z, udp + 6, HostBytes(c, bigEndian), lo, hi);
  }

  lemma {:induction false} IcmpSummedKeeps(b: seq<byte>, icmp: nat, len: nat, lo: nat, hi: nat, bigEndian: bool)
    requires icmp + len <= |b| && ICMP_HDR_LEN <= len && lo <= hi <= |b|
    requires hi <= icmp || icmp + len <= lo
    ensures IcmpSummed(b, icmp, len, bigEndian)[lo..hi] == b[lo..hi]
  {
    hide Carry, CksumAdd, Splice, HostBytes;
    SpliceOutside(b, icmp + 2, HostBytes(Carry(CksumAdd(b, icmp, len, 0, bigEndian)), bigEndian), lo, hi);
  }

  lemma {:induction false} SctpSummedKeeps(b: seq<byte>, sctp: nat, len: nat, lo: nat, hi: nat)
    requires sctp + len <= |b| && SCTP_HDR_LEN <= len && lo <= hi <= |b|
    requires hi <= sctp || sctp + len <= lo
    ensures SctpSummed(b, sctp, len)[lo..hi] == b[lo..hi]
  {
    hide Castagnoli, NetBytes, Splice;
    var z := Splice(b, sctp + 8, [0, 0, 0, 0]);
    SpliceOutside(b, sctp + 8, [0, 0, 0, 0], lo, hi);
    SpliceOutside(z, sctp + 8, NetBytes(Castagnoli(z[sctp..sctp + len])), lo, hi);
  }

  /** Which transport checksum is stored: by protocol, if the segment is long enough for its header. */
  lemma {:induction false} TransportCases(h: seq<byte>, ip: nat, off: nat, n: int, bigEndian: bool)
    requires SegmentInside(h, ip, off, n)
    ensures TransportSummed(h, ip, off, n, bigEndian)
         == var p := h[ip + 9];
            if p == 6 && n >= 20 then TcpSummed(h, ip, off, n, bigEndian)
            else if p == 17 && n >= 8 then UdpSummed(h, ip, off, n, bigEndian)
            else if (p == 1 || p == 2) && n >= 4 then IcmpSummed(h, off, n, bigEndian)
            else if p == 132 && n >= 12 then SctpSummed(h, off, n)
            else h
  {
    hide TcpSummed, UdpSummed, IcmpSummed, SctpSummed;
  }

  /** What `ip_checksum` does to which packet: nothing to one that is too short, the header alone with
      the flag or for a fragment, and otherwise the transport checksum too. */
  lemma {:induction false} PacketCases(b: seq<byte>, ip: nat, len: nat, flags: int, bigEndian: bool)
    requires Summable(b, ip, len, flags)
    ensures len < 20 ==> IpSummed(b, ip, len, flags, bigEndian) == b
    ensures len >= 20 ==>
              var hl := HeaderLen(b, ip);
              var r, h := IpSummed(b, ip, len, flags, bigEndian), HeaderSummed(b, ip, hl, bigEndian);
              if flags % 2 == 1 || !Unfragmented(b, ip) then r == h
              else SegmentInside(h, ip, ip + hl, len - hl) && r == TransportSummed(h, ip, ip + hl, len - hl, bigEndian)
  {
    hide HeaderSummed, TransportSummed, Whole, OffsetField, Unfragmented;
    if len >= 20 {
      WholeIff(b, ip);
      HeaderFieldsKept(b, ip, HeaderLen(b, ip), bigEndian);
    }
  }

  /** A fragment's payload is never touched, nor is anything past the packet or before it. */
  lemma {:induction false} FragmentKeepsPayload(b: seq<byte>, ip: nat, len: nat, flags: int, bigEndian: bool)
    requires Summable(b, ip, len, flags) && len >= IP_HDR_LEN && !Unfragmented(b, ip)
    ensures IpSummed(b, ip, len, flags, bigEndian) == HeaderSummed(b, ip, HeaderLen(b, ip), bigEndian)
    ensures IpSummed(b, ip, len, flags, bigEndian)[..ip + 10] == b[..ip + 10]
    ensures IpSummed(b, ip, len, flags, bigEndian)[ip + 12..] == b[ip + 12..]
  {
    hide HeaderSummed, TransportSummed, Whole, Unfragmented;
    WholeIff(b, ip);
    var hl := HeaderLen(b, ip);
    var h := HeaderSummed(b, ip, hl, bigEndian);
    HeaderSummedKeeps(b, ip, hl, 0, ip + 10, bigEndian);
    HeaderSummedKeeps(b, ip, hl, ip + 12, |b|, bigEndian);
    assert h[..ip + 10] == b[..ip + 10] && h[ip + 12..] == b[ip + 12..];
    assert h[ip + 6] == h[..ip + 10][ip + 6] && h[ip + 7] == h[..ip + 10][ip + 7];
  }

  /** The same holds after `ip_checksum`, whatever was done behind the header. */
  lemma {:induction false} PacketHeaderVerifies(b: seq<byte>, ip: nat, len: nat, flags: int, bigEndian: bool)
    requires Summable(b, ip, len, flags) && IP_HDR_LEN <= len
    ensures Verifies(IpSummed(b, ip, len, flags, bigEndian)[ip..ip + HeaderLen(b, ip)], bigEndian)
       <==> HeaderLen(b, ip) >= 12 || Verifies(b[ip..ip + HeaderLen(b, ip)], bigEndian)
  {
    hide HeaderSummed, TransportSummed, Verifies, OffsetField, Whole;
    var hl := HeaderLen(b, ip);
    var h := HeaderSummed(b, ip, hl, bigEndian);
    HeaderVerifies(b, ip, hl, bigEndian);
    HeaderFieldsKept(b, ip, hl, bigEndian);
    if !HeaderOnly(h, ip, flags) { TransportSummedKeeps(h, ip, ip + hl, len - hl, ip, ip + hl, bigEndian); }
  }

  /** An unfragmented packet of protocol `p` in memory, with at least `min` bytes behind its header, for
      which the flag is not set. */
  predicate Carries(b: seq<byte>, ip: nat, len: nat, flags: int, p: byte, min: nat): (c: bool)
    ensures c ==> Summable(b, ip, len, flags)
  {
    && ip + len <= |b| && 20 <= len <= INT_MAX && 20 <= HeaderLen(b, ip) && HeaderLen(b, ip) + min <= len
    && flags % 2 == 0 && Unfragmented(b, ip) && b[ip + 9] == p
  }

  /** After `ip_checksum` the TCP segment of an unfragmented packet verifies exactly when its sums fit
      an `int`. */
  lemma {:induction false} PacketTcpVerifiesIff(b: seq<byte>, ip: nat, len: nat, flags: int, bigEndian: bool)
    requires Carries(b, ip, len, flags, 6, 20) && len <= 65535
    ensures var tcp, n := ip + HeaderLen(b, ip), len - HeaderLen(b, ip);
            Accepted(IpSummed(b, ip, len, flags, bigEndian), ip, tcp, n, 6, bigEndian)
            <==> Total(StoreWord(b, tcp + 16, 0, bigEndian), ip, tcp, n, Htonl(6 + n, bigEndian), bigEndian) <= INT_MAX
  {
    hide IpSummed, TransportSummed, HeaderSummed, TcpSummed, Accepted, Total, Htonl, StoreWord, Unfragmented,
         Summable, OffsetField;
    PacketCases(b, ip, len, flags, bigEndian);
    var hl := HeaderLen(b, ip);
    var tcp, n, h := ip + hl, len - hl, HeaderSummed(b, ip, hl, bigEndian);
    HeaderFieldsKept(b, ip, hl, bigEndian);
    TransportCases(HeaderSummed(b, ip, hl, bigEndian), ip, ip + hl, len - hl, bigEndian);
    TcpVerifiesIff(h, ip, tcp, n, bigEndian);
    TotalIgnoresHeaderSum(b, ip, tcp, n, 16, hl, Htonl(6 + n, bigEndian), bigEndian);
  }

  lemma {:induction false} PacketUdpVerifiesIff(b: seq<byte>, ip: nat, len: nat, flags: int, bigEndian: bool)
    requires Carries(b, ip, len, flags, 17, 8) && len <= 65535
    ensures var udp, n := ip + HeaderLen(b, ip), len - HeaderLen(b, ip);
            Accepted(IpSummed(b, ip, len, flags, bigEndian), ip, udp, n, 17, bigEndian)
            <==> Total(StoreWord(b, udp + 6, 0, bigEndian), ip, udp, n, Htonl(17 + n, bigEndian), bigEndian) <= INT_MAX
  {
    hide IpSummed, TransportSummed, HeaderSummed, UdpSummed, Accepted, Total, Htonl, StoreWord, Unfragmented,
         Summable, OffsetField;
    PacketCases(b, ip, len, flags, bigEndian);
    var hl := HeaderLen(b, ip);
    var udp, n, h := ip + hl, len - hl, HeaderSummed(b, ip, hl, bigEndian);
    HeaderFieldsKept(b, ip, hl, bigEndian);
    TransportCases(HeaderSummed(b, ip, hl, bigEndian), ip, ip + hl, len - hl, bigEndian);
    UdpVerifiesIff(h, ip, udp, n, bigEndian);
    TotalIgnoresHeaderSum(b, ip, udp, n, 6, hl, Htonl(17 + n, bigEndian), bigEndian);
  }

  /** ICMP and IGMP messages of an unfragmented packet verify under the condition on their field. */
  lemma {:induction false} PacketIcmpVerifiesIff(b: seq<byte>, ip: nat, len: nat, flags: int, bigEndian: bool)
    requires (Carries(b, ip, len, flags, 1, 4) || Carries(b, ip, len, flags, 2, 4)) && len <= 65535
    ensures var icmp := ip + HeaderLen(b, ip);
            var w := HostWord(b[icmp + 2], b[icmp + 3], bigEndian);
            Verifies(IpSummed(b, ip, len, flags, bigEndian)[icmp..ip + len], bigEndian)
            <==> w == 0 || (w == 65535 && WordSum(b[icmp..ip + len], bigEndian) != 65535)
  {
    hide IpSummed, TransportSummed, HeaderSummed, IcmpSummed, Verifies, HostWord, WordSum, Unfragmented, Summable, OffsetField;
    PacketCases(b, ip, len, flags, bigEndian);
    var hl := HeaderLen(b, ip);
    HeaderFieldsKept(b, ip, hl, bigEndian);
    TransportCases(HeaderSummed(b, ip, hl, bigEndian), ip, ip + hl, len - hl, bigEndian);
    var icmp, h := ip + hl, HeaderSummed(b, ip, hl, bigEndian);
    HeaderSummedKeeps(b, ip, hl, icmp, ip + len, bigEndian);
    assert h[icmp + 2] == h[icmp..ip + len][2] && h[icmp + 3] == h[icmp..ip + len][3];
    assert b[icmp + 2] == b[icmp..ip + len][2] && b[icmp + 3] == b[icmp..ip + len][3];
    IcmpVerifiesIff(h, icmp, len - hl, bigEndian);
  }

  /** The CRC of an unfragmented SCTP packet is what a receiver computes. */
  lemma {:induction false} PacketSctpVerifies(b: seq<byte>, ip: nat, len: nat, flags: int, bigEndian: bool)
    requires Carries(b, ip, len, flags, 132, 12)
    ensures var sctp, r := ip + HeaderLen(b, ip), IpSummed(b, ip, len, flags, bigEndian);
            r[sctp + 8..sctp + 12] == NetBytes(Castagnoli(Splice(r[sctp..ip + len], 8, [0, 0, 0, 0])))
  {
    hide IpSummed, TransportSummed, HeaderSummed, SctpSummed, NetBytes, Castagnoli, Splice, Unfragmented,
         Summable, OffsetField;
    PacketCases(b, ip, len, flags, bigEndian);
    var hl := HeaderLen(b, ip);
    HeaderFieldsKept(b, ip, hl, bigEndian);
    TransportCases(HeaderSummed(b, ip, hl, bigEndian), ip, ip + hl, len - hl, bigEndian);
    SctpVerifies(HeaderSummed(b, ip, hl, bigEndian), ip + hl, len - hl);
  }

  lemma {:induction false} HeaderFieldsKept(b: seq<byte>, ip: nat, hl: nat, bigEndian: bool)
    requires ip + IP_HDR_LEN <= |b| && ip + Reach(hl) <= |b|
    ensures var h := HeaderSummed(b, ip, hl, bigEndian);
            OffsetField(h, ip) == OffsetField(b, ip) && h[ip + 9] == b[ip + 9]
  {
    hide HeaderSummed;
    var h := HeaderSummed(b, ip, hl, bigEndian);
    HeaderSummedKeeps(b, ip, hl, 0, ip + 10, bigEndian);
    assert forall k :: 0 <= k < ip + 10 ==> h[k] == h[0..ip + 10][k];
  }

  lemma {:induction false} TotalIgnoresHeaderSum(b: seq<byte>, ip: nat, off: nat, len: nat, k: nat, hl: nat, extra: nat,
                                                 bigEndian: bool)
    requires ip + 20 <= off && off + len <= |b| && 20 <= hl && ip + hl <= |b| && k + 2 <= len
    ensures Total(StoreWord(HeaderSummed(b, ip, hl, bigEndian), off + k, 0, bigEndian), ip, off, len, extra, bigEndian)
         == Total(StoreWord(b, off + k, 0, bigEndian), ip, off, len, extra, bigEndian)
  {
    hide HeaderSummed, Splice, HostBytes, WordSum;
    var h, z := HeaderSummed(b, ip, hl, bigEndian), HostBytes(0, bigEndian);
    HeaderSummedKeeps(b, ip, hl, ip + 12, ip + 20, bigEndian);
    HeaderSummedKeeps(b, ip, hl, off, off + len, bigEndian);
    SpliceInside(h, off + k, z, off, off + len);
    SpliceInside(b, off + k, z, off, off + len);
    SpliceOutside(h, off + k, z, ip + 12, ip + 20);
    SpliceOutside(b, off + k, z, ip + 12, ip + 20);
  }
}
