/** `ip_add_option` of src/ip-util.c: an option is inserted in place at the end of an IP or TCP
    header. The packet starts at offset 0 of the buffer. */
module IpOption {
  import opened ByteOrder
  import opened Dnet
  import opened Memory

  const IP_OPT_EOL: byte := 0
  const IP_OPT_NOP: byte := 1

  predicate TypeOnly(kind: byte) {
    kind == IP_OPT_EOL || kind == IP_OPT_NOP
  }

  // ---- the layout of a packet ----

  function IpHdrLen(b: seq<byte>): nat
    requires |b| >= IP_HDR_LEN
  {
    HeaderLen(b, 0)
  }

  /** `ntohs(ip->ip_len)` */
  function IpLen(b: seq<byte>): nat
    requires |b| >= IP_HDR_LEN
  {
    HostWord(b[2], b[3], true)
  }

  /** Where the header that takes the option starts. */
  function Start(b: seq<byte>, tcp: bool): nat
    requires |b| >= IP_HDR_LEN
  {
    if tcp then IpHdrLen(b) else 0
  }

  /** The length that header claims. */
  function HdrLen(b: seq<byte>, tcp: bool): nat
    requires |b| >= IP_HDR_LEN && (tcp ==> IpHdrLen(b) + 20 <= |b|)
  {
    if tcp then 4 * (b[IpHdrLen(b) + 12] as nat / 16) else IpHdrLen(b)
  }

  /** Headers of at least twenty bytes that lie inside the packet, a packet inside the buffer. */
  predicate WellFormed(b: seq<byte>, len: nat, tcp: bool) {
    && IP_HDR_LEN <= len <= |b|
    && IP_HDR_LEN <= IpHdrLen(b) && (tcp ==> IpHdrLen(b) + 20 <= |b| && 20 <= HdrLen(b, tcp))
    && Start(b, tcp) + HdrLen(b, tcp) <= IpLen(b) <= len
  }

  function HdrEnd(b: seq<byte>, tcp: bool): nat
    requires |b| >= IP_HDR_LEN && (tcp ==> IpHdrLen(b) + 20 <= |b|)
  {
    Start(b, tcp) + HdrLen(b, tcp)
  }

  // ---- what is inserted ----

  function Padding(optlen: nat): (p: nat)
    ensures p < 4 && (optlen + p) % 4 == 0
  {
    (4 - optlen % 4) % 4
  }

  /** Of a type-only option one byte is used, however long it is said to be. */
  function Used(opt: seq<byte>, optlen: nat): nat
    requires opt != []
  {
    if TypeOnly(opt[0]) then 1 else optlen
  }

  function Nops(n: nat): (s: seq<byte>)
    ensures |s| == n
  {
    if n == 0 then [] else [IP_OPT_NOP] + Nops(n - 1)
  }

  /** Padding first, then the option. */
  function Insertion(opt: seq<byte>, optlen: nat): (s: seq<byte>)
    requires opt != [] && optlen <= |opt|
    ensures |s| == Padding(optlen) + Used(opt, optlen)
  {
    Nops(Padding(optlen)) + opt[..Used(opt, optlen)]
  }

  predicate Refused(b: seq<byte>, len: nat, tcp: bool, optlen: nat)
    requires WellFormed(b, len, tcp)
  {
    HdrLen(b, tcp) + optlen + Padding(optlen) > IP_HDR_LEN_MAX || IpLen(b) + optlen + Padding(optlen) > len
  }

  /** `b` with `ins` at `p`; what was between `p` and `end` moves up, covering what came behind. */
  function OpenedAt(b: seq<byte>, p: nat, end: nat, ins: seq<byte>): (r: seq<byte>)
    requires p <= end && end + |ins| <= |b|
    ensures |r| == |b|
  {
    b[..p] + ins + b[p..end] + b[end + |ins|..]
  }

  /** The packet with `ins` at the end of the header. */
  function Opened(b: seq<byte>, len: nat, tcp: bool, ins: seq<byte>): (r: seq<byte>)
    requires WellFormed(b, len, tcp) && IpLen(b) + |ins| <= len
    ensures |r| == |b|
  {
    OpenedAt(b, HdrEnd(b, tcp), IpLen(b), ins)
  }

  /** The header length field; it counts words of four bytes and has four bits. */
  function WithHdrLen(b: seq<byte>, tcp: bool, hl: nat): (r: seq<byte>)
    requires |b| >= IP_HDR_LEN && (tcp ==> IpHdrLen(b) + 20 <= |b|)
    ensures |r| == |b|
  {
    if tcp then b[IpHdrLen(b) + 12 := hl / 4 % 16 * 16 + b[IpHdrLen(b) + 12] as nat % 16]
    else b[0 := b[0] as nat / 16 * 16 + hl / 4 % 16]
  }

  function WithIpLen(b: seq<byte>, n: nat): (r: seq<byte>)
    requires |b| >= IP_HDR_LEN
    ensures |r| == |b|
  {
    b[2 := n % 65536 / 256][3 := n % 256]
  }

  function Inserted(b: seq<byte>, len: nat, tcp: bool, ins: seq<byte>): (r: seq<byte>)
    requires WellFormed(b, len, tcp) && IpLen(b) + |ins| <= len
    ensures |r| == |b|
  {
    WithIpLen(WithHdrLen(Opened(b, len, tcp, ins), tcp, HdrLen(b, tcp) + |ins|), IpLen(b) + |ins|)
  }

  // ---- ip_add_option ----

  /** Shifts the data at `p`, pads, and copies the option in. */
  method Open(buf: array<byte>, p: nat, datalen: nat, padlen: nat, o: seq<byte>)
    requires p + datalen + padlen + |o| <= buf.Length
    modifies buf
    ensures buf[..] == OpenedAt(old(buf[..]), p, p + datalen, Nops(padlen) + o)
  {
    hide *;
    ghost var b := buf[..];
    Shift(buf, p, datalen, |o| + padlen);
    ghost var shifted := buf[..];
    Pad(buf, p, padlen);
    ghost var padded := buf[..];
    Memcpy(buf, p + padlen, o);
    Assembled(b, shifted, padded, buf[..], p, datalen, Nops(padlen), o);
  }

  method Shift(buf: array<byte>, p: nat, datalen: nat, gap: nat)
    requires p + datalen + gap <= buf.Length
    modifies buf
    ensures buf[..] == Splice(old(buf[..]), p + gap, old(buf[..])[p..p + datalen])
  {
    hide Splice;
    ghost var b := buf[..];
    assert buf[p..p + datalen] == b[p..p + datalen];
    if datalen != 0 {
      Memmove(buf, p + gap, buf, p, datalen);
    } else {
      SpliceNothing(b, p + gap, b[p..p + datalen]);
    }
  }

  lemma {:induction false} SpliceNothing(b: seq<byte>, off: nat, d: seq<byte>)
    requires off <= |b| && |d| == 0
    ensures Splice(b, off, d) == b
  {}

  method Pad(buf: array<byte>, p: nat, padlen: nat)
    requires p + padlen <= buf.Length
    modifies buf
    ensures buf[..] == Splice(old(buf[..]), p, Nops(padlen))
  {
    hide Nops;
    if padlen != 0 {
      Memset(buf, p, IP_OPT_NOP, padlen);
    }
    NopsAre(padlen);
    assert buf[..] == Splice(old(buf[..]), p, Nops(padlen));
  }

  lemma {:induction false} NopsAre(n: nat)
    ensures forall k :: 0 <= k < n ==> Nops(n)[k] == IP_OPT_NOP
  {
    if n > 0 { NopsAre(n - 1); }
  }

  lemma {:induction false} Assembled(b: seq<byte>, shifted: seq<byte>, padded: seq<byte>, r: seq<byte>, p: nat,
                                     datalen: nat, pad: seq<byte>, o: seq<byte>)
    requires p + datalen + |pad| + |o| <= |b|
    requires shifted == Splice(b, p + |o| + |pad|, b[p..p + datalen])
    requires padded == Splice(shifted, p, pad) && r == Splice(padded, p + |pad|, o)
    ensures r == OpenedAt(b, p, p + datalen, pad + o)
  {}

  lemma {:induction false} OpenedKeepsFront(b: seq<byte>, len: nat, tcp: bool, ins: seq<byte>)
    requires WellFormed(b, len, tcp) && IpLen(b) + |ins| <= len
    ensures var r := Opened(b, len, tcp, ins); r[..HdrEnd(b, tcp)] == b[..HdrEnd(b, tcp)] && IpHdrLen(r) == IpHdrLen(b)
  {
    var r := Opened(b, len, tcp, ins);
    assert r[0] == r[..HdrEnd(b, tcp)][0];
  }

  /** The two length fields. */
  method SetLengths(buf: array<byte>, tcp: bool, start: nat, hl: nat, iplen: nat)
    requires IP_HDR_LEN <= buf.Length
    requires tcp ==> start == IpHdrLen(buf[..]) && IP_HDR_LEN <= start && start + 20 <= buf.Length
    modifies buf
    ensures buf[..] == WithIpLen(WithHdrLen(old(buf[..]), tcp, hl), iplen)
  {
    if tcp {
      buf[start + 12] := hl / 4 % 16 * 16 + buf[start + 12] as nat % 16;
    } else {
      buf[0] := buf[0] as nat / 16 * 16 + hl / 4 % 16;
    }
    assert buf[..] == WithHdrLen(old(buf[..]), tcp, hl);
    buf[2], buf[3] := iplen % 65536 / 256, iplen % 256;
  }

  /** The header that takes the option, its length, and the length of the packet. */
  method ReadLengths(buf: array<byte>, len: nat, tcp: bool) returns (start: nat, hl: nat, iplen: nat)
    requires WellFormed(buf[..], len, tcp)
    ensures start == Start(buf[..], tcp) && hl == HdrLen(buf[..], tcp) && iplen == IpLen(buf[..])
  {
    start, hl := 0, 4 * (buf[0] as nat % 16);
    if tcp {
      start := hl;
      hl := 4 * (buf[start + 12] as nat / 16);
    }
    iplen := HostWord(buf[2], buf[3], true);
  }

  method Insert(buf: array<byte>, len: nat, tcp: bool, opt: seq<byte>, optlen: nat) returns (r: nat)
    requires opt != [] && optlen <= |opt|
    requires WellFormed(buf[..], len, tcp) && IpLen(buf[..]) + |Insertion(opt, optlen)| <= len
    modifies buf
    ensures r == |Insertion(opt, optlen)|
    ensures buf[..] == Inserted(old(buf[..]), len, tcp, Insertion(opt, optlen))
  {
    hide Nops, WithHdrLen, WithIpLen, OpenedAt, HdrLen, IpLen, Padding;
    ghost var b := buf[..];
    var start, hl, iplen := ReadLengths(buf, len, tcp);
    var padlen := Padding(optlen);
    var n := if TypeOnly(opt[0]) then 1 else optlen;
    Open(buf, start + hl, iplen - (start + hl), padlen, opt[..n]);
    OpenedKeepsFront(b, len, tcp, Insertion(opt, optlen));
    SetLengths(buf, tcp, start, hl + n + padlen, iplen + n + padlen);
    r := n + padlen;
  }

  predicate Known(proto: int) {
    proto == IP_PROTO_IP || proto == IP_PROTO_TCP
  }

  /** What `ip_add_option` may be called on: the test for room counts the claimed length of an option
      of type only, and one byte is used of it even if that length is 0. */
  predicate RoomForInsertion(b: seq<byte>, len: nat, tcp: bool, opt: seq<byte>, optlen: nat)
    requires opt != [] && optlen <= |opt|
  {
    WellFormed(b, len, tcp) && (!Refused(b, len, tcp, optlen) ==> IpLen(b) + |Insertion(opt, optlen)| <= len)
  }

  method AddOption(buf: array<byte>, len: nat, proto: int, opt: seq<byte>, optlen: nat) returns (r: int)
    requires opt != [] && optlen <= |opt|
    requires Known(proto) ==> RoomForInsertion(buf[..], len, proto == IP_PROTO_TCP, opt, optlen)
    modifies buf
    ensures r == -1 <==> !Known(proto) || Refused(old(buf[..]), len, proto == IP_PROTO_TCP, optlen)
    ensures r == -1 ==> buf[..] == old(buf[..])
    ensures r != -1 ==> r == |Insertion(opt, optlen)| && IpLen(old(buf[..])) + r <= len
                        && buf[..] == Inserted(old(buf[..]), len, proto == IP_PROTO_TCP, Insertion(opt, optlen))
  {
    hide Nops, Inserted, HdrLen, IpLen, WellFormed;
    if proto != IP_PROTO_IP && proto != IP_PROTO_TCP {
      return -1;
    }
    var start, hl, iplen := ReadLengths(buf, len, proto == IP_PROTO_TCP);
    var padlen := Padding(optlen);
    if hl + optlen + padlen > IP_HDR_LEN_MAX || iplen + optlen + padlen > len {
      return -1;
    }
    r := Insert(buf, len, proto == IP_PROTO_TCP, opt, optlen);
  }

  // ---- the packet after an insertion ----

  lemma {:induction false} OpenedParts(b: seq<byte>, p: nat, end: nat, ins: seq<byte>)
    requires p <= end && end + |ins| <= |b|
    ensures var r := OpenedAt(b, p, end, ins);
            r[..p] == b[..p] && r[p..p + |ins|] == ins && r[p + |ins|..end + |ins|] == b[p..end]
            && r[end + |ins|..] == b[end + |ins|..]
  {}

  /** Only the length fields change in front of the insertion, nothing behind it. */
  lemma {:induction false} InsertedParts(b: seq<byte>, len: nat, tcp: bool, ins: seq<byte>)
    requires WellFormed(b, len, tcp) && IpLen(b) + |ins| <= len
    ensures var r, e := Inserted(b, len, tcp, ins), HdrEnd(b, tcp);
            && r[e..e + |ins|] == ins
            && r[e + |ins|..IpLen(b) + |ins|] == b[e..IpLen(b)] && r[IpLen(b) + |ins|..] == b[IpLen(b) + |ins|..]
            && (forall k {:trigger r[k]} :: 0 <= k < e && k != 2 && k != 3 && k != (if tcp then IpHdrLen(b) + 12 else 0)
                 ==> r[k] == b[k])
  {
    hide OpenedAt, IpLen, WithHdrLen, WithIpLen;
    var e, o, hl := HdrEnd(b, tcp), Opened(b, len, tcp, ins), HdrLen(b, tcp) + |ins|;
    OpenedParts(b, e, IpLen(b), ins);
    OpenedKeepsFront(b, len, tcp, ins);
    assert forall k {:trigger o[k]} :: 0 <= k < e ==> o[k] == o[..e][k] == b[..e][k] == b[k];
    OnlyLengthsChange(o, tcp, hl, IpLen(b) + |ins|);
    SlicesAgree(o, Inserted(b, len, tcp, ins), e, e + |ins|, IpLen(b) + |ins|);
  }

  lemma {:induction false} SlicesAgree(o: seq<byte>, r: seq<byte>, e: nat, m: nat, h: nat)
    requires e <= m <= h <= |o| == |r|
    requires forall k {:trigger r[k]} :: e <= k < |o| ==> r[k] == o[k]
    ensures r[e..m] == o[e..m] && r[m..h] == o[m..h] && r[h..] == o[h..]
  {}

  lemma {:induction false} OnlyLengthsChange(o: seq<byte>, tcp: bool, hl: nat, n: nat)
    requires |o| >= IP_HDR_LEN && (tcp ==> IP_HDR_LEN <= IpHdrLen(o) && IpHdrLen(o) + 20 <= |o|)
    ensures var r := WithIpLen(WithHdrLen(o, tcp, hl), n);
            forall k {:trigger r[k]} :: 0 <= k < |o| && k != 2 && k != 3 && k != (if tcp then IpHdrLen(o) + 12 else 0)
              ==> r[k] == o[k]
  {}

  lemma {:induction false} HdrLenSet(o: seq<byte>, tcp: bool, hl: nat)
    requires |o| >= IP_HDR_LEN && hl <= IP_HDR_LEN_MAX
    requires tcp ==> IP_HDR_LEN <= IpHdrLen(o) && IpHdrLen(o) + 20 <= |o|
    ensures var r := WithHdrLen(o, tcp, hl);
            (tcp ==> IpHdrLen(r) == IpHdrLen(o)) && HdrLen(r, tcp) == hl / 4 * 4
  {
    if tcp { NibbleBack(o[IpHdrLen(o) + 12], hl); } else { NibbleBack(o[0], hl); }
  }

  lemma {:induction false} IpLenSet(o: seq<byte>, tcp: bool, n: nat)
    requires |o| >= IP_HDR_LEN
    requires tcp ==> IP_HDR_LEN <= IpHdrLen(o) && IpHdrLen(o) + 20 <= |o|
    ensures var r := WithIpLen(o, n);
            IpHdrLen(r) == IpHdrLen(o) && HdrLen(r, tcp) == HdrLen(o, tcp) && IpLen(r) == n % 65536
  {
    assert n % 65536 % 256 == n % 256;
  }

  lemma {:induction false} FieldsSet(o: seq<byte>, tcp: bool, hl: nat, n: nat)
    requires |o| >= IP_HDR_LEN && hl <= IP_HDR_LEN_MAX
    requires tcp ==> IP_HDR_LEN <= IpHdrLen(o) && IpHdrLen(o) + 20 <= |o|
    ensures var r := WithIpLen(WithHdrLen(o, tcp, hl), n);
            && (tcp ==> IpHdrLen(r) == IpHdrLen(o))
            && HdrLen(r, tcp) == hl / 4 * 4 && IpLen(r) == n % 65536
  {
    hide IpHdrLen, HdrLen, IpLen, WithHdrLen, WithIpLen;
    HdrLenSet(o, tcp, hl);
    IpLenSet(WithHdrLen(o, tcp, hl), tcp, n);
  }

  lemma {:induction false} IpHdrLenIs(b: seq<byte>)
    requires |b| >= IP_HDR_LEN
    ensures HdrLen(b, false) == IpHdrLen(b) == 4 * (b[0] as nat % 16)
  {}

  lemma {:induction false} HdrLenIsWords(b: seq<byte>, tcp: bool)
    requires |b| >= IP_HDR_LEN && (tcp ==> IpHdrLen(b) + 20 <= |b|)
    ensures HdrLen(b, tcp) % 4 == 0
  {}

  /** The header claims the new length exactly when what was inserted fills whole words. */
  lemma {:induction false} HeaderGrowsIff(b: seq<byte>, len: nat, tcp: bool, ins: seq<byte>)
    requires WellFormed(b, len, tcp) && IpLen(b) + |ins| <= len && HdrLen(b, tcp) + |ins| <= IP_HDR_LEN_MAX
    ensures var r := Inserted(b, len, tcp, ins);
            && (tcp ==> IpHdrLen(r) == IpHdrLen(b))
            && (HdrLen(r, tcp) == HdrLen(b, tcp) + |ins| <==> |ins| % 4 == 0)
            && (IpLen(r) == IpLen(b) + |ins| <==> IpLen(b) + |ins| <= 65535)
  {
    hide WithHdrLen, WithIpLen, OpenedAt, IpLen, IpHdrLen, HdrLen;
    var o := Opened(b, len, tcp, ins);
    OpenedKeepsFront(b, len, tcp, ins);
    HdrLenIsWords(b, tcp);
    FieldsSet(o, tcp, HdrLen(b, tcp) + |ins|, IpLen(b) + |ins|);
  }

  lemma {:induction false} NibbleBack(x: byte, hl: nat)
    requires hl <= 60
    ensures hl / 4 % 16 == hl / 4
    ensures (x as nat / 16 * 16 + hl / 4) % 16 == hl / 4
    ensures (hl / 4 * 16 + x as nat % 16) / 16 == hl / 4
  {}

  /** Where things are: the header lengths are four-bit fields that count words, the packet length a
      16-bit field in network order; options go into packets of two protocols. */
  lemma {:induction false} LayoutIs(b: seq<byte>, tcp: bool, proto: int)
    requires |b| >= 20 && (tcp ==> 4 * (b[0] as nat % 16) + 20 <= |b|)
    ensures IpLen(b) == 256 * b[2] as nat + b[3] as nat
    ensures Start(b, tcp) == if tcp then 4 * (b[0] as nat % 16) else 0
    ensures HdrLen(b, tcp) == if tcp then 4 * (b[4 * (b[0] as nat % 16) + 12] as nat / 16) else 4 * (b[0] as nat % 16)
    ensures HdrEnd(b, tcp) == Start(b, tcp) + HdrLen(b, tcp)
    ensures Known(proto) <==> proto == 0 || proto == 6
  {}

  /** The other half of the byte with the header length, the version or reserved bits, stays. */
  lemma {:induction false} OtherHalfKept(b: seq<byte>, len: nat, tcp: bool, ins: seq<byte>)
    requires WellFormed(b, len, tcp) && IpLen(b) + |ins| <= len
    ensures var r, k := Inserted(b, len, tcp, ins), if tcp then IpHdrLen(b) + 12 else 0;
            if tcp then r[k] as nat % 16 == b[k] as nat % 16 else r[k] as nat / 16 == b[k] as nat / 16
  {
    hide OpenedAt, IpLen;
    var o, k := Opened(b, len, tcp, ins), if tcp then IpHdrLen(b) + 12 else 0;
    OpenedParts(b, HdrEnd(b, tcp), IpLen(b), ins);
    OpenedKeepsFront(b, len, tcp, ins);
    assert o[k] == o[..HdrEnd(b, tcp)][k] == b[k];
    var n := (HdrLen(b, tcp) + |ins|) / 4 % 16;
    HalvesApart(n, o[k]);
  }

  lemma {:induction false} HalvesApart(n: nat, x: byte)
    requires n < 16
    ensures (n * 16 + x as nat % 16) % 16 == x as nat % 16 && (x as nat / 16 * 16 + n) / 16 == x as nat / 16
  {}

  /** Refused is what would make the header longer than 60 bytes or the packet longer than the buffer,
      counting the claimed length in whole words. */
  lemma {:induction false} RefusedIff(b: seq<byte>, len: nat, tcp: bool, optlen: nat)
    requires WellFormed(b, len, tcp)
    ensures var n := (optlen + 3) / 4 * 4;
            Refused(b, len, tcp, optlen) <==> HdrLen(b, tcp) + n > 60 || IpLen(b) + n > len
  {
    hide Padding, HdrLen, IpLen, WellFormed;
  }

  /** What is inserted: fewer than four NOPs, up to whole words, and the option, of which the first two
      types have one byte. */
  lemma {:induction false} InsertionIs(opt: seq<byte>, optlen: nat)
    requires opt != [] && optlen <= |opt|
    ensures var used := if opt[0] <= 1 then 1 else optlen;
            var p := |Insertion(opt, optlen)| - used;
            && 0 <= p < 4 && (optlen + p) % 4 == 0
            && Insertion(opt, optlen)[p..] == opt[..used]
            && forall k :: 0 <= k < p ==> Insertion(opt, optlen)[k] == 1
  {
    hide Padding;
    NopsAre(Padding(optlen));
  }

  /** Whole words are inserted exactly when the option is not type-only, or is and its length leaves
      three bytes of padding. */
  lemma {:induction false} WholeWordsIff(opt: seq<byte>, optlen: nat)
    requires opt != [] && optlen <= |opt|
    ensures |Insertion(opt, optlen)| % 4 == 0 <==> !TypeOnly(opt[0]) || optlen % 4 == 1
  {
    hide Nops;
    assert Padding(optlen) == 0 || Padding(optlen) == 4 - optlen % 4;
  }

  /** The bytes that hold the options. */
  function Area(b: seq<byte>, tcp: bool): seq<byte>
    requires |b| >= IP_HDR_LEN && (tcp ==> IpHdrLen(b) + 20 <= |b|)
    requires 20 <= HdrLen(b, tcp) && HdrEnd(b, tcp) <= |b|
  {
    b[Start(b, tcp) + 20..HdrEnd(b, tcp)]
  }

  function Payload(b: seq<byte>, tcp: bool): seq<byte>
    requires |b| >= IP_HDR_LEN && (tcp ==> IpHdrLen(b) + 20 <= |b|)
    requires HdrEnd(b, tcp) <= IpLen(b) <= |b|
  {
    b[HdrEnd(b, tcp)..IpLen(b)]
  }

  /** What a successful call leaves: a well-formed packet with the same payload, the options it had
      with the insertion behind them, longer by as much as was inserted. */
  lemma {:induction false} PacketAfterInsertion(b: seq<byte>, len: nat, tcp: bool, ins: seq<byte>)
    requires WellFormed(b, len, tcp) && IpLen(b) + |ins| <= len <= 65535
    requires HdrLen(b, tcp) + |ins| <= IP_HDR_LEN_MAX && |ins| % 4 == 0
    ensures var r := Inserted(b, len, tcp, ins);
            && WellFormed(r, len, tcp)
            && HdrLen(r, tcp) == HdrLen(b, tcp) + |ins| && IpLen(r) == IpLen(b) + |ins|
            && Payload(r, tcp) == Payload(b, tcp) && Area(r, tcp) == Area(b, tcp) + ins
  {
    hide Inserted, OpenedAt, IpHdrLen, HdrLen, IpLen;
    HeaderGrowsIff(b, len, tcp, ins);
    InsertedParts(b, len, tcp, ins);
    var r, e := Inserted(b, len, tcp, ins), HdrEnd(b, tcp);
    IpHdrLenIs(b);
    IpHdrLenIs(r);
    AreaGrows(b, r, Start(b, tcp) + 20, e, ins);
  }

  lemma {:induction false} AreaGrows(b: seq<byte>, r: seq<byte>, lo: nat, e: nat, ins: seq<byte>)
    requires lo <= e && e + |ins| <= |b| && |r| == |b| && r[e..e + |ins|] == ins
    requires forall k {:trigger r[k]} :: lo <= k < e ==> r[k] == b[k]
    ensures r[lo..e + |ins|] == b[lo..e] + ins
  {
    assert r[lo..e] == b[lo..e];
    assert r[lo..e + |ins|] == r[lo..e] + r[e..e + |ins|];
  }

  // ---- reading the options back ----

  /** How a walk over an option list ends: at the end of the header, at an end-of-list option, or at
      an option whose length does not fit. */
  datatype End = Complete | EndOfList | Damaged

  datatype Listing = Listing(items: seq<seq<byte>>, end: End)

  function Options(a: seq<byte>): Listing {
    if a == [] then Listing([], Complete)
    else if a[0] == IP_OPT_EOL then Listing([[IP_OPT_EOL]], EndOfList)
    else if a[0] == IP_OPT_NOP then
      var rest := Options(a[1..]);
      Listing([a[..1]] + rest.items, rest.end)
    else if |a| >= 2 && 2 <= a[1] as nat <= |a| then
      var rest := Options(a[a[1]..]);
      Listing([a[..a[1]]] + rest.items, rest.end)
    else Listing([], Damaged)
  }

  /** A list that was walked to its end goes on with what is behind it; one that was ended stays as
      it is. */
  lemma {:induction false} OptionsAppend(a: seq<byte>, c: seq<byte>)
    requires Options(a).end != Damaged
    ensures Options(a + c) == if Options(a).end == EndOfList then Options(a)
                              else Listing(Options(a).items + Options(c).items, Options(c).end)
  {
    if a == [] {
      assert a + c == c;
    } else if a[0] == IP_OPT_EOL {
    } else {
      var n := if a[0] == IP_OPT_NOP then 1 else a[1] as nat;
      assert StartsWith(a, n);
      hide Options;
      OptionsFrom(a, n);
      OptionsAppend(a[n..], c);
      assert (a + c)[n..] == a[n..] + c && (a + c)[..n] == a[..n] && StartsWith(a + c, n);
      OptionsFrom(a + c, n);
      ItemsAssociate([a[..n]], Options(a[n..]).items, Options(c).items);
    }
  }

  /** `a` starts with an option of `n` bytes that does not end the list. */
  predicate StartsWith(a: seq<byte>, n: nat) {
    a != [] && a[0] != IP_OPT_EOL && if a[0] == IP_OPT_NOP then n == 1 else |a| >= 2 && 2 <= a[1] as nat == n <= |a|
  }

  lemma {:induction false} OptionsFrom(a: seq<byte>, n: nat)
    requires StartsWith(a, n)
    ensures Options(a) == Listing([a[..n]] + Options(a[n..]).items, Options(a[n..]).end)
  {}

  lemma {:induction false} ItemsAssociate(x: seq<seq<byte>>, y: seq<seq<byte>>, z: seq<seq<byte>>)
    ensures x + (y + z) == (x + y) + z
  {}

  /** One option by itself: a lone type byte, or a type, a length and that many bytes in all. */
  predicate SingleOption(o: seq<byte>) {
    o != [] && if TypeOnly(o[0]) then |o| == 1 else |o| >= 2 && o[1] as nat == |o|
  }

  function NopItems(n: nat): seq<seq<byte>> {
    if n == 0 then [] else [[IP_OPT_NOP]] + NopItems(n - 1)
  }

  lemma {:induction false} OptionsOfInsertion(n: nat, o: seq<byte>)
    requires SingleOption(o)
    ensures Options(Nops(n) + o) == Listing(NopItems(n) + [o], if o[0] == IP_OPT_EOL then EndOfList else Complete)
  {
    if n == 0 {
      assert Nops(0) + o == o && NopItems(0) + [o] == [o];
      OptionsOfSingle(o);
    } else {
      var s := Nops(n) + o;
      OptionsOfInsertion(n - 1, o);
      assert s[1..] == Nops(n - 1) + o && s[..1] == [IP_OPT_NOP];
      hide Options;
      OptionsFrom(s, 1);
      ItemsAssociate([[IP_OPT_NOP]], NopItems(n - 1), [o]);
    }
  }

  lemma {:induction false} OptionsOfSingle(o: seq<byte>)
    requires SingleOption(o)
    ensures Options(o) == Listing([o], if o[0] == IP_OPT_EOL then EndOfList else Complete)
  {
    if !TypeOnly(o[0]) {
      assert o[o[1]..] == [] && o[..o[1]] == o;
    } else {
      assert o[1..] == [] && o[..1] == o && o == [o[0]];
      assert [o] + [] == [o];
    }
  }

  /** After a call that was not refused, a walk over the options finds the ones from before, the
      padding and the new one; unless the old list was ended, in which case it finds the old ones
      only. */
  lemma {:induction false} OptionIsFound(b: seq<byte>, len: nat, tcp: bool, opt: seq<byte>, optlen: nat)
    requires WellFormed(b, len, tcp) && len <= 65535 && opt != [] && optlen <= |opt|
    requires !Refused(b, len, tcp, optlen) && SingleOption(opt[..Used(opt, optlen)])
    requires TypeOnly(opt[0]) ==> optlen % 4 == 1
    requires Options(Area(b, tcp)).end != Damaged
    ensures |Insertion(opt, optlen)| <= optlen + Padding(optlen)
    ensures var r, found := Inserted(b, len, tcp, Insertion(opt, optlen)), Options(Area(b, tcp));
            && WellFormed(r, len, tcp) && Payload(r, tcp) == Payload(b, tcp)
            && (Options(Area(r, tcp)).end == Complete <==> found.end == Complete && opt[0] != IP_OPT_EOL)
            && Options(Area(r, tcp)).items
               == (if found.end == EndOfList then found.items
                   else found.items + (NopItems(Padding(optlen)) + [opt[..Used(opt, optlen)]]))
  {
    hide Inserted, Area, Payload, IpLen, Padding, Options, Nops;
    var ins, o := Insertion(opt, optlen), opt[..Used(opt, optlen)];
    assert o[0] == opt[0];
    WholeWordsIff(opt, optlen);
    PacketAfterInsertion(b, len, tcp, ins);
    OptionsOfInsertion(Padding(optlen), o);
    OptionsAppend(Area(b, tcp), ins);
  }

  // ---- runs of calls ----

  /** An option that leaves the list open. */
  predicate Addable(o: seq<byte>) {
    SingleOption(o) && o[0] != IP_OPT_EOL
  }

  lemma {:induction false} CallKeeps(b: seq<byte>, len: nat, tcp: bool, o: seq<byte>)
    requires WellFormed(b, len, tcp) && len <= 65535 && Addable(o) && !Refused(b, len, tcp, |o|)
    ensures |Insertion(o, |o|)| <= |o| + Padding(|o|)
    ensures WellFormed(Inserted(b, len, tcp, Insertion(o, |o|)), len, tcp)
    ensures Payload(Inserted(b, len, tcp, Insertion(o, |o|)), tcp) == Payload(b, tcp)
  {
    hide Inserted, Area, Payload, IpLen, Padding, Nops;
    WholeWordsIff(o, |o|);
    PacketAfterInsertion(b, len, tcp, Insertion(o, |o|));
  }

  /** The packet after calls with the options of `opts` in turn; a refused call changes nothing. */
  function AfterCalls(b: seq<byte>, len: nat, tcp: bool, opts: seq<seq<byte>>): (r: seq<byte>)
    requires WellFormed(b, len, tcp) && len <= 65535 && forall o :: o in opts ==> Addable(o)
    ensures WellFormed(r, len, tcp)
    decreases |opts|
  {
    hide Inserted, WellFormed, Refused, Insertion, Addable;
    if opts == [] then b
    else if Refused(b, len, tcp, |opts[0]|) then AfterCalls(b, len, tcp, opts[1..])
    else
      CallKeeps(b, len, tcp, opts[0]);
      AfterCalls(Accepting(b, len, tcp, opts[0]), len, tcp, opts[1..])
  }

  function Accepting(b: seq<byte>, len: nat, tcp: bool, o: seq<byte>): (r: seq<byte>)
    requires WellFormed(b, len, tcp) && len <= 65535 && Addable(o) && !Refused(b, len, tcp, |o|)
    ensures WellFormed(r, len, tcp)
  {
    CallKeeps(b, len, tcp, o);
    Inserted(b, len, tcp, Insertion(o, |o|))
  }

  /** What the calls that were not refused add to the option list. */
  function ItemsOfCalls(b: seq<byte>, len: nat, tcp: bool, opts: seq<seq<byte>>): seq<seq<byte>>
    requires WellFormed(b, len, tcp) && len <= 65535 && forall o :: o in opts ==> Addable(o)
    decreases |opts|
  {
    if opts == [] then []
    else if Refused(b, len, tcp, |opts[0]|) then ItemsOfCalls(b, len, tcp, opts[1..])
    else
      (NopItems(Padding(|opts[0]|)) + [opts[0]]) + ItemsOfCalls(Accepting(b, len, tcp, opts[0]), len, tcp, opts[1..])
  }

  /** Over every run of calls the packet stays well-formed, the payload the same, and the option list
      is the first one followed by what the accepted calls added. */
  lemma {:induction false} RunOfCalls(b: seq<byte>, len: nat, tcp: bool, opts: seq<seq<byte>>)
    requires WellFormed(b, len, tcp) && len <= 65535 && forall o :: o in opts ==> Addable(o)
    requires Options(Area(b, tcp)).end == Complete
    ensures var r := AfterCalls(b, len, tcp, opts);
            && Payload(r, tcp) == Payload(b, tcp)
            && Options(Area(r, tcp)) == Listing(Options(Area(b, tcp)).items + ItemsOfCalls(b, len, tcp, opts), Complete)
    decreases |opts|
  {
    hide Refused, Area, Payload, Options, Padding, NopItems, Inserted, Insertion;
    var found := Options(Area(b, tcp)).items;
    if opts == [] {
      assert found + [] == found;
    } else if Refused(b, len, tcp, |opts[0]|) {
      RunOfCalls(b, len, tcp, opts[1..]);
    } else {
      var o := opts[0];
      OneCallListed(b, len, tcp, o);
      RunOfCalls(Accepting(b, len, tcp, o), len, tcp, opts[1..]);
      ItemsAssociate(found, NopItems(Padding(|o|)) + [o], ItemsOfCalls(Accepting(b, len, tcp, o), len, tcp, opts[1..]));
    }
  }

  lemma {:induction false} OneCallListed(b: seq<byte>, len: nat, tcp: bool, o: seq<byte>)
    requires WellFormed(b, len, tcp) && len <= 65535 && Addable(o) && !Refused(b, len, tcp, |o|)
    requires Options(Area(b, tcp)).end == Complete
    ensures var r := Accepting(b, len, tcp, o);
            && Payload(r, tcp) == Payload(b, tcp)
            && Options(Area(r, tcp)) == Listing(Options(Area(b, tcp)).items + (NopItems(Padding(|o|)) + [o]), Complete)
  {
    hide Refused, Area, Payload, Options, Padding, NopItems, Inserted, Insertion;
    assert o[..Used(o, |o|)] == o;
    OptionIsFound(b, len, tcp, o, |o|);
  }
}
