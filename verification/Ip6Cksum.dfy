/** `ip6_checksum` of src/ip6.c: the walk over the extension headers and the checksum of the upper
    layer. The packet starts at offset 0 of the buffer. */
module Ip6Cksum {
  import opened ByteOrder
  import opened Cksum
  import opened Dnet
  import opened IpCksum
  import opened Memory

  predicate IsExt(n: byte) {
    n == IP_PROTO_HOPOPTS || n == IP_PROTO_DSTOPTS || n == IP_PROTO_ROUTING || n == IP_PROTO_FRAGMENT
  }

  /** The upper layers that have a checksum here. */
  predicate HasSum(n: byte) {
    n == IP_PROTO_TCP || n == IP_PROTO_UDP || n == IP_PROTO_ICMPV6 || n == IP_PROTO_ICMP || n == IP_PROTO_IGMP
  }

  /** Every extension header that is looked at lies in memory, and a chain that ends in an upper layer
      with a checksum does so inside the packet. */
  ghost predicate ChainInside(b: seq<byte>, len: nat, i: nat, nxt: byte)
    decreases len - i
  {
    if !IsExt(nxt) then i <= len || !HasSum(nxt)
    else i >= len || (i + 1 < |b| && ChainInside(b, len, i + 8 * (b[i + 1] as nat + 1), b[i]))
  }

  /** Where the upper layer starts and what it is; nothing if the chain runs past the packet. */
  function Walk(b: seq<byte>, len: nat, i: nat, nxt: byte): (r: Option<(nat, byte)>)
    requires ChainInside(b, len, i, nxt)
    ensures r.Some? ==> i <= r.value.0 && !IsExt(r.value.1) && (HasSum(r.value.1) ==> r.value.0 <= len)
    decreases len - i
  {
    if !IsExt(nxt) then Some((i, nxt))
    else if i >= len then None
    else Walk(b, len, i + 8 * (b[i + 1] as nat + 1), b[i])
  }

  // ---- packets made of extension headers ----

  /** An extension header without its first byte, which says what comes next. */
  datatype Ext = Ext(kind: byte, rest: seq<byte>) {
    /** One of the four kinds, with the length its second byte gives in units of eight. */
    predicate Ok() {
      (kind == 0 || kind == 43 || kind == 44 || kind == 60) && rest != [] && |rest| + 1 == 8 * (rest[0] as nat + 1)
    }
  }

  function FirstKind(exts: seq<Ext>, last: byte): byte {
    if exts == [] then last else exts[0].kind
  }

  /** The headers one behind the other, each naming the next, the last one naming `last`. */
  function Chain(exts: seq<Ext>, last: byte): seq<byte> {
    if exts == [] then [] else [FirstKind(exts[1..], last)] + exts[0].rest + Chain(exts[1..], last)
  }

  /** `exts` and what `last` stands for start at `i`. */
  predicate ChainAt(b: seq<byte>, i: nat, exts: seq<Ext>, last: byte) {
    i + |Chain(exts, last)| <= |b| && b[i..i + |Chain(exts, last)|] == Chain(exts, last)
  }

  /** The first header of a chain, and the chain behind it. */
  lemma {:induction false} FirstOfChain(b: seq<byte>, i: nat, exts: seq<Ext>, last: byte)
    requires exts != [] && exts[0].Ok() && ChainAt(b, i, exts, last)
    ensures i + 1 < |b| && b[i] == FirstKind(exts[1..], last)
    ensures var n := 8 * (b[i + 1] as nat + 1);
            && n == 1 + |exts[0].rest| && |Chain(exts, last)| == n + |Chain(exts[1..], last)|
            && ChainAt(b, i + n, exts[1..], last)
  {
    hide FirstKind;
    var c, n := Chain(exts, last), 1 + |exts[0].rest|;
    var slice := b[i..i + |c|];
    assert b[i] == slice[0] == c[0] && b[i + 1] == slice[1] == c[1] == exts[0].rest[0];
    assert b[i + n..i + |c|] == slice[n..] == c[n..] == Chain(exts[1..], last);
  }

  /** The walk passes every header, of any of the four kinds, and finds what is behind them. */
  lemma {:induction false} WalkPasses(b: seq<byte>, len: nat, i: nat, exts: seq<Ext>, last: byte)
    requires (forall e :: e in exts ==> e.Ok()) && ChainAt(b, i, exts, last)
    requires last !in {0, 43, 44, 60} && i + |Chain(exts, last)| <= len
    ensures ChainInside(b, len, i, FirstKind(exts, last))
    ensures Walk(b, len, i, FirstKind(exts, last)) == Some((i + |Chain(exts, last)|, last))
    decreases |exts|
  {
    if exts == [] {
      assert Chain(exts, last) == [];
    } else {
      assert exts[0].Ok();
      FirstOfChain(b, i, exts, last);
      hide Chain, ChainAt;
      WalkPasses(b, len, i + 8 * (b[i + 1] as nat + 1), exts[1..], last);
    }
  }

  /** A packet that ends before an extension header starts has no upper layer. */
  lemma {:induction false} WalkFallsShort(b: seq<byte>, len: nat, i: nat, exts: seq<Ext>, last: byte)
    requires exts != [] && (forall e :: e in exts ==> e.Ok()) && ChainAt(b, i, exts, last)
    requires len <= i + |Chain(exts, last)| - 1 - |exts[|exts| - 1].rest|
    ensures ChainInside(b, len, i, FirstKind(exts, last))
    ensures Walk(b, len, i, FirstKind(exts, last)) == None
    decreases |exts|
  {
    hide Walk, ChainInside, Chain, ChainAt;
    assert exts[0].Ok();
    FirstOfChain(b, i, exts, last);
    WalkOn(b, len, i, exts[0].kind);
    if i < len {
      EmptyChain(last);
      assert |exts| > 1;
      assert exts[1..][|exts| - 2] == exts[|exts| - 1];
      WalkFallsShort(b, len, i + 8 * (b[i + 1] as nat + 1), exts[1..], last);
    }
  }

  lemma {:induction false} EmptyChain(last: byte)
    ensures Chain([], last) == []
  {}

  lemma {:induction false} WalkOn(b: seq<byte>, len: nat, i: nat, nxt: byte)
    requires IsExt(nxt) && i + 1 < |b|
    ensures i >= len ==> ChainInside(b, len, i, nxt) && Walk(b, len, i, nxt) == None
    ensures i < len && ChainInside(b, len, i + 8 * (b[i + 1] as nat + 1), b[i]) ==>
              ChainInside(b, len, i, nxt) && Walk(b, len, i, nxt) == Walk(b, len, i + 8 * (b[i + 1] as nat + 1), b[i])
  {}

  method FindUpper(buf: array<byte>, len: nat) returns (found: bool, i: nat, nxt: byte)
    requires IP6_HDR_LEN <= buf.Length && ChainInside(buf[..], len, IP6_HDR_LEN, buf[6])
    ensures Walk(buf[..], len, IP6_HDR_LEN, buf[6]) == if found then Some((i, nxt)) else None
  {
    i, nxt := IP6_HDR_LEN, buf[6];
    while IsExt(nxt)
      invariant ChainInside(buf[..], len, i, nxt)
      invariant Walk(buf[..], len, IP6_HDR_LEN, buf[6]) == Walk(buf[..], len, i, nxt)
      decreases len - i
    {
      if i >= len { return false, i, nxt; }
      nxt, i := buf[i], i + 8 * (buf[i + 1] as nat + 1);
    }
    found := true;
  }

  // ---- the checksum of the upper layer ----

  /** Protocol plus length, in 16 bits. */
  function LengthArg(nxt: byte, n: nat): (u: nat)
    ensures u < 65536
    ensures n <= 65535 ==> u == if nxt as nat + n <= 65535 then nxt as nat + n else nxt as nat + n - 65536
    ensures u == (nxt as nat + n) % 65536
  {
    (nxt as nat + n % 65536) % 65536
  }

  /** `htons(nxt + (u_short)len)` */
  function LengthSum(nxt: byte, n: nat, bigEndian: bool): nat {
    Htons(LengthArg(nxt, n), bigEndian)
  }

  /** The field at `k` of the upper layer, made over the layer, its length and protocol and the two
      addresses. */
  function UpperSum(b: seq<byte>, i: nat, n: nat, k: nat, nxt: byte, bigEndian: bool): (c: nat)
    requires IP6_HDR_LEN <= i && i + n <= |b| && k + 2 <= n
    ensures c < 65536
  {
    var z := StoreWord(b, i + k, 0, bigEndian);
    Carry(CksumAdd(z, 8, 32, Int32(CksumAdd(z, i, n, 0, bigEndian) + LengthSum(nxt, n, bigEndian)), bigEndian))
  }

  /** `n`, the length that is left, is looked at only where there is a checksum. */
  function UpperSummed(b: seq<byte>, i: nat, n: int, nxt: byte, bigEndian: bool): (r: seq<byte>)
    requires IP6_HDR_LEN <= i && (HasSum(nxt) ==> 0 <= n && i + n <= |b|)
    ensures |r| == |b|
  {
    if nxt == IP_PROTO_TCP then
      if n >= TCP_HDR_LEN then StoreWord(b, i + 16, UpperSum(b, i, n, 16, nxt, bigEndian), bigEndian) else b
    else if nxt == IP_PROTO_UDP then
      if n >= UDP_HDR_LEN then StoreWord(b, i + 6, NonZero(UpperSum(b, i, n, 6, nxt, bigEndian)), bigEndian) else b
    else if nxt == IP_PROTO_ICMPV6 then
      if n >= ICMP_HDR_LEN then StoreWord(b, i + 2, UpperSum(b, i, n, 2, nxt, bigEndian), bigEndian) else b
    else if nxt == IP_PROTO_ICMP || nxt == IP_PROTO_IGMP then
      if n >= ICMP_HDR_LEN then IcmpSummed(StoreWord(b, i + 2, 0, bigEndian), i, n, bigEndian) else b
    else b
  }

  function Ip6Summed(b: seq<byte>, len: nat, bigEndian: bool): (r: seq<byte>)
    requires IP6_HDR_LEN <= |b| && len <= |b| && ChainInside(b, len, IP6_HDR_LEN, b[6])
    ensures |r| == |b|
  {
    match Walk(b, len, IP6_HDR_LEN, b[6])
    case None => b
    case Some((i, nxt)) => UpperSummed(b, i, len - i, nxt, bigEndian)
  }

  lemma {:induction false} StoreAgain(b: seq<byte>, off: nat, v: nat, w: nat, bigEndian: bool)
    requires off + 2 <= |b| && v < 65536 && w < 65536
    ensures StoreWord(StoreWord(b, off, v, bigEndian), off, w, bigEndian) == StoreWord(b, off, w, bigEndian)
  {}

  /** Clears the field, sums and stores. */
  method StoreUpper(buf: array<byte>, i: nat, n: nat, k: nat, nxt: byte, bigEndian: bool) returns (c: nat)
    requires IP6_HDR_LEN <= i && i + n <= buf.Length && k + 2 <= n
    modifies buf
    ensures c == UpperSum(old(buf[..]), i, n, k, nxt, bigEndian)
    ensures buf[..] == StoreWord(old(buf[..]), i + k, c, bigEndian)
  {
    hide StoreWord, LengthSum, Carry, CksumAdd, Int32;
    PutWord(buf, i + k, 0, bigEndian);
    var sum := IpCksumAdd(buf, i, n, 0, bigEndian);
    sum := Int32(sum + LengthSum(nxt, n, bigEndian));
    sum := IpCksumAdd(buf, 8, 32, sum, bigEndian);
    c := Carry(sum);
    PutWord(buf, i + k, c, bigEndian);
    StoreAgain(old(buf[..]), i + k, 0, c, bigEndian);
  }

  method UpperChecksum(buf: array<byte>, i: nat, n: int, nxt: byte, bigEndian: bool)
    requires IP6_HDR_LEN <= i && (HasSum(nxt) ==> 0 <= n && i + n <= buf.Length)
    modifies buf
    ensures buf[..] == UpperSummed(old(buf[..]), i, n, nxt, bigEndian)
  {
    hide StoreWord, UpperSum, IcmpSummed;
    if nxt == IP_PROTO_TCP {
      if n >= TCP_HDR_LEN { var _ := StoreUpper(buf, i, n, 16, nxt, bigEndian); }
    } else if nxt == IP_PROTO_UDP {
      if n >= UDP_HDR_LEN {
        var c := StoreUpper(buf, i, n, 6, nxt, bigEndian);
        if c == 0 {
          PutWord(buf, i + 6, 0xffff, bigEndian);
          StoreAgain(old(buf[..]), i + 6, 0, 0xffff, bigEndian);
        }
      }
    } else if nxt == IP_PROTO_ICMPV6 {
      if n >= ICMP_HDR_LEN { var _ := StoreUpper(buf, i, n, 2, nxt, bigEndian); }
    } else if nxt == IP_PROTO_ICMP || nxt == IP_PROTO_IGMP {
      if n >= ICMP_HDR_LEN {
        PutWord(buf, i + 2, 0, bigEndian);
        IcmpChecksum(buf, i, n, bigEndian);
      }
    }
  }

  method Ip6Checksum(buf: array<byte>, len: nat, bigEndian: bool)
    requires IP6_HDR_LEN <= buf.Length && len <= buf.Length && ChainInside(buf[..], len, IP6_HDR_LEN, buf[6])
    modifies buf
    ensures buf[..] == Ip6Summed(old(buf[..]), len, bigEndian)
  {
    hide UpperSummed, ChainInside;
    var found, i, nxt := FindUpper(buf, len);
    if !found { return; }
    UpperChecksum(buf, i, len - i, nxt, bigEndian);
  }

  // ---- what a receiver finds ----

  /** The pseudo-header of section 8.1 of RFC 8200. */
  function Pseudo6(addresses: seq<byte>, n: nat, nxt: byte): seq<byte>
    requires n <= 65535
  {
    addresses + ([0, 0] + ([n / 256, n % 256] + ([0, 0] + [0, nxt])))
  }

  predicate Accepted6(r: seq<byte>, i: nat, n: nat, nxt: byte, bigEndian: bool)
    requires IP6_HDR_LEN <= i && i + n <= |r| && n <= 65535
  {
    Verifies(Pseudo6(r[8..40], n, nxt) + r[i..i + n], bigEndian)
  }

  /** The true value of the accumulator. */
  function Total6(z: seq<byte>, i: nat, n: nat, nxt: byte, bigEndian: bool): nat
    requires IP6_HDR_LEN <= i && i + n <= |z|
  {
    WordSum(z[i..i + n], bigEndian) + LengthSum(nxt, n, bigEndian) + WordSum(z[8..40], bigEndian)
  }

  lemma {:induction false} Pseudo6Sum(a: seq<byte>, n: nat, nxt: byte, bigEndian: bool)
    requires |a| == 32 && n <= 65535
    ensures WordSum(Pseudo6(a, n, nxt), bigEndian)
         == WordSum(a, bigEndian) + HostWord(0, nxt, bigEndian) + HostWord(n / 256, n % 256, bigEndian)
  {
    hide HostWord, WordSum;
    var z: seq<byte>, l: seq<byte>, p: seq<byte> := [0, 0], [n / 256, n % 256], [0, nxt];
    SumOfParts(a, z + (l + (z + p)), bigEndian);
    SumOfParts(z, l + (z + p), bigEndian);
    SumOfParts(l, z + p, bigEndian);
    SumOfParts(z, p, bigEndian);
    SumOfWord(z, bigEndian);
    SumOfWord(l, bigEndian);
    SumOfWord(p, bigEndian);
    ZeroWord(bigEndian);
  }

  /** What the truncation of the 16-bit argument of `htons` takes away from the sum. */
  function Lost(nxt: byte, n: nat, bigEndian: bool): (d: nat)
    ensures d <= 256
  {
    if nxt as nat + n <= 65535 then 0 else if bigEndian then 1 else 256
  }

  lemma {:induction false} LengthSumResidue(nxt: byte, n: nat, bigEndian: bool)
    requires n <= 65535
    ensures (HostWord(0, nxt, bigEndian) + HostWord(n / 256, n % 256, bigEndian)
             - LengthSum(nxt, n, bigEndian) - Lost(nxt, n, bigEndian)) % 65535 == 0
  {
    hide HostWord, Htons, LengthArg;
    var v, u := nxt as nat + n, LengthArg(nxt, n);
    LengthWords(nxt, n, bigEndian);
    HtonsScales(u, bigEndian);
    ResidueSteps(HostWord(0, nxt, bigEndian) + HostWord(n / 256, n % 256, bigEndian), Htons(u, bigEndian), v, u,
                 if bigEndian then 1 else 256);
  }

  lemma {:induction false} HtonsScales(u: nat, bigEndian: bool)
    requires u < 65536
    ensures ((if bigEndian then 1 else 256) * u - Htons(u, bigEndian)) % 65535 == 0
  {
    if !bigEndian { SwapIsTimes256(u); }
  }

  lemma {:induction false} ResidueSteps(words: nat, stored: nat, v: nat, u: nat, m: nat)
    requires m == 1 || m == 256
    requires (words - m * v) % 65535 == 0 && (m * u - stored) % 65535 == 0
    requires u == if v <= 65535 then v else v - 65536
    ensures (words - stored - (if v <= 65535 then 0 else m)) % 65535 == 0
  {
    var i, j := (words - m * v) / 65535, (m * u - stored) / 65535;
    assert words - m * v == 65535 * i && m * u - stored == 65535 * j;
    if v <= 65535 {
      assert words - stored == 65535 * (i + j);
      Multiple(i + j);
    } else {
      assert words - stored - m == 65535 * (i + j + m);
      Multiple(i + j + m);
    }
  }

  lemma {:induction false} UpperSumIs(b: seq<byte>, i: nat, n: nat, k: nat, nxt: byte, bigEndian: bool)
    requires IP6_HDR_LEN <= i && i + n <= |b| && k + 2 <= n
    ensures UpperSum(b, i, n, k, nxt, bigEndian)
         == Carry(Int32(Total6(StoreWord(b, i + k, 0, bigEndian), i, n, nxt, bigEndian)))
  {
    hide Carry, Int32, WordSum, LengthSum, StoreWord;
    var z := StoreWord(b, i + k, 0, bigEndian);
    var s, a, l := WordSum(z[i..i + n], bigEndian), WordSum(z[8..40], bigEndian), LengthSum(nxt, n, bigEndian);
    Int32Adds(0 + s, l);
    Int32Adds(s + l, a);
  }

  lemma {:induction false} Total6Bound(z: seq<byte>, i: nat, n: nat, nxt: byte, bigEndian: bool)
    requires IP6_HDR_LEN <= i && i + n <= |z| && n <= 65535
    ensures Total6(z, i, n, nxt, bigEndian) < 0x1_8010_0000
  {
    hide WordSum;
    SumBound(z[i..i + n], bigEndian);
    SumBound(z[8..40], bigEndian);
  }

  /** The upper layer verifies exactly when no partial sum leaves the range of an `int` and protocol
      plus length fit 16 bits. */
  lemma {:induction false} UpperVerifiesIff(b: seq<byte>, i: nat, n: nat, k: nat, nxt: byte, c: nat, bigEndian: bool)
    requires IP6_HDR_LEN <= i && i + n <= |b| && k + 2 <= n <= 65535 && k % 2 == 0 && nxt > 0
    requires c == UpperSum(b, i, n, k, nxt, bigEndian) || c == NonZero(UpperSum(b, i, n, k, nxt, bigEndian))
    requires c < 65536
    ensures Accepted6(StoreWord(b, i + k, c, bigEndian), i, n, nxt, bigEndian)
       <==> Total6(StoreWord(b, i + k, 0, bigEndian), i, n, nxt, bigEndian) <= INT_MAX && nxt as nat + n <= 65535
  {
    hide *;
    var z := StoreWord(b, i + k, 0, bigEndian);
    UpperSumIs(b, i, n, k, nxt, bigEndian);
    StoreAgain(b, i + k, 0, c, bigEndian);
    ClearedField(b, i + k, bigEndian);
    StoredUpperVerifiesIff(z, i, n, k, nxt, c, bigEndian);
  }

  lemma {:induction false} StoredUpperVerifiesIff(z: seq<byte>, i: nat, n: nat, k: nat, nxt: byte, c: nat,
                                                  bigEndian: bool)
    requires IP6_HDR_LEN <= i && i + n <= |z| && k + 2 <= n <= 65535 && k % 2 == 0 && nxt > 0
    requires z[i + k] == 0 && z[i + k + 1] == 0 && c < 65536
    requires var t := Total6(z, i, n, nxt, bigEndian); c == Carry(Int32(t)) || c == NonZero(Carry(Int32(t)))
    ensures Accepted6(StoreWord(z, i + k, c, bigEndian), i, n, nxt, bigEndian)
       <==> Total6(z, i, n, nxt, bigEndian) <= INT_MAX && nxt as nat + n <= 65535
  {
    hide Carry, Int32, WordSum, Verifies, HostWord, Pseudo6, Splice, HostBytes, NonZero, LengthSum;
    SpliceInside(z, i + k, HostBytes(c, bigEndian), i, i + n);
    SpliceOutside(z, i + k, HostBytes(c, bigEndian), 8, 40);
    var a := z[8..40];
    Pseudo6Sum(a, n, nxt, bigEndian);
    LengthWords(nxt, n, bigEndian);
    LengthSumResidue(nxt, n, bigEndian);
    Total6Bound(z, i, n, nxt, bigEndian);
    Pseudo6Length(a, n, nxt);
    StoredVerifiesIff(Pseudo6(a, n, nxt), z[i..i + n], k, c, Total6(z, i, n, nxt, bigEndian), Lost(nxt, n, bigEndian),
                      bigEndian);
  }

  lemma {:induction false} Pseudo6Length(a: seq<byte>, n: nat, nxt: byte)
    requires n <= 65535
    ensures |Pseudo6(a, n, nxt)| == |a| + 8
  {}

  /** The offset of the checksum in the header of an upper layer that has a pseudo-header. */
  function FieldOf(nxt: byte): nat {
    if nxt == IP_PROTO_TCP then 16 else if nxt == IP_PROTO_UDP then 6 else 2
  }

  function MinLen(nxt: byte): nat {
    if nxt == IP_PROTO_TCP then TCP_HDR_LEN else if nxt == IP_PROTO_UDP then UDP_HDR_LEN else ICMP_HDR_LEN
  }

  /** `ip6_checksum` on a packet that carries TCP, UDP or ICMPv6. */
  lemma {:induction false} Ip6VerifiesIff(b: seq<byte>, len: nat, i: nat, nxt: byte, bigEndian: bool)
    requires IP6_HDR_LEN <= |b| && len <= |b| && ChainInside(b, len, IP6_HDR_LEN, b[6])
    requires Walk(b, len, IP6_HDR_LEN, b[6]) == Some((i, nxt))
    requires nxt == IP_PROTO_TCP || nxt == IP_PROTO_UDP || nxt == IP_PROTO_ICMPV6
    requires MinLen(nxt) <= len - i <= 65535
    ensures Accepted6(Ip6Summed(b, len, bigEndian), i, len - i, nxt, bigEndian)
       <==> Total6(StoreWord(b, i + FieldOf(nxt), 0, bigEndian), i, len - i, nxt, bigEndian) <= INT_MAX
            && nxt as nat + (len - i) <= 65535
  {
    hide UpperSum, Accepted6, Total6, StoreWord, ChainInside, Walk, NonZero;
    var n, k := len - i, FieldOf(nxt);
    var c := UpperSum(b, i, n, k, nxt, bigEndian);
    NonZeroFits(c);
    UpperVerifiesIff(b, i, n, k, nxt, if nxt == IP_PROTO_UDP then NonZero(c) else c, bigEndian);
  }

  /** Nothing is stored for any other upper layer, for one too short for its header, and for a packet
      that ends before it. */
  lemma {:induction false} Ip6Untouched(b: seq<byte>, len: nat, bigEndian: bool)
    requires IP6_HDR_LEN <= |b| && len <= |b| && ChainInside(b, len, IP6_HDR_LEN, b[6])
    requires var w := Walk(b, len, IP6_HDR_LEN, b[6]);
             w.Some? ==>
               var n, nxt := len - w.value.0, w.value.1;
               nxt !in {1, 2, 6, 17, 58} || n < if nxt == 6 then 20 else if nxt == 17 then 8 else 4
    ensures Ip6Summed(b, len, bigEndian) == b
  {
    hide ChainInside, Walk;
  }

  lemma {:induction false} NonZeroFits(c: nat)
    requires c < 65536
    ensures NonZero(c) < 65536
  {}

  /** ICMP and IGMP behind an IPv6 header have no pseudo-header and always verify. */
  lemma {:induction false} Ip6IcmpVerifies(b: seq<byte>, len: nat, i: nat, nxt: byte, bigEndian: bool)
    requires IP6_HDR_LEN <= |b| && len <= |b| && ChainInside(b, len, IP6_HDR_LEN, b[6])
    requires Walk(b, len, IP6_HDR_LEN, b[6]) == Some((i, nxt))
    requires nxt == IP_PROTO_ICMP || nxt == IP_PROTO_IGMP
    requires ICMP_HDR_LEN <= len - i <= 65535
    ensures Verifies(Ip6Summed(b, len, bigEndian)[i..len], bigEndian)
  {
    hide Verifies, IcmpSummed, ChainInside, Walk, StoreWord;
    ClearedField(b, i + 2, bigEndian);
    ZeroWord(bigEndian);
    IcmpVerifiesIff(StoreWord(b, i + 2, 0, bigEndian), i, len - i, bigEndian);
  }
}
