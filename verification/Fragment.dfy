/** The sending half of `ip_send` in src/ip-cooked.c: a packet that exceeds the MTU goes out as
    fragments (section 3.2 of RFC 791), each built in the same frame buffer. */
module Fragment {
  import opened ByteOrder
  import opened Cksum
  import opened Dnet
  import opened IpCksum
  import opened Memory

  /** An Ethernet handle: what was sent, and how many more sends will succeed. */
  class Eth {
    var sent: seq<seq<byte>>
    var good: nat

    constructor (n: nat)
      ensures sent == [] && good == n
    {
      sent := [];
      good := n;
    }

    /** `eth_send` */
    method Send(frame: seq<byte>) returns (n: int)
      modifies this
      ensures old(good) > 0 ==> n == |frame| && sent == old(sent) + [frame] && good == old(good) - 1
      ensures old(good) == 0 ==> n == -1 && sent == old(sent) && good == 0
    {
      if good == 0 { return -1; }
      sent := sent + [frame];
      good := good - 1;
      n := |frame|;
    }
  }

  // ---- one fragment ----

  /** `ip_off` of the fragment that starts `at` bytes into the payload. */
  function FragOff(at: nat, more: bool): (w: nat)
    requires at <= 65535
    ensures w < 65536
  {
    (if more then IP_MF else 0) + at / 8
  }

  /** The frame buffer holds a header of `hl` bytes behind the Ethernet header. */
  predicate Framed(frame: seq<byte>, hl: nat) {
    |frame| == ETH_LEN_MAX && 20 <= hl <= 60 && HeaderLen(frame, ETH_HDR_LEN) == hl
  }

  /** The buffer with payload, length and offset of a fragment, not yet checksummed. */
  function Filled(frame: seq<byte>, hl: nat, data: seq<byte>, at: nat, more: bool): (r: seq<byte>)
    requires Framed(frame, hl) && ETH_HDR_LEN + hl + |data| <= ETH_LEN_MAX && at <= 65535
    ensures |r| == ETH_LEN_MAX
  {
    Splice(Splice(Splice(frame, ETH_HDR_LEN + hl, data),
                  ETH_HDR_LEN + 2, HostBytes(hl + |data|, true)), ETH_HDR_LEN + 6, HostBytes(FragOff(at, more), true))
  }

  lemma {:induction false} FilledParts(frame: seq<byte>, hl: nat, data: seq<byte>, at: nat, more: bool)
    requires Framed(frame, hl) && ETH_HDR_LEN + hl + |data| <= ETH_LEN_MAX && at <= 65535
    ensures var r, e := Filled(frame, hl, data, at, more), ETH_HDR_LEN + hl;
            && r[ETH_HDR_LEN + 2..ETH_HDR_LEN + 4] == HostBytes(hl + |data|, true)
            && r[ETH_HDR_LEN + 6..ETH_HDR_LEN + 8] == HostBytes(FragOff(at, more), true)
            && r[e..e + |data|] == data
            && forall k :: 0 <= k < e && !(ETH_HDR_LEN + 2 <= k < ETH_HDR_LEN + 4) && !(ETH_HDR_LEN + 6 <= k < ETH_HDR_LEN + 8)
                 ==> r[k] == frame[k]
  {
    hide HostBytes, HeaderLen, FragOff, Splice;
    var e := ETH_HDR_LEN + hl;
    var a := Splice(frame, e, data);
    var b := Splice(a, ETH_HDR_LEN + 2, HostBytes(hl + |data|, true));
    SpliceAt(frame, e, data);
    SpliceAt(a, ETH_HDR_LEN + 2, HostBytes(hl + |data|, true));
    SpliceAt(b, ETH_HDR_LEN + 6, HostBytes(FragOff(at, more), true));
  }

  /** It is a packet that `ip_checksum` can be called on, with the offset field just written. */
  lemma {:induction false} FilledIsSummable(frame: seq<byte>, hl: nat, data: seq<byte>, at: nat, more: bool, flags: int)
    requires Framed(frame, hl) && ETH_HDR_LEN + hl + |data| <= ETH_LEN_MAX && at <= 65535
    ensures var r := Filled(frame, hl, data, at, more);
            && Framed(r, hl) && OffsetField(r, ETH_HDR_LEN) == FragOff(at, more)
            && Summable(r, ETH_HDR_LEN, hl + |data|, flags)
  {
    hide FragOff, Filled;
    var r := Filled(frame, hl, data, at, more);
    FilledParts(frame, hl, data, at, more);
    assert r[ETH_HDR_LEN] == frame[ETH_HDR_LEN];
    var w := r[ETH_HDR_LEN + 6..ETH_HDR_LEN + 8];
    assert w[0] == r[ETH_HDR_LEN + 6] && w[1] == r[ETH_HDR_LEN + 7];
  }

  /** The buffer as the fragment is sent. The third argument of `ip_checksum` is missing from the
      call, so `flags` is whatever happened to be there. */
  function Built(frame: seq<byte>, hl: nat, data: seq<byte>, at: nat, more: bool, flags: int,
                 bigEndian: bool): (r: seq<byte>)
    requires Framed(frame, hl) && ETH_HDR_LEN + hl + |data| <= ETH_LEN_MAX && at <= 65535
    ensures |r| == ETH_LEN_MAX
  {
    FilledIsSummable(frame, hl, data, at, more, flags);
    IpSummed(Filled(frame, hl, data, at, more), ETH_HDR_LEN, hl + |data|, flags, bigEndian)
  }

  /** Whatever `ip_checksum` does to it, the header stays but for its checksum. */
  lemma {:induction false} BuiltParts(frame: seq<byte>, hl: nat, data: seq<byte>, at: nat, more: bool, flags: int,
                                      bigEndian: bool)
    requires Framed(frame, hl) && ETH_HDR_LEN + hl + |data| <= ETH_LEN_MAX && at <= 65535
    ensures var f, r := Filled(frame, hl, data, at, more), Built(frame, hl, data, at, more, flags, bigEndian);
            && r[..ETH_HDR_LEN + 10] == f[..ETH_HDR_LEN + 10]
            && r[ETH_HDR_LEN + 12..ETH_HDR_LEN + hl] == f[ETH_HDR_LEN + 12..ETH_HDR_LEN + hl]
            && Framed(r, hl) && OffsetField(r, ETH_HDR_LEN) == FragOff(at, more)
  {
    hide FragOff, Filled, HeaderSummed, TransportSummed, Whole;
    var f, n := Filled(frame, hl, data, at, more), hl + |data|;
    FilledIsSummable(frame, hl, data, at, more, flags);
    var h := HeaderSummed(f, ETH_HDR_LEN, hl, bigEndian);
    HeaderSummedKeeps(f, ETH_HDR_LEN, hl, 0, ETH_HDR_LEN + 10, bigEndian);
    HeaderSummedKeeps(f, ETH_HDR_LEN, hl, ETH_HDR_LEN + 12, ETH_HDR_LEN + hl, bigEndian);
    TransportSummedKeeps(h, ETH_HDR_LEN, ETH_HDR_LEN + hl, |data|, 0, ETH_HDR_LEN + hl, bigEndian);
    var r := Built(frame, hl, data, at, more, flags, bigEndian);
    assert r == h || r[0..ETH_HDR_LEN + hl] == h[0..ETH_HDR_LEN + hl];
    PrefixKept(f, h, r, ETH_HDR_LEN + hl);
  }

  lemma {:induction false} PrefixKept(f: seq<byte>, h: seq<byte>, r: seq<byte>, e: nat)
    requires |f| == |h| == |r| && ETH_HDR_LEN + 20 <= e <= |f|
    requires h[0..ETH_HDR_LEN + 10] == f[0..ETH_HDR_LEN + 10] && h[ETH_HDR_LEN + 12..e] == f[ETH_HDR_LEN + 12..e]
    requires r == h || r[0..e] == h[0..e]
    ensures r[..ETH_HDR_LEN + 10] == f[..ETH_HDR_LEN + 10] && r[ETH_HDR_LEN + 12..e] == f[ETH_HDR_LEN + 12..e]
    ensures HeaderLen(r, ETH_HDR_LEN) == HeaderLen(f, ETH_HDR_LEN) && OffsetField(r, ETH_HDR_LEN) == OffsetField(f, ETH_HDR_LEN)
  {
    assert r[0..e] == h[0..e];
    assert r[..ETH_HDR_LEN + 10] == r[0..e][..ETH_HDR_LEN + 10] && h[0..ETH_HDR_LEN + 10] == h[0..e][..ETH_HDR_LEN + 10];
    assert r[ETH_HDR_LEN + 12..e] == r[0..e][ETH_HDR_LEN + 12..] && h[ETH_HDR_LEN + 12..e] == h[0..e][ETH_HDR_LEN + 12..];
    assert forall k :: 0 <= k < ETH_HDR_LEN + 10 ==> r[k] == r[..ETH_HDR_LEN + 10][k] == f[k];
  }

  // ---- all fragments ----

  /** The frames sent for the payload from `at` on. Each is built over the one before it. */
  function Frames(frame: seq<byte>, hl: nat, payload: seq<byte>, at: nat, fraglen: nat, flags: nat -> int,
                  bigEndian: bool):
    (r: seq<seq<byte>>)
    requires Framed(frame, hl) && 0 < fraglen && ETH_HDR_LEN + hl + fraglen <= ETH_LEN_MAX
    requires at <= |payload| <= 65535
    decreases |payload| - at
  {
    if at == |payload| then []
    else
      var n := Least(fraglen, |payload| - at);
      var more := at + n < |payload|;
      var built := Built(frame, hl, payload[at..at + n], at, more, flags(at), bigEndian);
      BuiltParts(frame, hl, payload[at..at + n], at, more, flags(at), bigEndian);
      [built[..ETH_HDR_LEN + hl + n]] + Frames(built, hl, payload, at + n, fraglen, flags, bigEndian)
  }

  /** `iph->ip_len = htons(w)` and the like */
  method PutNet(buf: array<byte>, off: nat, w: nat, bigEndian: bool)
    requires off + 2 <= buf.Length && w < 65536
    modifies buf
    ensures buf[..] == Splice(old(buf[..]), off, HostBytes(w, true))
  {
    assert HostBytes(Htons(w, bigEndian), bigEndian) == HostBytes(w, true);
    PutWord(buf, off, Htons(w, bigEndian), bigEndian);
  }

  /** One round of the loop up to the send. */
  method Build(frame: array<byte>, hl: nat, buf: array<byte>, p: nat, n: nat, at: nat, more: bool, flags: int,
               bigEndian: bool)
    requires frame != buf && Framed(frame[..], hl) && ETH_HDR_LEN + hl + n <= ETH_LEN_MAX && at <= 65535
    requires p + n <= buf.Length
    modifies frame
    ensures frame[..] == Built(old(frame[..]), hl, buf[p..p + n], at, more, flags, bigEndian)
  {
    hide FragOff, HostBytes, Splice, Summable, IpSummed, OffsetField, HeaderLen, Reach;
    ghost var was := frame[..];
    FilledIsSummable(was, hl, buf[p..p + n], at, more, flags);
    Memmove(frame, ETH_HDR_LEN + hl, buf, p, n);
    PutNet(frame, ETH_HDR_LEN + 2, hl + n, bigEndian);
    PutNet(frame, ETH_HDR_LEN + 6, FragOff(at, more), bigEndian);
    IpChecksum(frame, ETH_HDR_LEN, hl + n, flags, bigEndian);
  }

  /** A packet that is too long for an interface that Ethernet frames can serve. */
  predicate Oversized(b: seq<byte>, len: nat, mtu: nat) {
    ETH_LEN_MIN <= mtu < len <= 65535 && mtu <= ETH_LEN_MAX - ETH_HDR_LEN && len <= |b| && 20 <= HeaderLen(b, 0)
  }

  function AllFrames(frame: seq<byte>, b: seq<byte>, len: nat, mtu: nat, flags: nat -> int,
                     bigEndian: bool): seq<seq<byte>>
    requires |frame| == ETH_LEN_MAX && Oversized(b, len, mtu)
  {
    var hl := HeaderLen(b, 0);
    FramedBy(frame, b[..hl], hl);
    Frames(Splice(frame, ETH_HDR_LEN, b[..hl]), hl, b[hl..len], 0, mtu - hl, flags, bigEndian)
  }

  /** The fragmenting branch of `ip_send`; the Ethernet header is already in the frame buffer. */
  method SendFragments(eth: Eth, frame: array<byte>, buf: array<byte>, len: nat, mtu: nat, flags: nat -> int,
                       bigEndian: bool)
    returns (r: int)
    requires frame != buf && frame.Length == ETH_LEN_MAX && Oversized(buf[..], len, mtu)
    modifies eth, frame
    ensures var all := AllFrames(old(frame[..]), old(buf[..]), len, mtu, flags, bigEndian);
            if |all| <= old(eth.good) then r == len && eth.sent == old(eth.sent) + all
            else r == -1 && eth.sent == old(eth.sent) + all[..old(eth.good)]
  {
    hide Splice, Built, Frames;
    ghost var b := buf[..];
    var hl := IpHeaderLength(buf);
    assert HeaderLen(b[..hl], 0) == hl;
    FramedBy(frame[..], b[..hl], hl);
    Memmove(frame, ETH_HDR_LEN, buf, 0, hl);
    assert buf[0..hl] == b[..hl];
    r := SendFrom(eth, frame, hl, buf, len, mtu - hl, flags, bigEndian);
  }

  method IpHeaderLength(buf: array<byte>) returns (hl: nat)
    requires buf.Length > 0
    ensures hl == HeaderLen(buf[..], 0)
  {
    hl := 4 * (buf[0] as nat % 16);
  }

  lemma {:induction false} FramedBy(frame: seq<byte>, header: seq<byte>, hl: nat)
    requires |frame| == ETH_LEN_MAX && |header| == hl && 20 <= hl <= 60 && HeaderLen(header, 0) == hl
    ensures Framed(Splice(frame, ETH_HDR_LEN, header), hl)
  {
    hide Splice;
    SpliceAt(frame, ETH_HDR_LEN, header);
  }

  /** Builds and sends one fragment. */
  method SendOne(eth: Eth, frame: array<byte>, hl: nat, buf: array<byte>, p: nat, n: nat, at: nat, more: bool, flags: int,
                 bigEndian: bool) returns (sent: bool)
    requires frame != buf && Framed(frame[..], hl) && ETH_HDR_LEN + hl + n <= ETH_LEN_MAX && at <= 65535
    requires p + n <= buf.Length
    modifies eth, frame
    ensures frame[..] == Built(old(frame[..]), hl, buf[p..p + n], at, more, flags, bigEndian) && Framed(frame[..], hl)
    ensures sent == (old(eth.good) > 0) && eth.good == if sent then old(eth.good) - 1 else 0
    ensures eth.sent == if sent then old(eth.sent) + [frame[..][..ETH_HDR_LEN + hl + n]] else old(eth.sent)
  {
    hide Built;
    Build(frame, hl, buf, p, n, at, more, flags, bigEndian);
    BuiltParts(old(frame[..]), hl, buf[p..p + n], at, more, flags, bigEndian);
    var i := ETH_HDR_LEN + hl + n;
    assert frame[..][..i] == frame[..i];
    var r := eth.Send(frame[..i]);
    return r == i;
  }

  method SendFrom(eth: Eth, frame: array<byte>, hl: nat, buf: array<byte>, len: nat, size: nat, flags: nat -> int,
                  bigEndian: bool)
    returns (r: int)
    requires frame != buf && Framed(frame[..], hl) && 0 < size && ETH_HDR_LEN + hl + size <= ETH_LEN_MAX
    requires hl + size <= len <= buf.Length && len <= 65535
    modifies eth, frame
    ensures var all := Frames(old(frame[..]), hl, old(buf[..])[hl..len], 0, size, flags, bigEndian);
            if |all| <= old(eth.good) then r == len && eth.sent == old(eth.sent) + all
            else r == -1 && eth.sent == old(eth.sent) + all[..old(eth.good)]
  {
    hide Built, Framed, Frames;
    ghost var whole := buf[..];
    ghost var payload := whole[hl..len];
    ghost var all := Frames(frame[..], hl, payload, 0, size, flags, bigEndian);
    ghost var done: seq<seq<byte>> := [];
    var start, end, p, fraglen := hl, len, hl, size;
    assert all == done + Frames(frame[..], hl, payload, 0, size, flags, bigEndian);
    while p < end
      invariant start <= p <= end
      invariant p < end ==> fraglen == Least(size, end - p)
      invariant Framed(frame[..], hl)
      invariant buf[..] == whole
      invariant all == done + Frames(frame[..], hl, payload, p - start, size, flags, bigEndian)
      invariant eth.sent == old(eth.sent) + done && eth.good + |done| == old(eth.good)
    {
      ghost var was := frame[..];
      PartOfPayload(buf, hl, len, p, fraglen);
      var sent := SendOne(eth, frame, hl, buf, p, fraglen, p - start, p + fraglen < end, flags(p - start), bigEndian);
      OneMoreSent(all, done, was, hl, payload, p - start, size, flags, bigEndian, fraglen, frame[..]);
      if !sent { return -1; }
      ghost var x := frame[..][..ETH_HDR_LEN + hl + fraglen];
      Appended(old(eth.sent), done, x);
      done := done + [x];
      p := p + fraglen;
      if end - p < fraglen { fraglen := end - p; }
    }
    FramesEnd(frame[..], hl, payload, p - start, size, flags, bigEndian);
    assert done + [] == done;
    r := len;
  }

  lemma {:induction false} PartOfPayload(buf: array<byte>, hl: nat, len: nat, p: nat, n: nat)
    requires hl <= p && p + n <= len <= buf.Length
    ensures buf[p..p + n] == buf[..][hl..len][p - hl..p - hl + n]
  {
    var b := buf[..];
    assert buf[p..p + n] == b[p..p + n];
    assert b[hl..len][p - hl..p - hl + n] == b[p..p + n];
  }

  lemma {:induction false} FramesUnfold(frame: seq<byte>, hl: nat, payload: seq<byte>, at: nat, size: nat,
                                        flags: nat -> int,
                                        bigEndian: bool, n: nat, built: seq<byte>)
    requires Framed(frame, hl) && 0 < size && ETH_HDR_LEN + hl + size <= ETH_LEN_MAX && at < |payload| <= 65535
    requires n == Least(size, |payload| - at) && Framed(built, hl)
    requires built == Built(frame, hl, payload[at..at + n], at, at + n < |payload|, flags(at), bigEndian)
    ensures Frames(frame, hl, payload, at, size, flags, bigEndian)
         == [built[..ETH_HDR_LEN + hl + n]] + Frames(built, hl, payload, at + n, size, flags, bigEndian)
  {
    hide Built, Framed;
  }

  lemma {:induction false} FramesEnd(frame: seq<byte>, hl: nat, payload: seq<byte>, at: nat, size: nat, flags: nat -> int,
                                     bigEndian: bool)
    requires Framed(frame, hl) && 0 < size && ETH_HDR_LEN + hl + size <= ETH_LEN_MAX && at == |payload| <= 65535
    ensures Frames(frame, hl, payload, at, size, flags, bigEndian) == []
  {}

  lemma {:induction false} Appended<T>(a: seq<T>, b: seq<T>, x: T)
    ensures (a + b) + [x] == a + (b + [x])
  {}

  /** The next of all frames: what is sent if the loop stops here, and what is left if it goes on. */
  lemma {:induction false} OneMoreSent(all: seq<seq<byte>>, done: seq<seq<byte>>, frame: seq<byte>, hl: nat,
                                       payload: seq<byte>, at: nat, size: nat, flags: nat -> int, bigEndian: bool,
                                       n: nat, built: seq<byte>)
    requires Framed(frame, hl) && 0 < size && ETH_HDR_LEN + hl + size <= ETH_LEN_MAX && at < |payload| <= 65535
    requires n == Least(size, |payload| - at) && Framed(built, hl)
    requires built == Built(frame, hl, payload[at..at + n], at, at + n < |payload|, flags(at), bigEndian)
    requires all == done + Frames(frame, hl, payload, at, size, flags, bigEndian)
    ensures |all| > |done| && all[..|done|] == done
    ensures all == (done + [built[..ETH_HDR_LEN + hl + n]]) + Frames(built, hl, payload, at + n, size, flags, bigEndian)
  {
    hide Built, Framed, Frames;
    FramesUnfold(frame, hl, payload, at, size, flags, bigEndian, n, built);
  }

  /** Every frame but the last one fills the MTU. */
  lemma {:induction false} FrameSizes(frame: seq<byte>, hl: nat, payload: seq<byte>, at: nat, size: nat,
                                      flags: nat -> int, bigEndian: bool)
    requires Framed(frame, hl) && 0 < size && ETH_HDR_LEN + hl + size <= ETH_LEN_MAX
    requires at <= |payload| <= 65535
    ensures var fs := Frames(frame, hl, payload, at, size, flags, bigEndian);
            && (forall k :: 0 <= k < |fs| - 1 ==> |fs[k]| == ETH_HDR_LEN + hl + size)
            && (fs != [] <==> at < |payload|)
            && (fs != [] ==> ETH_HDR_LEN + hl < |fs[|fs| - 1]| <= ETH_HDR_LEN + hl + size)
    decreases |payload| - at
  {
    hide Built, Framed, Frames;
    if at == |payload| {
      FramesEnd(frame, hl, payload, at, size, flags, bigEndian);
    } else {
      var n := Least(size, |payload| - at);
      var more := at + n < |payload|;
      var built := Built(frame, hl, payload[at..at + n], at, more, flags(at), bigEndian);
      BuiltParts(frame, hl, payload[at..at + n], at, more, flags(at), bigEndian);
      FramesUnfold(frame, hl, payload, at, size, flags, bigEndian, n, built);
      FrameSizes(built, hl, payload, at + n, size, flags, bigEndian);
    }
  }

  // ---- what a receiver sees of a frame ----

  predicate IsFrame(f: seq<byte>) {
    |f| >= ETH_HDR_LEN + 20 && 20 <= HeaderLen(f, ETH_HDR_LEN) && ETH_HDR_LEN + HeaderLen(f, ETH_HDR_LEN) <= |f|
  }

  function Data(f: seq<byte>): seq<byte>
    requires IsFrame(f)
  {
    f[ETH_HDR_LEN + HeaderLen(f, ETH_HDR_LEN)..]
  }

  /** Where its data belongs: the offset counts units of eight bytes. */
  function Place(f: seq<byte>): nat
    requires IsFrame(f)
  {
    OffsetField(f, ETH_HDR_LEN) % 0x2000 * 8
  }

  predicate More(f: seq<byte>)
    requires IsFrame(f)
  {
    OffsetField(f, ETH_HDR_LEN) / 0x2000 % 2 == 1
  }

  predicate Covers(f: seq<byte>, j: nat) {
    IsFrame(f) && Place(f) <= j < Place(f) + |Data(f)|
  }

  /** The data of `f` is the part of the payload at its place, and only the end has `IP_MF` clear. */
  predicate Fits(f: seq<byte>, payload: seq<byte>) {
    && IsFrame(f) && Place(f) + |Data(f)| <= |payload|
    && Data(f) == payload[Place(f)..Place(f) + |Data(f)|]
    && (More(f) <==> Place(f) + |Data(f)| < |payload|)
  }

  ghost predicate Covered(fs: seq<seq<byte>>, j: nat) {
    exists k :: 0 <= k < |fs| && Covers(fs[k], j)
  }

  ghost predicate NoGap(fs: seq<seq<byte>>, at: nat, end: nat) {
    forall j: nat :: at <= j < end ==> Covered(fs, j)
  }

  ghost predicate NoOverlap(fs: seq<seq<byte>>) {
    forall j: nat, k, l :: 0 <= k < |fs| && 0 <= l < |fs| && Covers(fs[k], j) && Covers(fs[l], j) ==> k == l
  }

  /** In whatever order the frames come in, they give the payload from `at` on: each byte of it once
      and in its place. */
  ghost predicate Reassembles(fs: seq<seq<byte>>, at: nat, payload: seq<byte>) {
    && (forall k :: 0 <= k < |fs| ==> Fits(fs[k], payload) && at <= Place(fs[k]))
    && NoGap(fs, at, |payload|) && NoOverlap(fs)
  }

  lemma {:induction false} FragOffParts(at: nat, more: bool)
    requires at <= 65535
    ensures FragOff(at, more) % 0x2000 == at / 8 && (FragOff(at, more) / 0x2000 % 2 == 1 <==> more)
    ensures Whole(FragOff(at, more)) <==> !more && at < 8
  {}

  lemma {:induction false} FragmentFacts(frame: seq<byte>, hl: nat, data: seq<byte>, at: nat, more: bool, flags: int,
                                         bigEndian: bool,
                                         built: seq<byte>, f: seq<byte>)
    requires Framed(frame, hl) && ETH_HDR_LEN + hl + |data| <= ETH_LEN_MAX && at <= 65535
    requires built == Built(frame, hl, data, at, more, flags, bigEndian) && f == built[..ETH_HDR_LEN + hl + |data|]
    ensures Framed(built, hl) && IsFrame(f) && HeaderLen(f, ETH_HDR_LEN) == hl
    ensures |Data(f)| == |data| && Place(f) == at / 8 * 8 && More(f) == more
    ensures more || at >= 8 ==> Data(f) == data
  {
    hide FragOff, Filled, IpSummed, Whole, Built, OffsetField, HeaderLen;
    BuiltParts(frame, hl, data, at, more, flags, bigEndian);
    FragOffParts(at, more);
    SameFields(built, f);
    if more || at >= 8 { FragmentData(frame, hl, data, at, more, flags, bigEndian); }
  }

  lemma {:induction false} SameFields(built: seq<byte>, f: seq<byte>)
    requires ETH_HDR_LEN + 20 <= |f| <= |built| && f == built[..|f|]
    ensures HeaderLen(f, ETH_HDR_LEN) == HeaderLen(built, ETH_HDR_LEN)
    ensures OffsetField(f, ETH_HDR_LEN) == OffsetField(built, ETH_HDR_LEN)
  {
    assert forall k :: 0 <= k < |f| ==> f[k] == built[k];
  }

  /** A real fragment leaves with the data that was put into it. */
  lemma {:induction false} FragmentData(frame: seq<byte>, hl: nat, data: seq<byte>, at: nat, more: bool, flags: int,
                                        bigEndian: bool)
    requires Framed(frame, hl) && ETH_HDR_LEN + hl + |data| <= ETH_LEN_MAX && at <= 65535 && (more || at >= 8)
    ensures var e := ETH_HDR_LEN + hl;
            Built(frame, hl, data, at, more, flags, bigEndian)[..e + |data|][e..] == data
  {
    hide FragOff, Filled, IpSummed, Whole, OffsetField, Summable;
    var filled := Filled(frame, hl, data, at, more);
    FragOffParts(at, more);
    FilledIsSummable(frame, hl, data, at, more, flags);
    FilledParts(frame, hl, data, at, more);
    WholeIff(filled, ETH_HDR_LEN);
    FragmentKeepsPayload(filled, ETH_HDR_LEN, hl + |data|, flags, bigEndian);
    SamePayload(filled, Built(frame, hl, data, at, more, flags, bigEndian), ETH_HDR_LEN + hl, |data|);
  }

  lemma {:induction false} SamePayload(b: seq<byte>, r: seq<byte>, e: nat, n: nat)
    requires |r| == |b| && ETH_HDR_LEN + 12 <= e && e + n <= |b| && r[ETH_HDR_LEN + 12..] == b[ETH_HDR_LEN + 12..]
    ensures r[..e + n][e..] == b[e..e + n]
  {
    assert forall k :: ETH_HDR_LEN + 12 <= k < |b| ==> r[k] == r[ETH_HDR_LEN + 12..][k - ETH_HDR_LEN - 12] == b[k];
  }

  lemma {:induction false} ReassembleStep(f: seq<byte>, gs: seq<seq<byte>>, at: nat, payload: seq<byte>)
    requires IsFrame(f) && Fits(f, payload) && Place(f) == at && Reassembles(gs, at + |Data(f)|, payload)
    ensures Reassembles([f] + gs, at, payload)
  {
    hide Fits, IsFrame, Place, Data, NoGap, NoOverlap;
    var fs := [f] + gs;
    forall k | 0 <= k < |fs|
      ensures Fits(fs[k], payload) && IsFrame(fs[k]) && at <= Place(fs[k])
    {
      if k > 0 {
        assert fs[k] == gs[k - 1];
        FitsIsFrame(gs[k - 1], payload);
      }
    }
    GapStep(f, gs, at, payload);
    OverlapStep(f, gs, at, payload);
  }

  lemma {:induction false} FitsIsFrame(f: seq<byte>, payload: seq<byte>)
    requires Fits(f, payload)
    ensures IsFrame(f)
  {}

  lemma {:induction false} GapStep(f: seq<byte>, gs: seq<seq<byte>>, at: nat, payload: seq<byte>)
    requires IsFrame(f) && Place(f) == at && NoGap(gs, at + |Data(f)|, |payload|)
    ensures NoGap([f] + gs, at, |payload|)
  {
    hide IsFrame, Place, Data;
    var fs, next := [f] + gs, at + |Data(f)|;
    forall j: nat | at <= j < |payload|
      ensures Covered(fs, j)
    {
      if j < next {
        assert Covers(fs[0], j);
      } else {
        assert Covered(gs, j);
        var k :| 0 <= k < |gs| && Covers(gs[k], j);
        assert Covers(fs[k + 1], j);
      }
    }
  }

  lemma {:induction false} OverlapStep(f: seq<byte>, gs: seq<seq<byte>>, at: nat, payload: seq<byte>)
    requires IsFrame(f) && Place(f) == at && NoOverlap(gs)
    requires forall k :: 0 <= k < |gs| ==> Fits(gs[k], payload) && at + |Data(f)| <= Place(gs[k])
    ensures NoOverlap([f] + gs)
  {
    hide Fits, IsFrame, Place, Data;
    var fs := [f] + gs;
    forall j: nat, k, l | 0 <= k < |fs| && 0 <= l < |fs| && Covers(fs[k], j) && Covers(fs[l], j)
      ensures k == l
    {
      if k > 0 { assert fs[k] == gs[k - 1]; }
      if l > 0 { assert fs[l] == gs[l - 1]; }
    }
  }

  /** Fragments of a multiple of eight bytes are put together to the payload again. */
  lemma {:induction false} FramesReassemble(frame: seq<byte>, hl: nat, payload: seq<byte>, at: nat, size: nat,
                                            flags: nat -> int,
                                            bigEndian: bool)
    requires Framed(frame, hl) && 0 < size && ETH_HDR_LEN + hl + size <= ETH_LEN_MAX
    requires size < |payload| && at <= |payload| <= 65535
    requires size % 8 == 0 && (at % 8 == 0 || at == |payload|)
    ensures Reassembles(Frames(frame, hl, payload, at, size, flags, bigEndian), at, payload)
    decreases |payload| - at
  {
    hide Framed, Built, Reassembles, IsFrame, Data, Place, More, Frames, HeaderLen;
    if at == |payload| {
      NothingLeft(frame, hl, payload, at, size, flags, bigEndian);
    } else {
      var n := Least(size, |payload| - at);
      var data, more := payload[at..at + n], at + n < |payload|;
      var built := Built(frame, hl, data, at, more, flags(at), bigEndian);
      var f := built[..ETH_HDR_LEN + hl + n];
      FragmentFacts(frame, hl, data, at, more, flags(at), bigEndian, built, f);
      FramesUnfold(frame, hl, payload, at, size, flags, bigEndian, n, built);
      FramesReassemble(built, hl, payload, at + n, size, flags, bigEndian);
      ReassembleStep(f, Frames(built, hl, payload, at + n, size, flags, bigEndian), at, payload);
    }
  }

  lemma {:induction false} NothingLeft(frame: seq<byte>, hl: nat, payload: seq<byte>, at: nat, size: nat,
                                       flags: nat -> int,
                                       bigEndian: bool)
    requires Framed(frame, hl) && 0 < size && ETH_HDR_LEN + hl + size <= ETH_LEN_MAX && at == |payload| <= 65535
    ensures Reassembles(Frames(frame, hl, payload, at, size, flags, bigEndian), at, payload)
  {
    hide Frames;
    FramesEnd(frame, hl, payload, at, size, flags, bigEndian);
  }

  /** Otherwise the second fragment lands on the first. */
  lemma {:induction false} FramesOverlap(frame: seq<byte>, hl: nat, payload: seq<byte>, size: nat, flags: nat -> int,
                                         bigEndian: bool)
    requires Framed(frame, hl) && 0 < size && ETH_HDR_LEN + hl + size <= ETH_LEN_MAX
    requires size < |payload| <= 65535 && size % 8 != 0
    ensures !NoOverlap(Frames(frame, hl, payload, 0, size, flags, bigEndian))
  {
    hide Framed, Built, IsFrame, Data, Place, More, Frames, HeaderLen;
    var data := payload[0..size];
    var built := Built(frame, hl, data, 0, true, flags(0), bigEndian);
    var f := built[..ETH_HDR_LEN + hl + size];
    FragmentFacts(frame, hl, data, 0, true, flags(0), bigEndian, built, f);
    FramesUnfold(frame, hl, payload, 0, size, flags, bigEndian, size, built);
    var n := Least(size, |payload| - size);
    var data2, more := payload[size..size + n], size + n < |payload|;
    var built2 := Built(built, hl, data2, size, more, flags(size), bigEndian);
    var f2 := built2[..ETH_HDR_LEN + hl + n];
    FragmentFacts(built, hl, data2, size, more, flags(size), bigEndian, built2, f2);
    FramesUnfold(built, hl, payload, size, size, flags, bigEndian, n, built2);
    var fs := Frames(frame, hl, payload, 0, size, flags, bigEndian);
    assert fs[0] == f && fs[1] == f2;
    assert Covers(fs[0], size / 8 * 8) && Covers(fs[1], size / 8 * 8);
  }

  /** The receiver gets the payload back, from frames in any order, exactly when the MTU less the
      header is a multiple of eight. */
  lemma {:induction false} ReassemblyIff(frame: seq<byte>, b: seq<byte>, len: nat, mtu: nat, flags: nat -> int,
                                         bigEndian: bool)
    requires |frame| == ETH_LEN_MAX && Oversized(b, len, mtu)
    ensures Reassembles(AllFrames(frame, b, len, mtu, flags, bigEndian), 0, b[HeaderLen(b, 0)..len])
       <==> (mtu - HeaderLen(b, 0)) % 8 == 0
  {
    hide Framed, NoOverlap, NoGap, Fits, Frames, Splice;
    var hl := HeaderLen(b, 0);
    FramedBy(frame, b[..hl], hl);
    var start, payload := Splice(frame, ETH_HDR_LEN, b[..hl]), b[hl..len];
    if (mtu - hl) % 8 == 0 {
      FramesReassemble(start, hl, payload, 0, mtu - hl, flags, bigEndian);
    } else {
      FramesOverlap(start, hl, payload, mtu - hl, flags, bigEndian);
    }
  }

  // ---- the headers of the fragments ----

  /** The bytes of a header that differ between fragments: length, offset and checksum. */
  predicate PerFragment(k: nat) {
    2 <= k < 4 || 6 <= k < 8 || 10 <= k < 12
  }

  ghost predicate SameHeader(f: seq<byte>, frame: seq<byte>, hl: nat) {
    && |f| >= ETH_HDR_LEN + hl && |frame| >= ETH_HDR_LEN + hl
    && (forall k {:trigger f[k]} ::
          0 <= k < ETH_HDR_LEN + hl && (k < ETH_HDR_LEN || !PerFragment(k - ETH_HDR_LEN)) ==> f[k] == frame[k])
  }

  /** The header says how long the fragment is, verifies, and is otherwise that of the packet. */
  ghost predicate GoodHeader(f: seq<byte>, frame: seq<byte>, hl: nat, mtu: nat, bigEndian: bool) {
    && ETH_HDR_LEN + 20 <= ETH_HDR_LEN + hl <= |f| <= ETH_HDR_LEN + mtu
    && 256 * f[ETH_HDR_LEN + 2] as nat + f[ETH_HDR_LEN + 3] as nat == |f| - ETH_HDR_LEN
    && Verifies(f[ETH_HDR_LEN..ETH_HDR_LEN + hl], bigEndian)
    && SameHeader(f, frame, hl)
  }

  lemma {:induction false} BuiltHeader(frame: seq<byte>, hl: nat, data: seq<byte>, at: nat, more: bool, flags: int,
                                       bigEndian: bool,
                                       built: seq<byte>, mtu: nat)
    requires Framed(frame, hl) && ETH_HDR_LEN + hl + |data| <= ETH_LEN_MAX && at <= 65535 && hl + |data| <= mtu
    requires built == Built(frame, hl, data, at, more, flags, bigEndian)
    ensures GoodHeader(built[..ETH_HDR_LEN + hl + |data|], frame, hl, mtu, bigEndian)
  {
    hide FragOff, Filled, IpSummed, Verifies, Summable, Built;
    var filled, f := Filled(frame, hl, data, at, more), built[..ETH_HDR_LEN + hl + |data|];
    FilledIsSummable(frame, hl, data, at, more, flags);
    FilledParts(frame, hl, data, at, more);
    BuiltParts(frame, hl, data, at, more, flags, bigEndian);
    BuiltVerifies(frame, hl, data, at, more, flags, bigEndian);
    assert f[ETH_HDR_LEN..ETH_HDR_LEN + hl] == built[ETH_HDR_LEN..ETH_HDR_LEN + hl];
    var w := filled[ETH_HDR_LEN + 2..ETH_HDR_LEN + 4];
    assert w[0] == filled[ETH_HDR_LEN + 2] && w[1] == filled[ETH_HDR_LEN + 3];
    HeaderCopied(filled, built, ETH_HDR_LEN + hl);
  }

  lemma {:induction false} BuiltVerifies(frame: seq<byte>, hl: nat, data: seq<byte>, at: nat, more: bool, flags: int,
                                         bigEndian: bool)
    requires Framed(frame, hl) && ETH_HDR_LEN + hl + |data| <= ETH_LEN_MAX && at <= 65535
    ensures Verifies(Built(frame, hl, data, at, more, flags, bigEndian)[ETH_HDR_LEN..ETH_HDR_LEN + hl], bigEndian)
  {
    hide FragOff, Filled, IpSummed, Verifies, Summable;
    FilledIsSummable(frame, hl, data, at, more, flags);
    PacketHeaderVerifies(Filled(frame, hl, data, at, more), ETH_HDR_LEN, hl + |data|, flags, bigEndian);
  }

  lemma {:induction false} HeaderCopied(f: seq<byte>, r: seq<byte>, e: nat)
    requires |f| == |r| && ETH_HDR_LEN + 12 <= e <= |f|
    requires r[..ETH_HDR_LEN + 10] == f[..ETH_HDR_LEN + 10] && r[ETH_HDR_LEN + 12..e] == f[ETH_HDR_LEN + 12..e]
    ensures forall k {:trigger r[k]} :: 0 <= k < e && !(ETH_HDR_LEN + 10 <= k < ETH_HDR_LEN + 12) ==> r[k] == f[k]
  {
    assert forall k :: 0 <= k < ETH_HDR_LEN + 10 ==> r[k] == r[..ETH_HDR_LEN + 10][k] == f[k];
    assert forall k :: ETH_HDR_LEN + 12 <= k < e ==> r[k] == r[ETH_HDR_LEN + 12..e][k - ETH_HDR_LEN - 12] == f[k];
  }

  /** So it is for every fragment, though each is built over the one before. */
  lemma {:induction false} FrameHeaders(frame: seq<byte>, hl: nat, payload: seq<byte>, at: nat, size: nat,
                                        flags: nat -> int,
                                        bigEndian: bool, first: seq<byte>)
    requires Framed(frame, hl) && 0 < size && ETH_HDR_LEN + hl + size <= ETH_LEN_MAX && at <= |payload| <= 65535
    requires SameHeader(frame, first, hl)
    ensures forall f :: f in Frames(frame, hl, payload, at, size, flags, bigEndian) ==>
              GoodHeader(f, first, hl, hl + size, bigEndian)
    decreases |payload| - at
  {
    hide Built, GoodHeader, Frames, SameHeader;
    if at == |payload| {
      FramesEnd(frame, hl, payload, at, size, flags, bigEndian);
    } else {
      var n := Least(size, |payload| - at);
      var data, more := payload[at..at + n], at + n < |payload|;
      var built := Built(frame, hl, data, at, more, flags(at), bigEndian);
      var f := built[..ETH_HDR_LEN + hl + n];
      BuiltParts(frame, hl, data, at, more, flags(at), bigEndian);
      BuiltHeader(frame, hl, data, at, more, flags(at), bigEndian, built, hl + size);
      HeaderThrough(f, built, frame, first, hl, hl + size, bigEndian);
      FramesUnfold(frame, hl, payload, at, size, flags, bigEndian, n, built);
      FrameHeaders(built, hl, payload, at + n, size, flags, bigEndian, first);
    }
  }

  lemma {:induction false} HeaderThrough(f: seq<byte>, built: seq<byte>, frame: seq<byte>, first: seq<byte>, hl: nat,
                                         mtu: nat,
                                         bigEndian: bool)
    requires GoodHeader(f, frame, hl, mtu, bigEndian) && SameHeader(frame, first, hl)
    requires |f| <= |built| && f == built[..|f|]
    ensures GoodHeader(f, first, hl, mtu, bigEndian) && SameHeader(built, first, hl)
  {
    hide Verifies;
    assert forall k :: 0 <= k < |f| ==> built[k] == f[k];
  }

  /** Every fragment carries the packet's header, its own length and a checksum that verifies, and
      keeps to the MTU. */
  lemma {:induction false} FragmentHeaders(frame: seq<byte>, b: seq<byte>, len: nat, mtu: nat, flags: nat -> int,
                                           bigEndian: bool)
    requires |frame| == ETH_LEN_MAX && Oversized(b, len, mtu)
    ensures forall f :: f in AllFrames(frame, b, len, mtu, flags, bigEndian) ==>
              GoodHeader(f, Splice(frame, ETH_HDR_LEN, b[..HeaderLen(b, 0)]), HeaderLen(b, 0), mtu, bigEndian)
  {
    hide Framed, GoodHeader, Frames, Splice;
    var hl := HeaderLen(b, 0);
    FramedBy(frame, b[..hl], hl);
    var start := Splice(frame, ETH_HDR_LEN, b[..hl]);
    FrameHeaders(start, hl, b[hl..len], 0, mtu - hl, flags, bigEndian, start);
  }

  /** `ip_send` once the interface is known and the Ethernet header packed. */
  method IpSend(eth: Eth, frame: array<byte>, buf: array<byte>, len: nat, mtu: nat, flags: nat -> int, bigEndian: bool)
    returns (r: int)
    requires frame != buf && frame.Length == ETH_LEN_MAX && len <= buf.Length
    requires if len > mtu then Oversized(buf[..], len, mtu) else ETH_HDR_LEN + len <= ETH_LEN_MAX
    modifies eth, frame
    ensures var all := if len > mtu then AllFrames(old(frame[..]), old(buf[..]), len, mtu, flags, bigEndian)
                       else [old(frame[..])[..ETH_HDR_LEN] + old(buf[..])[..len]];
            if |all| <= old(eth.good) then r == len && eth.sent == old(eth.sent) + all
            else r == -1 && eth.sent == old(eth.sent) + all[..old(eth.good)]
  {
    hide AllFrames, Oversized, Splice;
    if len > mtu {
      r := SendFragments(eth, frame, buf, len, mtu, flags, bigEndian);
      return;
    }
    ghost var was := frame[..];
    Memmove(frame, ETH_HDR_LEN, buf, 0, len);
    var i := ETH_HDR_LEN + len;
    WholeFrame(was, buf[..][..len]);
    assert buf[0..len] == buf[..][..len] && frame[..][..i] == frame[..i];
    var n := eth.Send(frame[..i]);
    if n != i { return -1; }
    r := len;
  }

  lemma {:induction false} WholeFrame(frame: seq<byte>, packet: seq<byte>)
    requires |frame| == ETH_LEN_MAX && ETH_HDR_LEN + |packet| <= ETH_LEN_MAX
    ensures Splice(frame, ETH_HDR_LEN, packet)[..ETH_HDR_LEN + |packet|] == frame[..ETH_HDR_LEN] + packet
  {}
}
