/** The Internet checksum: `ip_cksum_add` of src/ip-util.c and `ip_cksum_carry` of
    include/dnet/ip.h (sections 1 and 2 of RFC 1071). A host is little-endian or big-endian, an
    `int` has 32 bits. */
module Cksum {
  import opened ByteOrder
  import opened Memory
  import Prefix

  const INT_MIN: int := -0x8000_0000
  const INT_MAX: int := 0x7FFF_FFFF
  type int32 = x: int | INT_MIN <= x <= INT_MAX witness 0

  /** What an `int` holds of `x`. */
  function Int32(x: int): int32 {
    (x + 0x8000_0000) % 0x1_0000_0000 - 0x8000_0000
  }

  // ---- sums of words ----

  /** The sum of the words of `s`; a last odd byte is followed by a zero. */
  function WordSum(s: seq<byte>, bigEndian: bool): nat {
    if s == [] then 0
    else if |s| == 1 then HostWord(s[0], 0, bigEndian)
    else HostWord(s[0], s[1], bigEndian) + WordSum(s[2..], bigEndian)
  }

  /** Sums compose over a split at an even offset. */
  lemma {:induction false} SumOfParts(a: seq<byte>, b: seq<byte>, bigEndian: bool)
    requires |a| % 2 == 0
    ensures WordSum(a + b, bigEndian) == WordSum(a, bigEndian) + WordSum(b, bigEndian)
  {
    hide HostWord;
    if a == [] {
      assert a + b == b;
    } else {
      SumOfParts(a[2..], b, bigEndian);
      assert (a + b)[2..] == a[2..] + b && (a + b)[0] == a[0] && (a + b)[1] == a[1];
    }
  }

  lemma {:induction false} SumBound(s: seq<byte>, bigEndian: bool)
    ensures WordSum(s, bigEndian) <= (|s| + 1) / 2 * 65535
  {
    hide HostWord;
    if |s| > 1 { SumBound(s[2..], bigEndian); }
  }

  /** No sum over an IP packet overflows an `int`. */
  lemma {:induction false} PacketSumFits(s: seq<byte>, bigEndian: bool)
    requires |s| <= 65535
    ensures WordSum(s, bigEndian) <= INT_MAX
  {
    hide WordSum;
    SumBound(s, bigEndian);
  }

  lemma {:induction false} Int32Adds(a: int, b: int)
    ensures Int32(Int32(a) + b) == Int32(a + b)
  {}

  /** A last odd byte counts as if a zero followed. */
  lemma {:induction false} PaddingIsFree(s: seq<byte>, bigEndian: bool)
    requires |s| % 2 == 1
    ensures WordSum(s, bigEndian) == WordSum(s + [0], bigEndian)
  {
    hide HostWord;
    var n := |s|;
    var front, x := s[..n - 1], s[n - 1];
    SumOfParts(front, [x], bigEndian);
    SumOfParts(front, [x, 0], bigEndian);
    SumOfWord([x, 0], bigEndian);
    assert s == front + [x] && s + [0] == front + [x, 0];
  }

  /** The bytes with a zero behind an odd one. */
  function Padded(s: seq<byte>): seq<byte> {
    if |s| % 2 == 0 then s else s + [0]
  }

  lemma {:induction false} EvenSumIsNumber(s: seq<byte>) returns (q: int)
    requires |s| % 2 == 0
    ensures Prefix.Value(s) == WordSum(s, true) + 65535 * q
  {
    hide WordSum;
    if s == [] {
      q := 0;
      EmptySum(s, 0, true);
    } else {
      var n := |s|;
      var front, last := s[..n - 2], s[n - 2..];
      var p := EvenSumIsNumber(front);
      assert s == front + last;
      SumOfParts(front, last, true);
      SumOfWord(last, true);
      assert Prefix.Value(s) == 256 * Prefix.Value(s[..n - 1]) + s[n - 1];
      assert s[..n - 1][..n - 2] == front;
      assert Prefix.Value(s[..n - 1]) == 256 * Prefix.Value(front) + s[n - 2];
      q := Prefix.Value(front) + p;
    }
  }

  /** The sum is, modulo 65535, the number that the bytes spell; on a little-endian host it is that
      number divided by 256. */
  lemma {:induction false} SumIsNumber(s: seq<byte>, bigEndian: bool)
    ensures ((if bigEndian then 1 else 256) * WordSum(s, bigEndian) - Prefix.Value(Padded(s))) % 65535 == 0
  {
    hide WordSum, Prefix.Value;
    if |s| % 2 == 1 { PaddingIsFree(s, bigEndian); }
    var t := Padded(s);
    var q := EvenSumIsNumber(t);
    if bigEndian {
      assert WordSum(s, true) - Prefix.Value(t) == 65535 * -q;
      Multiple(-q);
    } else {
      var p := SwappedSum(t);
      assert 256 * WordSum(s, false) - Prefix.Value(t) == 65535 * (p - q);
      Multiple(p - q);
    }
  }

  // ---- ip_cksum_add ----

  /** How far the loop reads: with no length at all the unrolled body still runs once. */
  function Reach(len: nat): nat {
    if len == 0 then 32 else len
  }

  /** What `ip_cksum_add` returns. A single byte takes a path of its own that drops `cksum`. */
  function CksumAdd(b: seq<byte>, off: nat, len: nat, cksum: int, bigEndian: bool): int32
    requires off + Reach(len) <= |b|
  {
    if len == 1 then Int32(WordSum(b[off..off + 1], bigEndian))
    else Int32(cksum + WordSum(b[off..off + Reach(len)], bigEndian))
  }

  /** The plain word sum is added exactly when the length is not 0 or 1, or when those two paths
      happen to make no difference. */
  lemma {:induction false} AddsPlainSumIff(b: seq<byte>, off: nat, len: nat, cksum: int32, bigEndian: bool)
    requires off + Reach(len) <= |b|
    ensures CksumAdd(b, off, len, cksum, bigEndian) == Int32(cksum + WordSum(b[off..off + len], bigEndian))
       <==> len >= 2 || (len == 1 && cksum == 0) || (len == 0 && WordSum(b[off..off + 32], bigEndian) == 0)
    ensures len == 1 ==> CksumAdd(b, off, len, cksum, bigEndian) == HostWord(b[off], 0, bigEndian)
    ensures len == 0 ==> CksumAdd(b, off, len, cksum, bigEndian) == CksumAdd(b, off, 32, cksum, bigEndian)
  {
    hide WordSum, HostWord;
    if len == 0 {
      SumBound(b[off..off + 32], bigEndian);
      EmptySum(b, off, bigEndian);
    } else if len == 1 {
      EmptySum(b, off, bigEndian);
      LastByte(b, off, off, bigEndian);
      InRange(HostWord(b[off], 0, bigEndian));
    }
  }

  lemma {:induction false} EmptySum(b: seq<byte>, off: nat, bigEndian: bool)
    requires off <= |b|
    ensures WordSum(b[off..off], bigEndian) == 0
  {}

  lemma {:induction false} NextWord(b: seq<byte>, off: nat, sp: nat, bigEndian: bool)
    requires off <= sp && sp + 2 <= |b| && (sp - off) % 2 == 0
    ensures WordSum(b[off..sp + 2], bigEndian) == WordSum(b[off..sp], bigEndian) + HostWord(b[sp], b[sp + 1], bigEndian)
  {
    hide HostWord;
    var last := b[sp..sp + 2];
    SumOfParts(b[off..sp], last, bigEndian);
    assert b[off..sp + 2] == b[off..sp] + last;
    assert last[2..] == [];
  }

  /** The unrolled body of the loop, entered at `case k`: `k` words are added. */
  method AddWords(buf: array<byte>, sp: nat, k: nat, cksum: int32, bigEndian: bool) returns (r: int32)
    requires sp + 2 * k <= buf.Length
    ensures r == Int32(cksum + WordSum(buf[sp..sp + 2 * k], bigEndian))
  {
    hide WordSum, Int32, HostWord;
    r := cksum;
    EmptySum(buf[..], sp, bigEndian);
    assert buf[sp..sp] == buf[..][sp..sp];
    InRange(cksum);
    for i := 0 to k
      invariant r == Int32(cksum + WordSum(buf[sp..sp + 2 * i], bigEndian))
    {
      ghost var p := sp + 2 * i;
      var w := HostWord(buf[sp + 2 * i], buf[sp + 2 * i + 1], bigEndian);
      NextWord(buf[..], sp, p, bigEndian);
      assert buf[..][sp..p + 2] == buf[sp..p + 2] && buf[..][sp..p] == buf[sp..p];
      Int32Adds(cksum + WordSum(buf[sp..p], bigEndian), w);
      r := Int32(r + w);
    }
  }

  lemma {:induction false} InRange(x: int32)
    ensures Int32(x) == x
  {}

  /** The loop of `ip_cksum_add`: the first round takes the words left over from a multiple of
      sixteen, the others sixteen each. */
  method SumWords(buf: array<byte>, off: nat, sn: nat, cksum: int32, bigEndian: bool) returns (r: int32, sp: nat)
    requires off + Reach(2 * sn) <= buf.Length
    ensures sp == off + Reach(2 * sn)
    ensures r == Int32(cksum + WordSum(buf[off..sp], bigEndian))
  {
    hide *;
    var n: int := (sn + 15) / 16;
    var k := if sn % 16 == 0 then 16 else sn % 16;
    RoundsCover(sn, n, k);
    ghost var end := off + Reach(2 * sn);
    r := AddWords(buf, off, k, cksum, bigEndian);
    sp := off + 2 * k;
    n := n - 1;
    while n > 0
      invariant sp + 32 * (if n < 0 then 0 else n) == end && (sp - off) % 2 == 0
      invariant r == Int32(cksum + WordSum(buf[off..sp], bigEndian))
    {
      var more := AddWords(buf, sp, 16, r, bigEndian);
      AddedUp(buf, off, sp, sp + 32, cksum, bigEndian);
      r := more;
      sp := sp + 32;
      n := n - 1;
    }
  }

  lemma {:induction false} RoundsCover(sn: nat, n: nat, k: nat)
    requires n == (sn + 15) / 16 && k == if sn % 16 == 0 then 16 else sn % 16
    ensures 2 * k + 32 * (if n == 0 then 0 else n - 1) == Reach(2 * sn)
  {}

  lemma {:induction false} AddedUp(buf: array<byte>, off: nat, sp: nat, end: nat, cksum: int, bigEndian: bool)
    requires off <= sp <= end <= buf.Length && (sp - off) % 2 == 0
    ensures Int32(Int32(cksum + WordSum(buf[off..sp], bigEndian)) + WordSum(buf[sp..end], bigEndian))
         == Int32(cksum + WordSum(buf[off..end], bigEndian))
  {
    hide WordSum, Int32;
    SumOfParts(buf[off..sp], buf[sp..end], bigEndian);
    assert buf[off..end] == buf[off..sp] + buf[sp..end];
    Int32Adds(cksum + WordSum(buf[off..sp], bigEndian), WordSum(buf[sp..end], bigEndian));
  }

  method IpCksumAdd(buf: array<byte>, off: nat, len: nat, cksum: int32, bigEndian: bool) returns (r: int32)
    requires off + Reach(len) <= buf.Length
    ensures r == CksumAdd(buf[..], off, len, cksum, bigEndian)
  {
    hide WordSum, Int32, HostWord;
    if len == 1 {
      r := OddByte(buf[off], bigEndian);
      LastByte(buf[..], off, off, bigEndian);
      EmptySum(buf[..], off, bigEndian);
      InRange(r);
      return;
    }
    var sp;
    r, sp := SumWords(buf, off, len / 2, cksum, bigEndian);
    ghost var b := buf[..];
    assert buf[off..sp] == b[off..sp];
    if len % 2 == 1 {
      var odd := OddByte(buf[sp], bigEndian);
      LastByte(b, off, sp, bigEndian);
      Int32Adds(cksum + WordSum(b[off..sp], bigEndian), odd);
      r := Int32(r + odd);
    }
  }

  /** `htons(*(u_char *)sp << 8)` */
  method OddByte(d: byte, bigEndian: bool) returns (r: nat)
    ensures r == HostWord(d, 0, bigEndian) && r < 65536
  {
    r := Htons(256 * d as nat, bigEndian);
  }

  lemma {:induction false} LastByte(b: seq<byte>, off: nat, sp: nat, bigEndian: bool)
    requires off <= sp < |b| && (sp - off) % 2 == 0
    ensures WordSum(b[off..sp + 1], bigEndian) == WordSum(b[off..sp], bigEndian) + HostWord(b[sp], 0, bigEndian)
  {
    hide HostWord;
    SumOfParts(b[off..sp], [b[sp]], bigEndian);
    assert b[off..sp + 1] == b[off..sp] + [b[sp]];
  }

  // ---- ip_cksum_carry ----

  /** The macro: the halves of the sum are added, the carry out of that too, the complement
      taken. The shifts are arithmetic, so they round down. */
  function Carry(x: int): (r: nat)
    ensures r < 65536
  {
    FoldAgain(x / 65536 + x % 65536)
  }

  function FoldAgain(y: int): (r: nat)
    ensures r < 65536
  {
    (-1 - (y + y / 65536)) % 65536
  }

  lemma {:induction false} FoldCases(y: int)
    requires -65535 <= y <= 131070
    ensures FoldAgain(y) == if y < 0 then -y else if y < 65536 then 65535 - y else 131070 - y
  {
    if y < 0 { assert y / 65536 == -1; } else if y < 65536 { assert y / 65536 == 0; } else { assert y / 65536 == 1; }
  }

  /** Over the whole range of sums the carry is minus the sum, modulo 65535. */
  lemma {:induction false} CarryNegates(x: int)
    requires INT_MIN <= x < 0x1_0000_0000
    ensures (Carry(x) + x) % 65535 == 0
  {
    hide FoldAgain;
    var h, l := x / 65536, x % 65536;
    assert x == 65536 * h + l && -32768 <= h <= 65535;
    FoldCases(h + l);
    Multiple(h);
    Multiple(h + 1);
    Multiple(h + 2);
  }

  lemma {:induction false} Multiple(k: int)
    ensures 65535 * k % 65535 == 0
  {}

  lemma {:induction false} CarryEnds(x: int)
    requires 0 <= x < 0x1_0000_0000
    ensures Carry(x) == 0 <==> x > 0 && x % 65535 == 0
    ensures Carry(x) == 65535 <==> x == 0
  {
    hide Carry;
    CarryNegates(x);
    CarryOfZeroOnly(x);
  }

  lemma {:induction false} CarryOfZeroOnly(x: int)
    requires 0 <= x < 0x1_0000_0000
    ensures Carry(x) == 65535 <==> x == 0
  {
    hide FoldAgain;
    var h, l := x / 65536, x % 65536;
    assert x == 65536 * h + l && 0 <= h <= 65535;
    FoldCases(h + l);
  }

  /** What a receiver checks (section 1 of RFC 1071): the covered bytes fold to 0. */
  predicate Verifies(covered: seq<byte>, bigEndian: bool) {
    Carry(WordSum(covered, bigEndian)) == 0
  }

  // ---- the byte order of the host ----

  lemma {:induction false} SwappedSum(s: seq<byte>) returns (q: nat)
    ensures 256 * WordSum(s, false) == WordSum(s, true) + 65535 * q
    ensures WordSum(s, false) == 0 <==> WordSum(s, true) == 0
  {
    if s == [] {
      q := 0;
    } else if |s| == 1 {
      q := 0;
    } else {
      var p := SwappedSum(s[2..]);
      q := p + s[1];
    }
  }

  lemma {:induction false} SwapIsTimes256(c: nat)
    requires c < 65536
    ensures (256 * c - Htons(c, false)) % 65535 == 0
    ensures HostBytes(c, false) == HostBytes(Htons(c, false), true)
    ensures (Htons(c, false) == 0 <==> c == 0) && (Htons(c, false) == 65535 <==> c == 65535)
  {
    assert 256 * c - Htons(c, false) == 65535 * (c / 256);
  }

  /** Hosts of either byte order store the same two bytes. */
  lemma {:induction false} SameBytesOnAnyHost(s: seq<byte>)
    requires |s| <= 65535
    ensures HostBytes(Carry(WordSum(s, true)), true) == HostBytes(Carry(WordSum(s, false)), false)
  {
    hide Carry, WordSum, Htons, HostBytes;
    var l, b := WordSum(s, false), WordSum(s, true);
    var q := SwappedSum(s);
    PacketSumFits(s, true);
    PacketSumFits(s, false);
    CarryNegates(l);
    CarryNegates(b);
    CarryEnds(l);
    CarryEnds(b);
    SwapIsTimes256(Carry(l));
    SwapOfCarry(l, b, q, Carry(l), Carry(b), Htons(Carry(l), false));
  }

  lemma {:induction false} SwapOfCarry(l: nat, b: nat, q: nat, c: nat, d: nat, swapped: nat)
    requires 256 * l == b + 65535 * q && c < 65536 && d < 65536 && swapped < 65536
    requires (c + l) % 65535 == 0 && (d + b) % 65535 == 0 && (256 * c - swapped) % 65535 == 0
    requires (swapped == 65535 <==> l == 0) && (d == 65535 <==> b == 0) && (l == 0 <==> b == 0)
    ensures swapped == d
  {
    var i, j, k := (c + l) / 65535, (d + b) / 65535, (256 * c - swapped) / 65535;
    assert c + l == 65535 * i && d + b == 65535 * j && 256 * c - swapped == 65535 * k;
    assert swapped - d == 65535 * (256 * i - k - j - q);
  }

  // ---- storing the checksum ----

  /** Writing a word at an even offset changes the sum by the difference of the words. */
  lemma {:induction false} StoreChangesSum(s: seq<byte>, k: nat, d: seq<byte>, bigEndian: bool)
    requires k % 2 == 0 && k + 2 <= |s| && |d| == 2
    ensures WordSum(Splice(s, k, d), bigEndian) + HostWord(s[k], s[k + 1], bigEndian)
         == WordSum(s, bigEndian) + HostWord(d[0], d[1], bigEndian)
  {
    hide HostWord, WordSum;
    var r := Splice(s, k, d);
    var a, z := s[..k], s[k + 2..];
    assert s == a + s[k..k + 2] + z && r == a + d + z;
    SumOfParts(a, s[k..k + 2], bigEndian);
    SumOfParts(a + s[k..k + 2], z, bigEndian);
    SumOfParts(a, d, bigEndian);
    SumOfParts(a + d, z, bigEndian);
    SumOfWord(d, bigEndian);
    SumOfWord(s[k..k + 2], bigEndian);
  }

  lemma {:induction false} SumOfWord(d: seq<byte>, bigEndian: bool)
    requires |d| == 2
    ensures WordSum(d, bigEndian) == HostWord(d[0], d[1], bigEndian)
  {
    hide HostWord;
    assert d[2..] == [];
  }

  /** A sum `r` that is, modulo 65535, the checksum plus the sum it was made from plus `d` folds
      to 0 exactly when that sum fitted an `int` and `d` is 0. */
  lemma {:induction false} FoldsToZeroIff(total: nat, c: nat, r: nat, d: nat)
    requires total < 0x1_8010_0000 && d <= 256 && 0 < r < 0x1_0000_0000
    requires c == Carry(Int32(total)) || (Carry(Int32(total)) == 0 && c == 65535)
    requires (r - total - c - d) % 65535 == 0
    ensures Carry(r) == 0 <==> total <= INT_MAX && d == 0
  {
    hide Carry, Int32;
    CarryEnds(r);
    StoredNegates(Int32(total), c);
    var k := Wraps(total);
    RemainderOfWraps(total, Int32(total), k, c, r, d);
  }

  lemma {:induction false} StoredNegates(x: int32, c: nat)
    requires c == Carry(x) || (Carry(x) == 0 && c == 65535)
    ensures (c + x) % 65535 == 0
  {
    hide Carry;
    CarryNegates(x);
  }

  lemma {:induction false} Wraps(total: nat) returns (k: nat)
    requires total < 0x1_8010_0000
    ensures total == Int32(total) + 0x1_0000_0000 * k && k <= 2 && (k == 0 <==> total <= INT_MAX)
  {
    k := (total + 0x8000_0000) / 0x1_0000_0000;
  }

  lemma {:induction false} RemainderOfWraps(total: int, x: int, k: nat, c: nat, r: nat, d: nat)
    requires total == x + 0x1_0000_0000 * k && k <= 2 && d <= 256
    requires (c + x) % 65535 == 0 && (r - total - c - d) % 65535 == 0
    ensures r % 65535 == k + d
  {
    var i, j := (c + x) / 65535, (r - total - c - d) / 65535;
    assert c + x == 65535 * i && r - total - c - d == 65535 * j;
    assert r == 65535 * (i + j + 65537 * k) + k + d;
  }
}
