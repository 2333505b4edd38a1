/** Network prefixes (src/addr.c and the containment test and iterator of the Python
    binding): masks, network and broadcast addresses, ordering, containment. */
module Prefix {
  import opened Bits
  import opened Dnet
  import opened Memory

  // ---- byte strings as numbers ----

  /** The number whose big-endian digits in base 256 are `s`. */
  function Value(s: seq<byte>): nat {
    if s == [] then 0 else 256 * Value(s[..|s| - 1]) + s[|s| - 1]
  }

  /** The first `n` bits of `s` as a number. */
  function Leading(s: seq<byte>, n: nat): nat
    requires n <= 8 * |s|
  {
    Shr(Value(s), 8 * |s| - n)
  }

  /** `0xff << (8 - h)` stored in a byte: `h` one bits, then zeros. */
  function HighOnes(h: nat): (r: nat)
    requires h <= 8
    ensures r < 256
  {
    LowBelow(Shl(255, 8 - h), 8);
    assert Pow2(8) == 256;
    Low(Shl(255, 8 - h), 8)
  }

  /** Byte `i` of a mask of `bits` one bits. */
  function MaskByte(bits: nat, i: nat): (r: byte) {
    if 8 * i + 8 <= bits then 255 else if bits <= 8 * i then 0 else HighOnes(bits - 8 * i)
  }

  function Mask(bits: nat, size: nat): (r: seq<byte>)
    ensures |r| == size
    ensures forall i :: 0 <= i < size ==> r[i] == MaskByte(bits, i)
  {
    if size == 0 then [] else Mask(bits, size - 1) + [MaskByte(bits, size - 1)]
  }

  function AndByte(x: byte, m: byte): byte {
    AndBounded(x, m);
    And(x, m)
  }

  /** `x | ~m` on bytes. */
  function OrNotByte(x: byte, m: byte): byte {
    OrBounded(x, 255 - m, 8);
    Or(x, 255 - m)
  }

  /** `&` of two buffers, byte by byte; on a whole word the host byte order does not matter. */
  function AndBytes(a: seq<byte>, m: seq<byte>): (r: seq<byte>)
    requires |a| == |m|
    ensures |r| == |a|
    ensures forall i :: 0 <= i < |a| ==> r[i] == AndByte(a[i], m[i])
  {
    if a == [] then [] else AndBytes(a[..|a| - 1], m[..|a| - 1]) + [AndByte(a[|a| - 1], m[|a| - 1])]
  }

  /** `a | ~m`, byte by byte. */
  function OrNotBytes(a: seq<byte>, m: seq<byte>): (r: seq<byte>)
    requires |a| == |m|
    ensures |r| == |a|
    ensures forall i :: 0 <= i < |a| ==> r[i] == OrNotByte(a[i], m[i])
  {
    if a == [] then [] else OrNotBytes(a[..|a| - 1], m[..|a| - 1]) + [OrNotByte(a[|a| - 1], m[|a| - 1])]
  }

  lemma {:induction false} AndBounded(a: nat, b: nat)
    ensures And(a, b) <= a
    decreases a
  {
    if a > 0 && b > 0 { AndBounded(a / 2, b / 2); }
  }

  lemma {:induction false} OrBounded(a: nat, b: nat, k: nat)
    requires a < Pow2(k) && b < Pow2(k)
    ensures Or(a, b) < Pow2(k)
    ensures k == 8 ==> Pow2(k) == 256
    decreases k
  {
    if k == 8 { assert Pow2(8) == 256; }
    if k > 0 { OrBounded(a / 2, b / 2, k - 1); }
  }

  // ---- what masking does to the number ----

  lemma {:induction false} HighOnesValue(g: nat)
    requires g <= 8
    ensures Pow2(8) == 256 && Pow2(g) <= 256
    ensures HighOnes(8 - g) == 256 - Pow2(g)
  {
    assert Pow2(8) == 256;
    Pow2Monotone(g, 8);
    assert HighOnes(8 - g) == Low(Shl(255, g), 8) by { assert 8 - (8 - g) == g; }
    hide Low, Shl, Pow2, HighOnes;
    LowOfShiftedOnes(8, g);
  }

  lemma {:induction false} Shl8(w: nat)
    ensures Shl(w, 8) == 256 * w
  {
    assert Shl(w, 1) == 2 * w;
    assert Shl(w, 2) == 4 * w;
    assert Shl(w, 3) == 8 * w;
    assert Shl(w, 4) == 16 * w;
    assert Shl(w, 5) == 32 * w;
    assert Shl(w, 6) == 64 * w;
  }

  /** In every case the mask byte of the last byte is `256 - 2^g` for the `g` of its low bits
      that lie outside the prefix. */
  lemma {:induction false} MaskByteValue(bits: nat, i: nat, g: nat)
    requires g <= 8 && (bits + g == 8 * i + 8 || (g == 8 && bits <= 8 * i) || (g == 0 && bits >= 8 * i + 8))
    ensures Pow2(8) == 256 && Pow2(g) <= 256
    ensures MaskByte(bits, i) == 256 - Pow2(g)
  {
    HighOnesValue(g);
  }

  lemma {:induction false} LastByteCleared(x: byte, bits: nat, i: nat, g: nat)
    requires g <= 8 && (bits + g == 8 * i + 8 || (g == 8 && bits <= 8 * i) || (g == 0 && bits >= 8 * i + 8))
    ensures g == 8 ==> Low(x, g) == x
    ensures g == 0 ==> Low(x, g) == 0
    ensures AndByte(x, MaskByte(bits, i)) == x - Low(x, g)
    ensures OrNotByte(AndByte(x, MaskByte(bits, i)), MaskByte(bits, i)) == x - Low(x, g) + Pow2(g) - 1
  {
    hide And, Or, MaskByte;
    MaskByteValue(bits, i, g);
    AndClearsLow(x, 8, g);
    OrSetsLow(x, g);
    if g == 8 { LowOfSmall(x, 8); }
  }

  lemma {:induction false} LastByteOfNet(s: seq<byte>, bits: nat)
    requires s != []
    ensures var n := |s|;
            AndBytes(s, Mask(bits, n))
            == AndBytes(s[..n - 1], Mask(bits, n - 1)) + [AndByte(s[n - 1], MaskByte(bits, n - 1))]
  {
    hide AndByte, MaskByte;
    assert Mask(bits, |s|)[..|s| - 1] == Mask(bits, |s| - 1);
  }

  lemma {:induction false} LastByteOfBcast(s: seq<byte>, bits: nat)
    requires s != []
    ensures var n := |s|;
            OrNotBytes(s, Mask(bits, n))
            == OrNotBytes(s[..n - 1], Mask(bits, n - 1)) + [OrNotByte(s[n - 1], MaskByte(bits, n - 1))]
  {
    hide OrNotByte, MaskByte;
    assert Mask(bits, |s|)[..|s| - 1] == Mask(bits, |s| - 1);
  }

  /** Masks of full bytes change nothing. */
  lemma {:induction false} FullMask(s: seq<byte>, bits: nat)
    requires bits >= 8 * |s|
    ensures AndBytes(s, Mask(bits, |s|)) == s
    ensures OrNotBytes(s, Mask(bits, |s|)) == s
  {
    assert Pow2(8) == 256;
    forall i | 0 <= i < |s|
      ensures AndByte(s[i], 255) == s[i] && OrNotByte(s[i], 255) == s[i]
    {
      AndMask(s[i], 8);
      LowOfSmall(s[i], 8);
    }
  }

  /** Splitting off the last byte: the low bits of the number. */
  lemma {:induction false} LowOfValue(w: nat, x: byte, h: nat)
    ensures h <= 8 ==> Low(256 * w + x, h) == Low(x, h)
    ensures h >= 8 ==> Low(256 * w + x, h) == 256 * Low(w, h - 8) + x
  {
    Shl8(w);
    if h <= 8 { LowOfJoin(w, x, 8, h); }
    if h >= 8 {
      assert x < Pow2(8) by { assert Pow2(8) == 256; }
      hide Low, Shl, Pow2;
      LowPastJoin(w, x, 8, h - 8);
      Shl8(Low(w, h - 8));
    }
  }

  lemma {:induction false} ValueSplit(s: seq<byte>)
    requires s != []
    ensures Value(s) == 256 * Value(s[..|s| - 1]) + s[|s| - 1]
  {}

  lemma {:induction false} ValueAppend(t: seq<byte>, x: byte)
    ensures Value(t + [x]) == 256 * Value(t) + x
  {
    assert (t + [x])[..|t|] == t;
  }

  lemma {:induction false} NetOfNothing(s: seq<byte>, bits: nat)
    requires s == []
    ensures Value(s) == 0 && Low(0, 0) == 0 && Pow2(0) == 1
    ensures AndBytes(s, Mask(bits, |s|)) == s && BcastBytes(s, bits) == s
  {}

  /** Masking clears the bits outside the prefix: the network number. */
  lemma {:induction false} NetValue(s: seq<byte>, bits: nat)
    requires bits <= 8 * |s|
    ensures Value(AndBytes(s, Mask(bits, |s|))) == Value(s) - Low(Value(s), 8 * |s| - bits)
  {
    hide AndByte, MaskByte, AndBytes, Value, Low, Mask;
    if s == [] {
      NetOfNothing(s, bits);
    } else {
      var n := |s|;
      var t := s[..n - 1];
      if bits < 8 * n - 8 { NetValue(t, bits); }
      NetValueStep(s, bits);
    }
  }

  lemma {:induction false} NetValueStep(s: seq<byte>, bits: nat)
    requires s != [] && bits <= 8 * |s|
    requires var t := s[..|s| - 1];
             bits < 8 * |t| ==> Value(AndBytes(t, Mask(bits, |t|))) == Value(t) - Low(Value(t), 8 * |t| - bits)
    ensures Value(AndBytes(s, Mask(bits, |s|))) == Value(s) - Low(Value(s), 8 * |s| - bits)
  {
    hide Low, AndByte, MaskByte, AndBytes, Mask, Value;
    var n, h := |s|, 8 * |s| - bits;
    var t, x := s[..n - 1], s[n - 1];
    ValueSplit(s);
    LastByteOfNet(s, bits);
    LowOfValue(Value(t), x, h);
    ValueAppend(AndBytes(t, Mask(bits, n - 1)), AndByte(x, MaskByte(bits, n - 1)));
    if h <= 8 {
      FullMask(t, bits);
      LastByteCleared(x, bits, n - 1, h);
    } else {
      LastByteCleared(x, bits, n - 1, 8);
    }
  }

  /** The broadcast address in bytes: the network with the bits outside the prefix set. */
  function BcastBytes(s: seq<byte>, bits: nat): (r: seq<byte>)
    ensures |r| == |s|
  {
    OrNotBytes(AndBytes(s, Mask(bits, |s|)), Mask(bits, |s|))
  }

  lemma {:induction false} BcastValue(s: seq<byte>, bits: nat)
    requires bits <= 8 * |s|
    ensures Value(BcastBytes(s, bits)) == Value(s) - Low(Value(s), 8 * |s| - bits) + Pow2(8 * |s| - bits) - 1
  {
    hide BcastBytes, Value, Low, Pow2;
    if s == [] {
      NetOfNothing(s, bits);
    } else {
      var n := |s|;
      var t := s[..n - 1];
      if bits < 8 * n - 8 { BcastValue(t, bits); }
      BcastValueStep(s, bits);
    }
  }

  lemma {:induction false} LastByteOfBoth(s: seq<byte>, bits: nat)
    requires s != []
    ensures var n := |s|;
            var m := MaskByte(bits, n - 1);
            BcastBytes(s, bits) == BcastBytes(s[..n - 1], bits) + [OrNotByte(AndByte(s[n - 1], m), m)]
  {
    hide AndByte, OrNotByte, MaskByte, Mask;
    LastByteOfNet(s, bits);
    var a := AndBytes(s, Mask(bits, |s|));
    assert a[..|s| - 1] == AndBytes(s[..|s| - 1], Mask(bits, |s| - 1));
    LastByteOfBcast(a, bits);
  }

  lemma {:induction false} BcastValueStep(s: seq<byte>, bits: nat)
    requires s != [] && bits <= 8 * |s|
    requires var t := s[..|s| - 1];
             bits < 8 * |t| ==>
               Value(BcastBytes(t, bits)) == Value(t) - Low(Value(t), 8 * |t| - bits) + Pow2(8 * |t| - bits) - 1
    ensures Value(BcastBytes(s, bits)) == Value(s) - Low(Value(s), 8 * |s| - bits) + Pow2(8 * |s| - bits) - 1
  {
    hide Low, AndByte, OrNotByte, MaskByte, BcastBytes, Value, Pow2;
    var n, h := |s|, 8 * |s| - bits;
    var t, x := s[..n - 1], s[n - 1];
    var m := MaskByte(bits, n - 1);
    ValueSplit(s);
    LastByteOfBoth(s, bits);
    LowOfValue(Value(t), x, h);
    ValueAppend(BcastBytes(t, bits), OrNotByte(AndByte(x, m), m));
    FullBcast(t, bits);
    if h <= 8 {
      LastByteCleared(x, bits, n - 1, h);
    } else {
      LastByteCleared(x, bits, n - 1, 8);
      Pow2Times256(h - 8);
      MaskByteValue(bits, n - 1, 8);
    }
  }

  lemma {:induction false} FullBcast(s: seq<byte>, bits: nat)
    ensures bits >= 8 * |s| ==> BcastBytes(s, bits) == s
  {
    if bits >= 8 * |s| { FullMask(s, bits); }
  }

  lemma {:induction false} Pow2Times256(k: nat)
    ensures Pow2(k + 8) == 256 * Pow2(k)
  {
    assert Pow2(k + 2) == 4 * Pow2(k);
    assert Pow2(k + 4) == 16 * Pow2(k);
    assert Pow2(k + 6) == 64 * Pow2(k);
  }

  // ---- masks and prefix lengths ----

  /** Bit `k` of a buffer, counted from its first bit. */
  predicate BitAt(s: seq<byte>, k: nat)
    requires k < 8 * |s|
  {
    Bit(Value(s), 8 * |s| - k - 1)
  }

  /** Exactly the first `n` bits of `s`, and not the next one, are set. */
  ghost predicate LeadingOnes(s: seq<byte>, n: nat) {
    && n <= 8 * |s|
    && (forall k :: 0 <= k < n ==> BitAt(s, k))
    && (n < 8 * |s| ==> !BitAt(s, n))
  }

  lemma {:induction false} LeadingOnesUnique(s: seq<byte>, m: nat, n: nat)
    requires LeadingOnes(s, m) && LeadingOnes(s, n)
    ensures m == n
  {
    hide BitAt;
  }

  lemma {:induction false} Value4(a: byte, b: byte, c: byte, d: byte)
    ensures Value([a, b, c, d]) == 0x100_0000 * a + 0x1_0000 * b + 0x100 * c + d
  {
    ValueAppend([], a);
    ValueAppend([a], b);
    ValueAppend([a, b], c);
    ValueAppend([a, b, c], d);
    assert [] + [a] == [a] && [a] + [b] == [a, b] && [a, b] + [c] == [a, b, c] && [a, b, c] + [d] == [a, b, c, d];
  }

  /** The number of leading one bits. */
  function CountOnes(s: seq<byte>, k: nat := 0): (n: nat)
    requires k <= 8 * |s|
    ensures k <= n <= 8 * |s|
    ensures forall i :: k <= i < n ==> BitAt(s, i)
    ensures n < 8 * |s| ==> !BitAt(s, n)
    decreases 8 * |s| - k
  {
    if k < 8 * |s| && BitAt(s, k) then CountOnes(s, k + 1) else k
  }

  /** The big-endian bytes of a 32-bit number, as `htonl` stores it. */
  function Bytes32(v: nat): (r: seq<byte>)
    requires v < 0x1_0000_0000
    ensures |r| == 4 && Value(r) == v
  {
    var v1, v2 := v / 256, v / 256 / 256;
    var a, b, c, d := v2 / 256, v2 % 256, v1 % 256, v % 256;
    assert v == 256 * v1 + d && v1 == 256 * v2 + c && v2 == 256 * a + b;
    Value4(a, b, c, d);
    [a, b, c, d]
  }

  lemma {:induction false} ValueInjective(a: seq<byte>, b: seq<byte>)
    requires |a| == |b| && Value(a) == Value(b)
    ensures a == b
  {
    if a != [] {
      ValueInjective(a[..|a| - 1], b[..|b| - 1]);
    }
  }

  lemma {:induction false} ValueBelow(s: seq<byte>)
    ensures Value(s) < Pow2(8 * |s|)
  {
    if s == [] {
      assert Pow2(0) == 1;
    } else {
      ValueBelow(s[..|s| - 1]);
      Pow2Times256(8 * |s| - 8);
    }
  }

  lemma {:induction false} MaskValue(bits: nat, n: nat)
    requires bits <= 8 * n
    ensures Pow2(8 * n - bits) <= Pow2(8 * n)
    ensures Value(Mask(bits, n)) == Pow2(8 * n) - Pow2(8 * n - bits)
    decreases n
  {
    hide MaskByte, Value, Mask;
    Pow2Monotone(8 * n - bits, 8 * n);
    if n == 0 {
      EmptyMaskValue(bits);
    } else {
      if bits < 8 * n - 8 { MaskValue(bits, n - 1); } else { FullMaskValue(bits, n - 1); }
      MaskValueStep(bits, n);
    }
  }

  lemma {:induction false} EmptyMaskValue(bits: nat)
    ensures Value(Mask(bits, 0)) == 0
  {}

  lemma {:induction false} MaskValueStep(bits: nat, n: nat)
    requires n > 0 && bits <= 8 * n
    requires bits < 8 * n - 8 ==> Value(Mask(bits, n - 1)) == Pow2(8 * n - 8) - Pow2(8 * n - 8 - bits)
    requires bits >= 8 * n - 8 ==> Value(Mask(bits, n - 1)) == Pow2(8 * n - 8) - 1
    ensures Value(Mask(bits, n)) == Pow2(8 * n) - Pow2(8 * n - bits)
  {
    hide MaskByte, Pow2, Value;
    ValueAppend(Mask(bits, n - 1), MaskByte(bits, n - 1));
    var h := 8 * n - bits;
    Pow2Times256(8 * n - 8);
    if h <= 8 {
      MaskByteValue(bits, n - 1, h);
    } else {
      MaskByteValue(bits, n - 1, 8);
      Pow2Times256(h - 8);
    }
  }

  lemma {:induction false} FullMaskValue(bits: nat, n: nat)
    requires bits >= 8 * n
    ensures Value(Mask(bits, n)) == Pow2(8 * n) - 1
    decreases n
  {
    if n == 0 {
      assert Pow2(0) == 1;
    } else {
      hide Pow2;
      Pow2Times256(8 * n - 8);
      FullMaskValue(bits, n - 1);
      ValueAppend(Mask(bits, n - 1), 255);
    }
  }

  /** A mask of `bits` ones is what its name says: its leading ones are exactly `bits`. */
  lemma {:induction false} MaskLeadingOnes(bits: nat, n: nat)
    requires bits <= 8 * n
    ensures LeadingOnes(Mask(bits, n), bits)
  {
    hide Pow2, Mask, Shr;
    var s := Mask(bits, n);
    MaskValue(bits, n);
    forall k | 0 <= k < 8 * n
      ensures BitAt(s, k) <==> k < bits
    {
      BitsOfMask(8 * n, 8 * n - bits, 8 * n - k - 1);
    }
  }

  /** The bits of the number are the bits of its bytes. */
  lemma {:induction false} ShrOfValue(w: nat, x: byte, j: nat)
    ensures j < 8 ==> Shr(256 * w + x, j) % 2 == Shr(x, j) % 2
    ensures Shr(256 * w + x, j + 8) == Shr(w, j)
  {
    var a := 256 * w + x;
    if j < 8 {
      BitFromLow(a, j, 8);
      LowOfValue(w, x, 8);
      BitFromLow(x, j, 8);
    }
    Shr8(a);
    ShrShr(a, 8, j);
  }

  // ---- the operations ----

  /** The value of a `struct addr`: type, prefix length and the 16 bytes of its union. */
  datatype AddrVal = AddrVal(typ: nat, bits: nat, data: seq<byte>)

  class Addr {
    var typ: nat
    var bits: nat
    const data8: array<byte>

    ghost predicate Valid()
      reads this
    {
      data8.Length == 16 && bits < 0x1_0000
    }

    ghost function Val(): AddrVal
      reads this, data8
    {
      AddrVal(typ, bits, data8[..])
    }

    /** A zeroed `struct addr`. */
    constructor ()
      ensures Valid() && fresh(data8) && Val() == AddrVal(ADDR_TYPE_NONE, 0, Zeros(16))
    {
      typ, bits := ADDR_TYPE_NONE, 0;
      data8 := new byte[16](_ => 0);
      new;
      assert data8[..] == Zeros(16);
    }
  }

  function Zeros(n: nat): (r: seq<byte>)
    ensures |r| == n && forall i :: 0 <= i < n ==> r[i] == 0
  {
    seq(n, _ => 0)
  }

  /** `addr_btom`: the mask of `bits` ones, or -1 when they do not fit. A 4-byte mask is made
      as a shifted 32-bit number, any other size byte by byte. */
  method AddrBtom(bits: nat, mask: array<byte>, size: nat) returns (r: int)
    requires size <= mask.Length
    modifies mask
    ensures r == if bits <= 8 * size then 0 else -1
    ensures mask[..] == if r == 0 then Splice(old(mask[..]), 0, Mask(bits, size)) else old(mask[..])
  {
    hide Low, Shl, Pow2;
    if size == 4 {
      if bits > IP_ADDR_BITS { return -1; }
      var word := ShiftedWord(bits);
      Memcpy(mask, 0, word);
    } else {
      if size * 8 < bits { return -1; }
      BtomBytes(bits, mask, size);
    }
    return 0;
  }

  method BtomBytes(bits: nat, mask: array<byte>, size: nat)
    requires bits <= 8 * size <= 8 * mask.Length
    modifies mask
    ensures mask[..] == Splice(old(mask[..]), 0, Mask(bits, size))
  {
    hide HighOnes;
    var net, host := bits / 8, bits % 8;
    Memset(mask, 0, 255, net);
    if host > 0 {
      mask[net] := HighOnes(host);
      Memset(mask, net + 1, 0, size - net - 1);
    } else {
      Memset(mask, net, 0, size - net);
    }
    assert forall i :: 0 <= i < size ==> mask[i] == MaskByte(bits, i);
    assert mask[..size] == Mask(bits, size);
    assert mask[size..] == old(mask[size..]);
    assert mask[..] == mask[..size] + mask[size..];
  }

  /** `bits ? htonl(~0 << (32 - bits)) : 0`, as bytes. */
  function ShiftedWord(bits: nat): (r: seq<byte>)
    requires bits <= 32
    ensures r == Mask(bits, 4)
  {
    assert Pow2(8) == 256;
    Pow2Times256(8);
    Pow2Times256(16);
    Pow2Times256(24);
    Pow2Monotone(32 - bits, 32);
    MaskValue(bits, 4);
    assert Pow2(0) == 1;
    var r := if bits > 0 then Bytes32(Pow2(32) - Pow2(32 - bits)) else Bytes32(0);
    ValueInjective(r, Mask(bits, 4));
    r
  }

  /** `addr_mtob`: the number of leading one bits of a mask. */
  method AddrMtob(mask: array<byte>, size: nat) returns (bits: nat)
    requires size <= mask.Length
    ensures bits == CountOnes(mask[..size])
  {
    ghost var s := mask[..size];
    var i, n := 0, 0;
    while i < size && mask[i] == 255
      invariant 0 <= i <= size && n == 8 * i
      invariant forall m :: 0 <= m < i ==> s[m] == 255
    {
      i := i + 1;
      n := n + 8;
    }
    if i != size && mask[i] != 0 {
      var j := 7;
      while j > 0
        invariant 0 <= j <= 7 && n == 8 * i + 7 - j
        invariant forall m :: j < m <= 7 ==> Shr(mask[i], m) % 2 == 1
      {
        AndTestsBit(mask[i], j);
        if And(mask[i], Pow2(j)) == 0 { break; }
        j := j - 1;
        n := n + 1;
      }
      LeadingOnesOfBytes(s, i, j);
    } else if i != size {
      ShrZero(7);
      LeadingOnesOfBytes(s, i, 7);
    } else {
      AllOnes(s);
    }
    LeadingOnesUnique(s, n, CountOnes(s));
    return n;
  }

  lemma {:induction false} LeadingOnesOfBytes(s: seq<byte>, i: nat, j: nat)
    requires i < |s| && j <= 7 && s[i] != 255
    requires forall m :: 0 <= m < i ==> s[m] == 255
    requires forall m :: j < m <= 7 ==> Shr(s[i], m) % 2 == 1
    requires j > 0 ==> Shr(s[i], j) % 2 == 0
    ensures LeadingOnes(s, 8 * i + 7 - j)
  {
    hide Shr, BitAt;
    var n := 8 * i + 7 - j;
    forall k | 0 <= k < n
      ensures BitAt(s, k)
    {
      BitOfByte(s, k / 8, 7 - k % 8);
      if k / 8 < i { BitsOf255(7 - k % 8); }
    }
    BitOfByte(s, i, j);
    if j == 0 && Shr(s[i], 0) % 2 == 1 {
      assert Pow2(8) == 256;
      OnlyOnes(s[i], 8);
    }
  }

  lemma {:induction false} AllOnes(s: seq<byte>)
    requires forall m :: 0 <= m < |s| ==> s[m] == 255
    ensures LeadingOnes(s, 8 * |s|)
  {
    hide Shr, BitAt;
    forall k | 0 <= k < 8 * |s|
      ensures BitAt(s, k)
    {
      BitOfByte(s, k / 8, 7 - k % 8);
      BitsOf255(7 - k % 8);
    }
  }

  /** Bit `8 * i + 7 - j` of a buffer is bit `j` of its byte `i`. */
  lemma {:induction false} BitOfByte(s: seq<byte>, i: nat, j: nat)
    requires i < |s| && j < 8
    ensures BitAt(s, 8 * i + 7 - j) <==> Shr(s[i], j) % 2 == 1
  {
    hide Shr;
    var n := |s|;
    ValueSplit(s);
    var k := 8 * (n - 1 - i) + j;
    ShrOfValue(Value(s[..n - 1]), s[n - 1], j);
    if i < n - 1 {
      ShrOfValue(Value(s[..n - 1]), s[n - 1], k - 8);
      BitOfByte(s[..n - 1], i, j);
    }
  }

  lemma {:induction false} BitsOf255(j: nat)
    requires j < 8
    ensures Shr(255, j) % 2 == 1
  {
    assert Pow2(8) == 256 && Pow2(0) == 1;
    BitsOfMask(8, 0, j);
  }

  // ---- network and broadcast addresses ----

  /** The prefix length fits the type and the union is whole. */
  predicate InWidth(a: AddrVal) {
    && |a.data| == 16
    && a.bits <= IP6_ADDR_BITS
    && (a.typ == ADDR_TYPE_IP ==> a.bits <= IP_ADDR_BITS)
  }

  /** What `addr_net` leaves in its result, which held `b` before. */
  function NetOf(a: AddrVal, b: AddrVal): (r: AddrVal)
    requires InWidth(a) && |b.data| == 16
    ensures |r.data| == 16
  {
    if a.typ == ADDR_TYPE_IP then
      AddrVal(ADDR_TYPE_IP, IP_ADDR_BITS, Splice(b.data, 0, AndBytes(a.data[..4], Mask(a.bits, 4))))
    else if a.typ == ADDR_TYPE_ETH then
      AddrVal(ADDR_TYPE_ETH, ETH_ADDR_BITS, if a.data[0] % 2 == 1 then Splice(a.data, 3, Zeros(3)) else a.data)
    else if a.typ == ADDR_TYPE_IP6 then
      AddrVal(ADDR_TYPE_IP6, IP6_ADDR_BITS, AndBytes(a.data, Mask(a.bits, 16)))
    else b
  }

  const ETH_ADDR_BROADCAST: seq<byte> := [255, 255, 255, 255, 255, 255]

  /** What `addr_bcast` leaves in its result, which held `b` before. */
  function BcastOf(a: AddrVal, b: AddrVal): (r: AddrVal)
    requires InWidth(a) && |b.data| == 16
    ensures |r.data| == 16
  {
    if a.typ == ADDR_TYPE_IP then
      AddrVal(ADDR_TYPE_IP, IP_ADDR_BITS, Splice(b.data, 0, BcastBytes(a.data[..4], a.bits)))
    else if a.typ == ADDR_TYPE_ETH then
      AddrVal(ADDR_TYPE_ETH, ETH_ADDR_BITS, Splice(b.data, 0, ETH_ADDR_BROADCAST))
    else b
  }

  /** `addr_net`. For IPv6 whole words are copied through the fall-through cases and the word
      the prefix ends in is masked; the result is the masking of all sixteen bytes. */
  method AddrNet(a: Addr, b: Addr) returns (r: int)
    requires a.Valid() && b.Valid() && InWidth(a.Val()) && a != b && a.data8 != b.data8
    modifies b, b.data8
    ensures b.Valid()
    ensures r == if a.typ in {ADDR_TYPE_IP, ADDR_TYPE_ETH, ADDR_TYPE_IP6} then 0 else -1
    ensures b.Val() == NetOf(old(a.Val()), old(b.Val()))
  {
    hide AndByte, AndBytes, Mask, MaskByte;
    if a.typ == ADDR_TYPE_IP {
      b.typ, b.bits := ADDR_TYPE_IP, IP_ADDR_BITS;
      IpNet(a.data8, a.bits, b.data8);
    } else if a.typ == ADDR_TYPE_ETH {
      b.typ := a.typ;
      EthNet(a.data8, b.data8);
      b.bits := ETH_ADDR_BITS;
    } else if a.typ == ADDR_TYPE_IP6 {
      b.typ, b.bits := ADDR_TYPE_IP6, IP6_ADDR_BITS;
      NetWords(a.data8, a.bits, b.data8);
    } else {
      return -1;
    }
    return 0;
  }

  method IpNet(a: array<byte>, bits: nat, b: array<byte>)
    requires a.Length == b.Length == 16 && a != b && bits <= 32
    modifies b
    ensures b[..] == Splice(old(b[..]), 0, AndBytes(a[..4], Mask(bits, 4)))
  {
    hide AndBytes, Mask;
    var mask := new byte[4];
    var ok := AddrBtom(bits, mask, 4);
    assert mask[..] == Mask(bits, 4);
    AndWord(a, mask, b, 0);
  }

  method IpBcast(a: array<byte>, bits: nat, b: array<byte>)
    requires a.Length == b.Length == 16 && a != b && bits <= 32
    modifies b
    ensures b[..] == Splice(old(b[..]), 0, BcastBytes(a[..4], bits))
  {
    hide AndBytes, OrNotBytes, Mask;
    var mask := new byte[4];
    var ok := AddrBtom(bits, mask, 4);
    assert mask[..] == Mask(bits, 4);
    BcastWord(a, mask, b);
  }

  /** A group address keeps its first three bytes, any other address all of them. */
  method EthNet(a: array<byte>, b: array<byte>)
    requires a.Length == b.Length == 16 && a != b
    modifies b
    ensures b[..] == if a[0] % 2 == 1 then Splice(a[..], 3, Zeros(3)) else a[..]
  {
    Memmove(b, 0, a, 0, 16);
    assert b[..] == a[..];
    if a[0] % 2 == 1 {
      Memcpy(b, 3, Zeros(3));
    }
  }

  /** `b->addr_data32[i] = a->addr_data32[i] & mask` */
  method AndWord(a: array<byte>, mask: array<byte>, b: array<byte>, i: nat)
    requires a.Length == b.Length == 16 && mask.Length == 4 && i < 4 && a != b && mask != b
    modifies b
    ensures b[..] == Splice(old(b[..]), 4 * i, AndBytes(a[4 * i..4 * i + 4], mask[..]))
    ensures forall k :: 0 <= k < 16 ==>
              b[k] == if 4 * i <= k < 4 * i + 4 then AndByte(a[k], mask[k - 4 * i]) else old(b[k])
  {
    hide AndByte;
    forall k | 0 <= k < 4 {
      b[4 * i + k] := AndByte(a[4 * i + k], mask[k]);
    }
    assert b[4 * i..4 * i + 4] == AndBytes(a[4 * i..4 * i + 4], mask[..]);
    assert b[..] == b[..4 * i] + b[4 * i..4 * i + 4] + b[4 * i + 4..];
  }

  method NetWords(a: array<byte>, bits: nat, b: array<byte>)
    requires a.Length == b.Length == 16 && a != b && bits <= 128
    modifies b
    ensures b[..] == AndBytes(a[..], Mask(bits, 16))
  {
    hide AndByte, HighOnes, AndBytes, MaskByte, Mask;
    Memset(b, 0, 0, 16);
    var i, j := bits / 32, bits % 32;
    CopyWords(a, i, b);
    if j > 0 {
      MaskLastWord(a, i, j, b);
    }
    NetWordsMask(a[..], bits, b[..]);
  }

  /** `addr_btom(j, &mask, 4)` and the masked copy of word `i`. */
  method MaskLastWord(a: array<byte>, i: nat, j: nat, b: array<byte>)
    requires a.Length == b.Length == 16 && a != b && i < 4 && j <= 32
    modifies b
    ensures forall k :: 0 <= k < 16 ==>
              b[k] == if 4 * i <= k < 4 * i + 4 then AndByte(a[k], MaskByte(j, k - 4 * i)) else old(b[k])
  {
    hide AndByte, HighOnes, AndBytes, MaskByte;
    var mask := new byte[4];
    var ok := AddrBtom(j, mask, 4);
    assert mask[..] == Mask(j, 4);
    assert forall k :: 0 <= k < 4 ==> mask[k] == mask[..][k];
    AndWord(a, mask, b, i);
  }

  /** The fall-through cases: words `i - 1` down to 0. */
  method CopyWords(a: array<byte>, i: nat, b: array<byte>)
    requires a.Length == b.Length == 16 && a != b && i <= 4
    modifies b
    ensures forall k :: 0 <= k < 16 ==> b[k] == if k < 4 * i then a[k] else old(b[k])
  {
    if i >= 4 { CopyWord(a, 3, b); }
    if i >= 3 { CopyWord(a, 2, b); }
    if i >= 2 { CopyWord(a, 1, b); }
    if i >= 1 { CopyWord(a, 0, b); }
  }

  method CopyWord(a: array<byte>, w: nat, b: array<byte>)
    requires a.Length == b.Length == 16 && a != b && w < 4
    modifies b
    ensures forall k :: 0 <= k < 16 ==> b[k] == if 4 * w <= k < 4 * w + 4 then a[k] else old(b[k])
  {
    forall k | 0 <= k < 4 {
      b[4 * w + k] := a[4 * w + k];
    }
  }

  lemma {:induction false} NetWordsMask(a: seq<byte>, bits: nat, b: seq<byte>)
    requires |a| == |b| == 16 && bits <= 128
    requires var i, j := bits / 32, bits % 32;
             forall k :: 0 <= k < 16 ==>
               b[k] == if k < 4 * i then a[k] else if k < 4 * i + 4 && j > 0 then AndByte(a[k], MaskByte(j, k - 4 * i)) else 0
    ensures b == AndBytes(a, Mask(bits, 16))
  {
    hide HighOnes;
    forall k | 0 <= k < 16
      ensures b[k] == AndByte(a[k], MaskByte(bits, k))
    {
      MaskKeepsOrClears(a[k]);
      MaskOfWord(bits, k);
      hide MaskByte, AndByte;
    }
  }

  /** Byte `k` of a mask, by the word it is in. */
  lemma {:induction false} MaskOfWord(bits: nat, k: nat)
    requires bits <= 128 && k < 16
    ensures var i, j := bits / 32, bits % 32;
            MaskByte(bits, k) == if k < 4 * i then 255 else if k < 4 * i + 4 && j > 0 then MaskByte(j, k - 4 * i) else 0
  {
    hide HighOnes;
  }

  lemma {:induction false} MaskKeepsOrClears(x: byte)
    ensures AndByte(x, 255) == x && AndByte(x, 0) == 0
  {
    assert Pow2(8) == 256;
    AndMask(x, 8);
    LowOfSmall(x, 8);
  }

  /** `b->addr_ip = (a->addr_ip & mask) | (~0L & ~mask)` */
  method BcastWord(a: array<byte>, mask: array<byte>, b: array<byte>)
    requires a.Length == b.Length == 16 && mask.Length == 4 && a != b && mask != b
    modifies b
    ensures b[..] == Splice(old(b[..]), 0, OrNotBytes(AndBytes(a[..4], mask[..]), mask[..]))
  {
    hide AndByte, OrNotByte;
    forall k | 0 <= k < 4 {
      b[k] := OrNotByte(AndByte(a[k], mask[k]), mask[k]);
    }
    assert b[..4] == OrNotBytes(AndBytes(a[..4], mask[..]), mask[..]);
    assert b[..] == b[..4] + b[4..];
  }

  /** `addr_bcast`; IPv6 has no broadcast addresses. */
  method AddrBcast(a: Addr, b: Addr) returns (r: int)
    requires a.Valid() && b.Valid() && InWidth(a.Val()) && a != b && a.data8 != b.data8
    modifies b, b.data8
    ensures b.Valid()
    ensures r == if a.typ in {ADDR_TYPE_IP, ADDR_TYPE_ETH} then 0 else -1
    ensures b.Val() == BcastOf(old(a.Val()), old(b.Val()))
  {
    hide BcastBytes;
    if a.typ == ADDR_TYPE_IP {
      b.typ, b.bits := ADDR_TYPE_IP, IP_ADDR_BITS;
      IpBcast(a.data8, a.bits, b.data8);
    } else if a.typ == ADDR_TYPE_ETH {
      b.typ, b.bits := ADDR_TYPE_ETH, ETH_ADDR_BITS;
      Memcpy(b.data8, 0, ETH_ADDR_BROADCAST);
    } else {
      return -1;
    }
    return 0;
  }

  // ---- the order of addresses ----

  /** The bits a comparison looks at. */
  function Head(a: AddrVal): nat
    requires InWidth(a)
  {
    Leading(a.data, a.bits)
  }

  /** Lexicographic in type, prefix length and leading bits. */
  predicate Precedes(a: AddrVal, b: AddrVal)
    requires InWidth(a) && InWidth(b)
  {
    a.typ < b.typ || (a.typ == b.typ && (a.bits < b.bits || (a.bits == b.bits && Head(a) < Head(b))))
  }

  predicate Alike(a: AddrVal, b: AddrVal)
    requires InWidth(a) && InWidth(b)
  {
    a.typ == b.typ && a.bits == b.bits && Head(a) == Head(b)
  }

  lemma {:induction false} LeadingOfPrefix(s: seq<byte>, m: nat)
    requires m <= |s|
    ensures Leading(s, 8 * m) == Value(s[..m])
    decreases |s|
  {
    hide Shr, Value;
    if m == |s| {
      assert s[..m] == s;
      ShrNothing(Value(s));
    } else {
      var n := |s|;
      ValueSplit(s);
      ShrOfValue(Value(s[..n - 1]), s[n - 1], 8 * n - 8 * m - 8);
      LeadingOfPrefix(s[..n - 1], m);
      assert s[..n - 1][..m] == s[..m];
    }
  }

  lemma {:induction false} ShrNothing(a: nat)
    ensures Shr(a, 0) == a
  {}

  lemma {:induction false} LeadingOfLeading(s: seq<byte>, m: nat, n: nat)
    requires m <= n <= 8 * |s|
    ensures Leading(s, m) == Shr(Leading(s, n), n - m)
  {
    ShrShr(Value(s), 8 * |s| - n, n - m);
  }

  /** The first differing byte inside the prefix decides. */
  lemma {:induction false} FirstDifference(s: seq<byte>, t: seq<byte>, n: nat, i: nat)
    requires |s| == |t| && 8 * i + 8 <= n <= 8 * |s|
    requires s[..i] == t[..i] && s[i] < t[i]
    ensures Leading(s, n) < Leading(t, n)
  {
    hide Shr, Value;
    var m := 8 * (i + 1);
    LeadingOfPrefix(s, i + 1);
    LeadingOfPrefix(t, i + 1);
    ValueSplit(s[..i + 1]);
    ValueSplit(t[..i + 1]);
    assert s[..i + 1][..i] == s[..i] && t[..i + 1][..i] == t[..i];
    LeadingOfLeading(s, m, n);
    LeadingOfLeading(t, m, n);
    if Leading(s, n) >= Leading(t, n) {
      ShrMonotone(Leading(t, n), Leading(s, n), n - m);
    }
  }

  /** A byte the prefix ends in: the comparison of its masked values decides. */
  lemma {:induction false} PartialByte(s: seq<byte>, t: seq<byte>, j: nat, k: nat)
    requires |s| == |t| && j < |s| && 0 < k < 8 && s[..j] == t[..j]
    ensures Pow2(8) == 256 && Pow2(8 - k) <= 256
    ensures var m := 256 - Pow2(8 - k);
            var x, y := And(s[j], m), And(t[j], m);
            && (Leading(s, 8 * j + k) < Leading(t, 8 * j + k) <==> x < y)
            && (Leading(s, 8 * j + k) == Leading(t, 8 * j + k) <==> x == y)
  {
    hide Leading, And, Shl, Value;
    var g := 8 - k;
    PartialValue(s, j, g);
    PartialValue(t, j, g);
    ShlOrder(Leading(s, 8 * j + k), Leading(t, 8 * j + k), g);
  }

  lemma {:induction false} PartialValue(s: seq<byte>, j: nat, g: nat)
    requires j < |s| && 0 < g < 8
    ensures Pow2(8) == 256 && Pow2(g) <= 256
    ensures Shl(Leading(s, 8 * j + 8 - g), g) == 256 * Value(s[..j]) + And(s[j], 256 - Pow2(g))
  {
    hide Shr, Value, Low, And, Shl, Pow2, Leading;
    HighOnesValue(g);
    PartialValueParts(s, j, g);
    SplitAt(Value(s[..j + 1]), g);
    LowOfValue(Value(s[..j]), s[j], g);
    AndClearsLow(s[j], 8, g);
  }

  lemma {:induction false} PartialValueParts(s: seq<byte>, j: nat, g: nat)
    requires j < |s| && 0 < g < 8
    ensures Value(s[..j + 1]) == 256 * Value(s[..j]) + s[j]
    ensures Leading(s, 8 * j + 8 - g) == Shr(Value(s[..j + 1]), g)
  {
    hide Shr, Value;
    var p := s[..j + 1];
    ValueSplit(p);
    assert p[..j] == s[..j];
    LeadingOfPrefix(s, j + 1);
    LeadingOfLeading(s, 8 * j + 8 - g, 8 * (j + 1));
  }

  /** `addr_cmp`: its sign is the order above. */
  method AddrCmp(a: Addr, b: Addr) returns (r: int)
    requires a.Valid() && b.Valid() && InWidth(a.Val()) && InWidth(b.Val())
    ensures r < 0 <==> Precedes(a.Val(), b.Val())
    ensures r > 0 <==> Precedes(b.Val(), a.Val())
    ensures r == 0 <==> Alike(a.Val(), b.Val())
  {
    hide Leading, And;
    ghost var s, t, n := a.data8[..], b.data8[..], b.bits;
    if a.typ != b.typ { return a.typ - b.typ; }
    if a.bits != b.bits { return a.bits - b.bits; }
    var j := b.bits / 8;
    for i := 0 to j
      invariant s[..i] == t[..i]
    {
      if a.data8[i] != b.data8[i] {
        if s[i] < t[i] { FirstDifference(s, t, n, i); } else { FirstDifference(t, s, n, i); }
        return a.data8[i] as int - b.data8[i] as int;
      }
      assert s[..i + 1] == s[..i] + [s[i]] && t[..i + 1] == t[..i] + [t[i]];
    }
    var k := b.bits % 8;
    if k == 0 {
      LeadingOfPrefix(s, j);
      LeadingOfPrefix(t, j);
      return 0;
    }
    PartialByte(s, t, j, k);
    PartialByte(t, s, j, k);
    var m := 256 - Pow2(8 - k);
    return And(a.data8[j], m) as int - And(b.data8[j], m) as int;
  }

  /** Equal leading bits as numbers are equal leading bits one by one. */
  lemma {:induction false} LeadingEqualIffBits(s: seq<byte>, t: seq<byte>, n: nat)
    requires |s| == |t| && n <= 8 * |s|
    ensures Leading(s, n) == Leading(t, n) <==> forall k :: 0 <= k < n ==> BitAt(s, k) == BitAt(t, k)
  {
    var w := 8 * |s|;
    ValueBelow(s);
    ValueBelow(t);
    ShrEqualIffBits(Value(s), Value(t), w - n, w);
    hide Shr, Value, Bit;
    if forall k :: 0 <= k < n ==> BitAt(s, k) == BitAt(t, k) {
      forall i | w - n <= i < w
        ensures Bit(Value(s), i) == Bit(Value(t), i)
      {
        assert BitAt(s, w - 1 - i) == BitAt(t, w - 1 - i);
      }
    }
  }

  /** The first bit in which `s` and `t` differ comes before bit `n`, and is set in `t`. */
  ghost predicate FirstBitBelow(s: seq<byte>, t: seq<byte>, n: nat)
    requires |s| == |t| && n <= 8 * |s|
  {
    exists k :: 0 <= k < n && !BitAt(s, k) && BitAt(t, k) && forall m :: 0 <= m < k ==> BitAt(s, m) == BitAt(t, m)
  }

  lemma {:induction false} OneMoreBit(s: seq<byte>, n: nat)
    requires n < 8 * |s|
    ensures Leading(s, n + 1) / 2 == Leading(s, n) && (Leading(s, n + 1) % 2 == 1 <==> BitAt(s, n))
  {
    Shr1(Value(s), 8 * |s| - n - 1);
  }

  lemma {:induction false} LeadingLessIffBits(s: seq<byte>, t: seq<byte>, n: nat)
    requires |s| == |t| && n <= 8 * |s|
    ensures Leading(s, n) < Leading(t, n) <==> FirstBitBelow(s, t, n)
  {
    hide BitAt, Leading;
    if n == 0 {
      NoLeadingBits(s);
      NoLeadingBits(t);
    } else {
      LeadingLessIffBits(s, t, n - 1);
      OneMoreBit(s, n - 1);
      OneMoreBit(t, n - 1);
      LeadingEqualIffBits(s, t, n - 1);
      if FirstBitBelow(s, t, n) && !FirstBitBelow(s, t, n - 1) {
        assert !BitAt(s, n - 1) && BitAt(t, n - 1) && Leading(s, n - 1) == Leading(t, n - 1);
      }
      if Leading(s, n - 1) == Leading(t, n - 1) && !BitAt(s, n - 1) && BitAt(t, n - 1) {
        assert FirstBitBelow(s, t, n);
      }
    }
  }

  lemma {:induction false} NoLeadingBits(s: seq<byte>)
    ensures Leading(s, 0) == 0
  {
    ValueBelow(s);
    ShrBelow(Value(s), 0, 8 * |s|);
  }

  /** The order bit by bit: by type, then by prefix length, then by the first bit inside the prefix in
      which the addresses differ. */
  lemma {:induction false} PrecedesIff(a: AddrVal, b: AddrVal)
    requires InWidth(a) && InWidth(b)
    ensures Precedes(a, b)
       <==> a.typ < b.typ || (a.typ == b.typ && a.bits < b.bits)
            || (a.typ == b.typ && a.bits == b.bits && FirstBitBelow(a.data, b.data, a.bits))
  {
    hide FirstBitBelow, Leading;
    if a.bits == b.bits { LeadingLessIffBits(a.data, b.data, a.bits); }
  }

  /** The network address of every type: for IPv4 and IPv6 a host whose number is that of the prefix
      with zeros behind it, for a MAC group address the first half. */
  lemma {:induction false} NetIs(a: AddrVal, b: AddrVal)
    requires InWidth(a) && |b.data| == 16
    ensures var r := NetOf(a, b);
            && (a.typ == 2 ==>
                  r.typ == 2 && r.bits == 32 && r.data[4..] == b.data[4..]
                  && Value(r.data[..4]) == Shl(Leading(a.data[..4], a.bits), 32 - a.bits))
            && (a.typ == 3 ==>
                  r.typ == 3 && r.bits == 128 && Value(r.data) == Shl(Leading(a.data, a.bits), 128 - a.bits))
            && (a.typ == 1 ==>
                  r.typ == 1 && r.bits == 48 && r.data[..3] == a.data[..3] && r.data[6..] == a.data[6..]
                  && r.data[3..6] == if a.data[0] % 2 == 1 then [0, 0, 0] else a.data[3..6])
            && (a.typ !in {1, 2, 3} ==> r == b)
  {
    hide AndBytes, Mask, Value, Leading, Shl, BcastBytes;
    if a.typ == 2 {
      RangeOfPrefix(a.data[..4], a.bits);
      FrontSpliced(b.data, AndBytes(a.data[..4], Mask(a.bits, 4)));
    } else if a.typ == 3 {
      RangeOfPrefix(a.data, a.bits);
    } else if a.typ == 1 {
      assert Zeros(3) == [0, 0, 0];
    }
  }

  lemma {:induction false} FrontSpliced(b: seq<byte>, d: seq<byte>)
    requires |d| <= |b|
    ensures Splice(b, 0, d)[..|d|] == d && Splice(b, 0, d)[|d|..] == b[|d|..]
  {
    assert Splice(b, 0, d)[0..|d|] == Splice(b, 0, d)[..|d|];
  }

  /** The broadcast address: the last number of the prefix, and ones for every MAC address. */
  lemma {:induction false} BcastIs(a: AddrVal, b: AddrVal)
    requires InWidth(a) && |b.data| == 16
    ensures var r := BcastOf(a, b);
            && (a.typ == 2 ==>
                  r.typ == 2 && r.bits == 32 && r.data[4..] == b.data[4..]
                  && Value(r.data[..4]) == Shl(Leading(a.data[..4], a.bits), 32 - a.bits) + Pow2(32 - a.bits) - 1)
            && (a.typ == 1 ==>
                  r.typ == 1 && r.bits == 48 && r.data[6..] == b.data[6..]
                  && r.data[..6] == [255, 255, 255, 255, 255, 255])
            && (a.typ !in {1, 2} ==> r == b)
  {
    hide AndBytes, Mask, Value, Leading, Shl, BcastBytes, Pow2;
    if a.typ == 2 {
      RangeOfPrefix(a.data[..4], a.bits);
      FrontSpliced(b.data, BcastBytes(a.data[..4], a.bits));
    } else if a.typ == 1 {
      FrontSpliced(b.data, ETH_ADDR_BROADCAST);
    }
  }

  // ---- containment (`addr.__contains__`) ----

  /** The IPv4 prefix `s` holds every address of the prefix `o`: `s` is no longer than `o` and
      the two agree on its leading bits. */
  predicate Holds(s: AddrVal, o: AddrVal)
    requires InWidth(s) && InWidth(o) && s.typ == ADDR_TYPE_IP
  {
    o.typ == ADDR_TYPE_IP && s.bits <= o.bits && Leading(s.data[..4], s.bits) == Leading(o.data[..4], s.bits)
  }

  /** The two ends that `__contains__` compares, when the type has both. */
  ghost predicate EndsOf(a: AddrVal, lo: AddrVal, hi: AddrVal)
    requires InWidth(a)
  {
    && InWidth(lo) && InWidth(hi) && lo.typ == hi.typ == a.typ
    && a.typ in {ADDR_TYPE_IP, ADDR_TYPE_ETH}
    && (a.typ == ADDR_TYPE_IP ==>
          && lo.bits == hi.bits == 32
          && lo.data[..4] == AndBytes(a.data[..4], Mask(a.bits, 4))
          && hi.data[..4] == BcastBytes(a.data[..4], a.bits))
    && (a.typ == ADDR_TYPE_ETH ==>
          lo.bits == hi.bits == 48 && lo.data[..6] == GroupOf(a.data[..6]) && hi.data[..6] == ETH_ADDR_BROADCAST)
  }

  /** A MAC address as `addr_net` leaves it: of a group address the first three bytes. */
  function GroupOf(d: seq<byte>): (r: seq<byte>)
    requires |d| == 6
    ensures |r| == 6
  {
    if d[0] % 2 == 1 then Splice(d, 3, Zeros(3)) else d
  }

  method Ends(a: Addr) returns (ok: bool, lo: Addr, hi: Addr)
    requires a.Valid() && InWidth(a.Val())
    ensures fresh(lo) && fresh(hi) && fresh(lo.data8) && fresh(hi.data8) && lo.Valid() && hi.Valid()
    ensures ok == (a.typ in {ADDR_TYPE_IP, ADDR_TYPE_ETH})
    ensures ok ==> EndsOf(a.Val(), lo.Val(), hi.Val())
  {
    hide AndBytes, BcastBytes, Mask, GroupOf;
    lo := new Addr();
    hi := new Addr();
    var e := AddrNet(a, lo);
    if e != 0 { return false, lo, hi; }
    if a.typ == ADDR_TYPE_ETH { GroupOfNet(a.Val(), lo.Val()); }
    e := AddrBcast(a, hi);
    ok := e == 0;
  }

  lemma {:induction false} GroupOfNet(a: AddrVal, lo: AddrVal)
    requires |a.data| == |lo.data| == 16
    requires lo.data == if a.data[0] % 2 == 1 then Splice(a.data, 3, Zeros(3)) else a.data
    ensures lo.data[..6] == GroupOf(a.data[..6])
  {
    if a.data[0] % 2 == 1 {
      SpliceInside(a.data, 3, Zeros(3), 0, 6);
      assert lo.data[0..6] == lo.data[..6] && a.data[0..6] == a.data[..6];
    }
  }

  /** `__contains__`: network and broadcast addresses of both operands, then two comparisons. */
  method Contains(self: Addr, other: Addr) returns (r: bool)
    requires self.Valid() && other.Valid() && InWidth(self.Val()) && InWidth(other.Val())
    ensures self.typ == ADDR_TYPE_IP ==> r == Holds(self.Val(), other.Val())
    ensures self.typ == ADDR_TYPE_ETH ==>
              (r <==> other.typ == ADDR_TYPE_ETH
                      && Value(GroupOf(self.data8[..6])) <= Value(GroupOf(other.data8[..6])))
    ensures self.typ !in {ADDR_TYPE_IP, ADDR_TYPE_ETH} || other.typ !in {ADDR_TYPE_IP, ADDR_TYPE_ETH} ==> !r
  {
    hide AndBytes, BcastBytes, Mask, Head, Leading, GroupOf, Value;
    var ok, s1, s2 := Ends(self);
    if !ok { return false; }
    var ok', o1, o2 := Ends(other);
    if !ok' { return false; }
    if self.typ == ADDR_TYPE_IP && other.typ == ADDR_TYPE_IP {
      RangeInside(self.Val(), other.Val(), s1.Val(), s2.Val(), o1.Val(), o2.Val());
    } else if self.typ == ADDR_TYPE_ETH && other.typ == ADDR_TYPE_ETH {
      MacOrder(self.Val(), other.Val(), s1.Val(), s2.Val(), o1.Val(), o2.Val());
      assert self.data8[..][..6] == self.data8[..6] && other.data8[..][..6] == other.data8[..6];
    }
    var lo := AddrCmp(o1, s1);
    if lo < 0 { return false; }
    var hi := AddrCmp(o2, s2);
    return hi <= 0;
  }

  /** All MAC addresses have the same broadcast address, so only the network addresses count. */
  lemma {:induction false} MacOrder(s: AddrVal, o: AddrVal, s1: AddrVal, s2: AddrVal, o1: AddrVal, o2: AddrVal)
    requires InWidth(s) && InWidth(o) && s.typ == o.typ == ADDR_TYPE_ETH
    requires EndsOf(s, s1, s2) && EndsOf(o, o1, o2)
    ensures !Precedes(o1, s1) && !Precedes(s2, o2) <==> Value(GroupOf(s.data[..6])) <= Value(GroupOf(o.data[..6]))
  {
    hide Value, Leading, GroupOf;
    LeadingOfPrefix(s1.data, 6);
    LeadingOfPrefix(s2.data, 6);
    LeadingOfPrefix(o1.data, 6);
    LeadingOfPrefix(o2.data, 6);
  }

  lemma {:induction false} HeadOfIp(a: AddrVal)
    requires InWidth(a) && a.typ == ADDR_TYPE_IP && a.bits == 32
    ensures Head(a) == Value(a.data[..4])
  {
    LeadingOfPrefix(a.data, 4);
  }

  /** The network and broadcast numbers are the ends of the aligned block of the prefix. */
  lemma {:induction false} RangeOfPrefix(s: seq<byte>, bits: nat)
    requires bits <= 8 * |s|
    ensures var h := 8 * |s| - bits;
            && Value(AndBytes(s, Mask(bits, |s|))) == Shl(Leading(s, bits), h)
            && Value(BcastBytes(s, bits)) == Shl(Leading(s, bits), h) + Pow2(h) - 1
  {
    NetValue(s, bits);
    BcastValue(s, bits);
    SplitAt(Value(s), 8 * |s| - bits);
  }

  lemma {:induction false} RangeInside(s: AddrVal, o: AddrVal, s1: AddrVal, s2: AddrVal, o1: AddrVal, o2: AddrVal)
    requires InWidth(s) && InWidth(o) && s.typ == o.typ == ADDR_TYPE_IP
    requires EndsOf(s, s1, s2) && EndsOf(o, o1, o2)
    ensures Holds(s, o) <==> !Precedes(o1, s1) && !Precedes(s2, o2)
  {
    hide Shl, Shr, Value, AndBytes, BcastBytes, Mask, Leading, Pow2;
    HeadOfIp(s1);
    HeadOfIp(s2);
    HeadOfIp(o1);
    HeadOfIp(o2);
    var a, b := s.data[..4], o.data[..4];
    RangeOfPrefix(a, s.bits);
    RangeOfPrefix(b, o.bits);
    BlockInside(Leading(a, s.bits), 32 - s.bits, Leading(b, o.bits), 32 - o.bits);
    if s.bits <= o.bits { LeadingOfLeading(b, s.bits, o.bits); }
  }

  /** Two prefixes are nested one way or the other, or no address lies in both. */
  lemma {:induction false} NestedOrDisjoint(s: AddrVal, t: AddrVal, x: AddrVal)
    requires InWidth(s) && InWidth(t) && InWidth(x) && s.typ == t.typ == ADDR_TYPE_IP
    requires Holds(s, x) && Holds(t, x)
    ensures Holds(s, t) || Holds(t, s)
  {
    hide Leading;
    if s.bits <= t.bits {
      LeadingOfLeading(x.data[..4], s.bits, t.bits);
      LeadingOfLeading(t.data[..4], s.bits, t.bits);
    } else {
      LeadingOfLeading(x.data[..4], t.bits, s.bits);
      LeadingOfLeading(s.data[..4], t.bits, s.bits);
    }
  }

  lemma {:induction false} HoldsTransitive(s: AddrVal, t: AddrVal, x: AddrVal)
    requires InWidth(s) && InWidth(t) && InWidth(x) && s.typ == t.typ == ADDR_TYPE_IP
    requires Holds(s, t) && Holds(t, x)
    ensures Holds(s, x)
  {
    hide Leading;
    LeadingOfLeading(x.data[..4], s.bits, t.bits);
    LeadingOfLeading(t.data[..4], s.bits, t.bits);
  }

  // ---- iteration (`addr.__iter__` and `__addr_ip4_iter`) ----

  /** The iterator's counter after `n` calls of `__next__`; `w` is the width of `unsigned long`. */
  function CounterAfter(w: nat, max: nat, cur: nat, n: nat): nat {
    if n == 0 then cur
    else
      var c := CounterAfter(w, max, cur, n - 1);
      if c <= max then Low(c + 1, w) else c
  }

  ghost predicate IterationEnds(w: nat, max: nat, cur: nat) {
    exists n: nat :: CounterAfter(w, max, cur, n) > max
  }

  /** Counting up to the largest 32-bit number never ends when the counter has only 32 bits,
      and always ends otherwise. */
  lemma {:induction false} StopsIff(w: nat, max: nat, cur: nat)
    requires w >= 32 && cur <= max < 0x1_0000_0000
    ensures IterationEnds(w, max, cur) <==> w > 32 || max < 0xffff_ffff
  {
    hide Low, Pow2;
    Width32();
    if w > 32 || max < 0xffff_ffff {
      CountsUp(w, max, cur, max - cur);
      Pow2Monotone(32, w);
      if w > 32 { Pow2StrictlyMonotone(32, w); }
      LowOfSmall(max + 1, w);
      assert CounterAfter(w, max, cur, max - cur + 1) == max + 1;
    } else {
      forall n: nat
        ensures CounterAfter(w, max, cur, n) <= max
      {
        NeverPasses(max, cur, n);
      }
    }
  }

  lemma {:induction false} Width32()
    ensures Pow2(32) == 0x1_0000_0000
  {
    assert Pow2(8) == 256;
    Pow2Times256(8);
    Pow2Times256(16);
    Pow2Times256(24);
  }

  lemma {:induction false} CountsUp(w: nat, max: nat, cur: nat, n: nat)
    requires w >= 32 && cur + n <= max < 0x1_0000_0000
    ensures CounterAfter(w, max, cur, n) == cur + n
  {
    hide Low, Pow2;
    if n > 0 {
      CountsUp(w, max, cur, n - 1);
      Width32();
      Pow2Monotone(32, w);
      LowOfSmall(cur + n, w);
    }
  }

  lemma {:induction false} NeverPasses(max: nat, cur: nat, n: nat)
    requires cur <= max == 0xffff_ffff
    ensures CounterAfter(32, max, cur, n) <= max
  {
    hide Low, Pow2;
    if n > 0 {
      NeverPasses(max, cur, n - 1);
      Width32();
      LowBelow(CounterAfter(32, max, cur, n - 1) + 1, 32);
    }
  }

  lemma {:induction false} OneCall(w: nat, max: nat, cur: nat)
    requires max < 0x1_0000_0000
    ensures CounterAfter(w, max, cur, 1) == if cur <= max then Low(cur + 1, w) else cur
    ensures CountsPast(w, max) && cur <= max ==> Low(cur + 1, w) == cur + 1
  {
    assert CounterAfter(w, max, cur, 0) == cur;
    if CountsPast(w, max) && cur <= max {
      Width32();
      Pow2Monotone(32, w);
      if w > 32 { Pow2StrictlyMonotone(32, w); }
      hide Pow2, Low;
      LowOfSmall(cur + 1, w);
    }
  }

  /** A counter of `w` bits gets past `max`. */
  predicate CountsPast(w: nat, max: nat) {
    w > 32 || (w == 32 && max < 0xffff_ffff)
  }

  class Ip4Iter {
    const w: nat
    var cur: nat
    var max: nat

    /** `ntohl` of the network and broadcast words. */
    constructor (w: nat, lo: seq<byte>, hi: seq<byte>)
      ensures this.w == w && cur == Value(lo) && max == Value(hi)
    {
      this.w := w;
      cur, max := Value(lo), Value(hi);
    }

    /** `__next__`: an address, or `StopIteration`. */
    method Next() returns (r: Option<seq<byte>>)
      requires max < 0x1_0000_0000
      modifies `cur
      ensures r == if old(cur) <= max then Some(Bytes32(old(cur))) else None
      ensures cur == CounterAfter(w, max, old(cur), 1)
      ensures CountsPast(w, max) ==> cur == if old(cur) <= max then old(cur) + 1 else old(cur)
    {
      OneCall(w, max, cur);
      hide Low;
      if cur <= max {
        r := Some(Bytes32(cur));
        cur := Low(cur + 1, w);
      } else {
        r := None;
      }
    }
  }

  /** The IPv4 addresses with numbers `lo`, `lo + 1`, ..., `lo + n - 1`. */
  function Numbered(lo: nat, n: nat): (r: seq<seq<byte>>)
    requires lo + n <= 0x1_0000_0000
    ensures |r| == n && forall k :: 0 <= k < n ==> r[k] == Bytes32(lo + k)
  {
    if n == 0 then [] else Numbered(lo, n - 1) + [Bytes32(lo + n - 1)]
  }

  /** The last address of a prefix is 255.255.255.255. */
  predicate EndsAllOnes(a: seq<byte>, bits: nat)
    requires |a| == 4
  {
    BcastBytes(a, bits) == [255, 255, 255, 255]
  }

  lemma {:induction false} LastIsBelow(a: seq<byte>, bits: nat)
    requires |a| == 4
    ensures Value(BcastBytes(a, bits)) < 0xffff_ffff <==> !EndsAllOnes(a, bits)
  {
    var b, ones: seq<byte> := BcastBytes(a, bits), [255, 255, 255, 255];
    hide Value, BcastBytes;
    Value4(255, 255, 255, 255);
    ValueBelow(b);
    Width32();
    hide Pow2;
    if Value(b) == Value(ones) { ValueInjective(b, ones); }
  }

  /** The loop of `list`: what an iterator yields until it stops. */
  method Drain(it: Ip4Iter, n: nat) returns (xs: seq<seq<byte>>)
    requires 0 < n && it.cur + n == it.max + 1 <= 0x1_0000_0000 && CountsPast(it.w, it.max)
    modifies it`cur
    ensures old(it.cur) + n <= 0x1_0000_0000 && xs == Numbered(old(it.cur), n)
  {
    hide CountsPast, Bytes32, CounterAfter, Numbered;
    ghost var lo := it.cur;
    xs := [];
    NumberedStart(lo);
    var x := it.Next();
    while x.Some?
      invariant it.max == old(it.max)
      invariant |xs| <= n && xs == Numbered(lo, |xs|)
      invariant x == if |xs| < n then Some(Bytes32(lo + |xs|)) else None
      invariant it.cur == if |xs| < n then lo + |xs| + 1 else lo + n
      decreases n - |xs|
    {
      NumberedNext(lo, |xs|);
      xs := xs + [x.value];
      x := it.Next();
    }
  }

  lemma {:induction false} NumberedStart(lo: nat)
    requires lo <= 0x1_0000_0000
    ensures Numbered(lo, 0) == []
  {}

  lemma {:induction false} NumberedNext(lo: nat, n: nat)
    requires lo + n < 0x1_0000_0000
    ensures Numbered(lo, n + 1) == Numbered(lo, n) + [Bytes32(lo + n)]
  {
    hide Bytes32;
  }

  /** `list(addr)`: `ValueError` for other types than IPv4, and otherwise the `2^(32 - bits)` addresses
      of the prefix in numeric order; where `unsigned long` has 32 bits, unless the last of them is
      255.255.255.255. */
  method Iterate(self: Addr, w: nat) returns (r: Option<seq<seq<byte>>>)
    requires self.Valid() && InWidth(self.Val())
    requires w > 32 || (w == 32 && (self.typ == ADDR_TYPE_IP ==> !EndsAllOnes(self.data8[..4], self.bits)))
    ensures r.Some? <==> self.typ == ADDR_TYPE_IP
    ensures r.Some? ==>
              var h := 32 - self.bits;
              var lo := Shl(Leading(self.data8[..4], self.bits), h);
              lo + Pow2(h) <= 0x1_0000_0000 && r.value == Numbered(lo, Pow2(h))
  {
    hide AndBytes, BcastBytes, Mask, Value, Shl, Leading, Pow2, Low, EndsAllOnes;
    if self.typ != ADDR_TYPE_IP { return None; }
    var ok, a, b := Ends(self);
    RangeOfPrefix(self.data8[..4], self.bits);
    LastIsBelow(self.data8[..4], self.bits);
    Width32();
    ValueBelow(b.data8[..4]);
    var it := new Ip4Iter(w, a.data8[..4], b.data8[..4]);
    var xs := Drain(it, Pow2(32 - self.bits));
    return Some(xs);
  }

  lemma {:induction false} PrefixFits(a: seq<byte>, bits: nat)
    requires |a| == 4 && bits <= 32
    ensures Shl(Leading(a, bits), 32 - bits) + Pow2(32 - bits) <= 0x1_0000_0000
  {
    hide Shl, Pow2, Value, Leading, BcastBytes, Mask;
    RangeOfPrefix(a, bits);
    ValueBelow(BcastBytes(a, bits));
    Width32();
  }

  /** What iteration yields is exactly what the prefix contains, and the prefix has no other
      addresses: each is yielded once, at the place its number gives it. */
  lemma {:induction false} IterationIsContainment(s: AddrVal, x: AddrVal)
    requires InWidth(s) && s.typ == ADDR_TYPE_IP
    requires InWidth(x) && x.typ == ADDR_TYPE_IP && x.bits == 32
    ensures var h := 32 - s.bits;
            var lo := Shl(Leading(s.data[..4], s.bits), h);
            var n := Pow2(h);
            && lo + n <= 0x1_0000_0000
            && (Holds(s, x) <==> lo <= Value(x.data[..4]) < lo + n)
            && (Holds(s, x) ==> Numbered(lo, n)[Value(x.data[..4]) - lo] == x.data[..4])
  {
    hide Shl, Pow2, Value, Leading, Numbered;
    var a, b := s.data[..4], x.data[..4];
    var lo := Shl(Leading(a, s.bits), 32 - s.bits);
    PrefixFits(a, s.bits);
    HoldsByNumber(a, s.bits, b);
    if Holds(s, x) { PlaceOfNumber(lo, Pow2(32 - s.bits), b); }
  }

  /** Agreeing with the leading bits of `a` is being a number of its block. */
  lemma {:induction false} HoldsByNumber(a: seq<byte>, bits: nat, b: seq<byte>)
    requires |a| == |b| == 4 && bits <= 32
    ensures var lo := Shl(Leading(a, bits), 32 - bits);
            Leading(a, bits) == Leading(b, bits) <==> lo <= Value(b) < lo + Pow2(32 - bits)
  {
    hide Value;
    BlockInside(Leading(a, bits), 32 - bits, Value(b), 0);
    assert Shl(Value(b), 0) == Value(b) && Pow2(0) == 1;
  }

  lemma {:induction false} PlaceOfNumber(lo: nat, n: nat, b: seq<byte>)
    requires |b| == 4 && lo <= Value(b) < lo + n <= 0x1_0000_0000
    ensures Numbered(lo, n)[Value(b) - lo] == b
  {
    hide Value;
    assert Numbered(lo, n)[Value(b) - lo] == Bytes32(Value(b));
    ValueInjective(Bytes32(Value(b)), b);
  }

  /** `addr_mtob` undoes `addr_btom`, for every length and mask size. */
  lemma {:induction false} MaskLengthRoundTrip(bits: nat, size: nat, n: nat)
    requires bits <= 8 * size
    ensures LeadingOnes(Mask(bits, size), n) <==> n == bits
    ensures CountOnes(Mask(bits, size)) == bits
  {
    hide BitAt, Mask;
    MaskLeadingOnes(bits, size);
    if LeadingOnes(Mask(bits, size), n) { LeadingOnesUnique(Mask(bits, size), n, bits); }
    LeadingOnesUnique(Mask(bits, size), CountOnes(Mask(bits, size)), bits);
  }

  lemma {:induction false} BeforeIsTotalPreorder(a: AddrVal, b: AddrVal, c: AddrVal)
    requires InWidth(a) && InWidth(b) && InWidth(c)
    ensures !Precedes(a, a)
    ensures Precedes(a, b) || Precedes(b, a) || Alike(a, b)
    ensures !(Precedes(a, b) && Precedes(b, a))
    ensures !Precedes(b, a) && !Precedes(c, b) ==> !Precedes(c, a)
    ensures Alike(a, b) && Precedes(b, c) ==> Precedes(a, c)
  {}
}
