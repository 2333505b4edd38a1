/** Byte buffers and the block copies of the C library. */
module Memory {

  type byte = x: int | 0 <= x < 256

  /** A byte as a bit vector. */
  function Octet(b: byte): bv8 { b as bv8 }

  lemma {:induction false} OctetBack(b: byte)
    ensures Octet(b) as int == b
  {
    var v := CountTo(b);
    OctetOfInt(v, b);
  }

  lemma {:induction false} OctetOfInt(v: bv8, b: byte)
    requires v as int == b
    ensures Octet(b) == v
  {}

  lemma {:induction false} OctetPlusOne(v: bv8)
    requires v as int < 255
    ensures (v + 1) as int == v as int + 1
  {}

  lemma {:induction false} CountTo(b: byte) returns (v: bv8)
    ensures v as int == b
  {
    if b == 0 {
      v := 0;
    } else {
      v := CountTo(b - 1);
      OctetPlusOne(v);
      v := v + 1;
    }
  }

  datatype Option<+T> = None | Some(value: T)

  function Least(a: nat, b: nat): nat { if a < b then a else b }

  /** `b` with the span that starts at `off` overwritten by `d`. */
  function Splice<T>(b: seq<T>, off: nat, d: seq<T>): (r: seq<T>)
    requires off + |d| <= |b|
    ensures |r| == |b|
    ensures r[off..off + |d|] == d
    ensures r[..off] == b[..off] && r[off + |d|..] == b[off + |d|..]
  {
    b[..off] + d + b[off + |d|..]
  }

  lemma {:induction false} SpliceInside<T>(b: seq<T>, off: nat, d: seq<T>, lo: nat, hi: nat)
    requires lo <= off && off + |d| <= hi <= |b|
    ensures Splice(b, off, d)[lo..hi] == Splice(b[lo..hi], off - lo, d)
  {}

  lemma {:induction false} SpliceOutside<T>(b: seq<T>, off: nat, d: seq<T>, lo: nat, hi: nat)
    requires off + |d| <= |b| && lo <= hi <= |b| && (hi <= off || off + |d| <= lo)
    ensures Splice(b, off, d)[lo..hi] == b[lo..hi]
  {
    hide Splice;
    var r, end := Splice(b, off, d), off + |d|;
    if hi <= off {
      SliceOfFront(r, off, lo, hi);
      SliceOfFront(b, off, lo, hi);
    } else {
      SliceOfRest(r, end, lo, hi);
      SliceOfRest(b, end, lo, hi);
    }
  }

  lemma {:induction false} SliceOfFront<T>(s: seq<T>, m: nat, lo: nat, hi: nat)
    requires lo <= hi <= m <= |s|
    ensures s[..m][lo..hi] == s[lo..hi]
  {}

  lemma {:induction false} SliceOfRest<T>(s: seq<T>, m: nat, lo: nat, hi: nat)
    requires m <= lo <= hi <= |s|
    ensures s[m..][lo - m..hi - m] == s[lo..hi]
  {}

  lemma {:induction false} SpliceAt<T>(b: seq<T>, off: nat, d: seq<T>)
    requires off + |d| <= |b|
    ensures forall k {:trigger Splice(b, off, d)[k]} :: 0 <= k < |b| ==>
              Splice(b, off, d)[k] == if off <= k < off + |d| then d[k - off] else b[k]
  {}

  /** `memmove(dst + doff, src + soff, n)`: the two spans may overlap. */
  method Memmove<T>(dst: array<T>, doff: nat, src: array<T>, soff: nat, n: nat)
    requires doff + n <= dst.Length && soff + n <= src.Length
    modifies dst
    ensures dst[..] == Splice(old(dst[..]), doff, old(src[soff..soff + n]))
  {
    forall k | 0 <= k < n {
      dst[doff + k] := src[soff + k];
    }
    assert dst[..] == Splice(old(dst[..]), doff, old(src[soff..soff + n]));
  }

  /** `memcpy(dst + doff, d, |d|)` from bytes that are not part of `dst`. */
  method Memcpy<T>(dst: array<T>, doff: nat, d: seq<T>)
    requires doff + |d| <= dst.Length
    modifies dst
    ensures dst[..] == Splice(old(dst[..]), doff, d)
  {
    forall k | 0 <= k < |d| {
      dst[doff + k] := d[k];
    }
    assert dst[..] == Splice(old(dst[..]), doff, d);
  }

  /** `memset(dst + off, v, n)` */
  method Memset<T>(dst: array<T>, off: nat, v: T, n: nat)
    requires off + n <= dst.Length
    modifies dst
    ensures forall k :: off <= k < off + n ==> dst[k] == v
    ensures forall k :: 0 <= k < dst.Length && !(off <= k < off + n) ==> dst[k] == old(dst[k])
  {
    forall k | 0 <= k < n {
      dst[off + k] := v;
    }
  }
}
