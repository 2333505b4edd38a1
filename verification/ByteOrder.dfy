/** Words in memory on hosts of either byte order, and `htons` and `htonl`. */
module ByteOrder {
  import opened Memory

  /** The value of a 16-bit load from memory. */
  function HostWord(a: byte, b: byte, bigEndian: bool): (w: nat)
    ensures w < 65536
  {
    if bigEndian then 256 * a as nat + b as nat else a as nat + 256 * b as nat
  }

  /** The memory of a 16-bit store. */
  function HostBytes(w: nat, bigEndian: bool): (b: seq<byte>)
    requires w < 65536
    ensures |b| == 2 && HostWord(b[0], b[1], bigEndian) == w
  {
    if bigEndian then [w / 256, w % 256] else [w % 256, w / 256]
  }

  function Htons(w: nat, bigEndian: bool): (r: nat)
    requires w < 65536
    ensures r < 65536
  {
    if bigEndian then w else w % 256 * 256 + w / 256
  }

  /** What `htons` stores is in network order on every host. */
  lemma {:induction false} HtonsIsNetworkOrder(w: nat, bigEndian: bool)
    requires w < 65536
    ensures HostBytes(Htons(w, bigEndian), bigEndian) == [w / 256, w % 256]
  {
    if !bigEndian {
      var h, l := w / 256, w % 256;
      SwapDigits(h, l);
      assert Htons(w, false) == 256 * l + h;
    }
  }

  lemma {:induction false} SwapDigits(h: byte, l: byte)
    ensures (256 * l as nat + h as nat) % 256 == h && (256 * l as nat + h as nat) / 256 == l
  {}

  /** The bytes of a 32-bit number, the least significant one first. */
  lemma {:induction false} FourDigits(v: nat, a: byte, b: byte, c: byte, d: byte)
    requires v == a as nat + 0x100 * b as nat + 0x1_0000 * c as nat + 0x100_0000 * d as nat
    ensures v < 0x1_0000_0000 && v % 0x100 == a && v / 0x100 % 0x100 == b
    ensures v / 0x1_0000 % 0x100 == c && v / 0x100_0000 == d
  {
    var h := c as nat + 0x100 * d as nat;
    assert v / 0x100 == b as nat + 0x100 * h;
    assert v / 0x1_0000 == h;
  }

  function Htonl(v: nat, bigEndian: bool): (r: nat)
    requires v < 0x1_0000_0000
    ensures r < 0x1_0000_0000
  {
    if bigEndian then v
    else v % 256 * 0x100_0000 + v / 256 % 256 * 0x1_0000 + v / 0x1_0000 % 256 * 0x100 + v / 0x100_0000
  }

  /** On a little-endian host `htonl` turns the four bytes round. */
  lemma {:induction false} HtonlTurnsRound(v: nat, a: byte, b: byte, c: byte, d: byte)
    requires v == a as nat + 0x100 * b as nat + 0x1_0000 * c as nat + 0x100_0000 * d as nat
    ensures Htonl(v, true) == v
    ensures Htonl(v, false) == d as nat + 0x100 * c as nat + 0x1_0000 * b as nat + 0x100_0000 * a as nat
  {
    FourDigits(v, a, b, c, d);
  }
}
