/** The format-driven packer and unpacker of src/blob.c: `blob_fmt` and the `fmt_*` callbacks except
    `fmt_s`. A host is little-endian or big-endian and its `char` signed or not. */
module BlobFormat {
  import opened Blob
  import opened CText
  import opened Memory
  import Prefix

  /** One of the variable arguments: a length for `*`, a number, or a buffer. For the unpacker the
      latter two stand for pointers to where the result goes. */
  datatype Arg = Len(len: int) | Num(n: nat) | Bytes(b: seq<byte>)

  /** What the unpacker stores through a pointer: a number, a buffer, or less than was asked for. */
  datatype Out = Number(n: nat) | Buffer(b: seq<byte>) | Short(b: seq<byte>)

  predicate Numeric(kind: char) {
    kind == 'D' || kind == 'H' || kind == 'd' || kind == 'h' || kind == 'c'
  }

  /** Bytes of a number. */
  function Width(kind: char): nat {
    if kind == 'D' || kind == 'd' then 4 else if kind == 'H' || kind == 'h' then 2 else 1
  }

  /** The numbers that fit. */
  function Range(kind: char): nat {
    if Width(kind) == 4 then 0x1_0000_0000 else if Width(kind) == 2 then 0x1_0000 else 0x100
  }

  /** Upper-case kinds are in network order, the others in that of the host. */
  predicate BigFirst(kind: char, bigEndian: bool) {
    bigEndian || kind == 'D' || kind == 'H'
  }

  function Encode(kind: char, n: nat, bigEndian: bool): (b: seq<byte>)
    ensures |b| == Width(kind)
  {
    if Width(kind) == 4 then
      if BigFirst(kind, bigEndian) then [n / 0x100_0000 % 256, n / 0x1_0000 % 256, n / 256 % 256, n % 256]
      else [n % 256, n / 256 % 256, n / 0x1_0000 % 256, n / 0x100_0000 % 256]
    else if Width(kind) == 2 then
      if BigFirst(kind, bigEndian) then [n / 256 % 256, n % 256] else [n % 256, n / 256 % 256]
    else [n % 256]
  }

  function Decode(kind: char, b: seq<byte>, bigEndian: bool): nat
    requires |b| == Width(kind)
  {
    if Width(kind) == 4 then
      if BigFirst(kind, bigEndian) then
        0x100_0000 * b[0] as nat + 0x1_0000 * b[1] as nat + 256 * b[2] as nat + b[3] as nat
      else 0x100_0000 * b[3] as nat + 0x1_0000 * b[2] as nat + 256 * b[1] as nat + b[0] as nat
    else if Width(kind) == 2 then
      if BigFirst(kind, bigEndian) then 256 * b[0] as nat + b[1] as nat else 256 * b[1] as nat + b[0] as nat
    else b[0] as nat
  }

  lemma {:induction false} DecodeEncode(kind: char, n: nat, bigEndian: bool)
    requires n < Range(kind)
    ensures Decode(kind, Encode(kind, n, bigEndian), bigEndian) == n
  {
    var w := Width(kind);
    if w == 4 { FourBytes(n); } else if w == 2 { TwoBytes(n); } else {}
  }

  function Backwards(b: seq<byte>): (r: seq<byte>)
    ensures |r| == |b|
  {
    if b == [] then [] else Backwards(b[1..]) + [b[0]]
  }

  /** The bytes of a packed number, read as digits in base 256: most significant first in network order
      and on a big-endian host, least significant first otherwise. */
  lemma {:induction false} EncodeSpells(kind: char, n: nat, bigEndian: bool)
    requires kind in {'D', 'd', 'H', 'h', 'c'}
    requires n < if kind in {'D', 'd'} then 0x1_0000_0000 else if kind in {'H', 'h'} then 0x1_0000 else 0x100
    ensures |Encode(kind, n, bigEndian)| == if kind in {'D', 'd'} then 4 else if kind in {'H', 'h'} then 2 else 1
    ensures kind in {'D', 'H', 'c'} || bigEndian ==> Prefix.Value(Encode(kind, n, bigEndian)) == n
    ensures kind in {'d', 'h', 'c'} && !bigEndian ==> Prefix.Value(Backwards(Encode(kind, n, bigEndian))) == n
  {
    hide Backwards, Prefix.Value;
    var b := Encode(kind, n, bigEndian);
    if |b| == 4 {
      FourBytes(n);
      FourBackwards(b);
      Prefix.Value4(b[0], b[1], b[2], b[3]);
      Prefix.Value4(b[3], b[2], b[1], b[0]);
      assert b == [b[0], b[1], b[2], b[3]];
    } else if |b| == 2 {
      TwoBytes(n);
      FewBackwards(b);
      ValueOfFew(b);
      ValueOfFew([b[1], b[0]]);
    } else {
      FewBackwards(b);
      ValueOfFew(b);
    }
  }

  lemma {:induction false} FourBackwards(b: seq<byte>)
    requires |b| == 4
    ensures Backwards(b) == [b[3], b[2], b[1], b[0]]
  {
    FewBackwards(b[2..]);
    assert b[1..][1..] == b[2..];
    assert Backwards(b[1..]) == Backwards(b[2..]) + [b[1]];
  }

  lemma {:induction false} FewBackwards(b: seq<byte>)
    requires |b| == 2 || |b| == 1
    ensures Backwards(b) == if |b| == 2 then [b[1], b[0]] else b
  {
    assert Backwards([]) == [];
    if |b| == 2 { assert b[1..][1..] == [] && Backwards(b[1..]) == [b[1]]; } else { assert b[1..] == []; }
  }

  lemma {:induction false} ValueOfFew(b: seq<byte>)
    requires |b| == 2 || |b| == 1
    ensures Prefix.Value(b) == if |b| == 2 then 256 * b[0] as nat + b[1] as nat else b[0] as nat
  {
    assert b[..1][..0] == [];
    if |b| == 2 {
      assert Prefix.Value(b[..1]) == 256 * Prefix.Value([]) + b[0];
    } else {
      assert b[..0] == [];
    }
  }

  /** A number packed on one host is read on another exactly when the hosts have the same byte order,
      or the kind is in network order or a single byte, or the bytes read the same backwards. */
  lemma {:induction false} HostsAgreeIff(kind: char, n: nat, packer: bool, unpacker: bool)
    requires Numeric(kind) && n < Range(kind)
    ensures Decode(kind, Encode(kind, n, packer), unpacker) == n
       <==> packer == unpacker || kind == 'D' || kind == 'H' || kind == 'c'
            || (if kind == 'd' then n / 0x100_0000 == n % 256 && n / 0x1_0000 % 256 == n / 256 % 256
                else n / 256 == n % 256)
  {
    if kind == 'D' || kind == 'H' || kind == 'c' || packer == unpacker {
      SameOrder(kind, n, packer, unpacker);
    } else if kind == 'd' {
      FourBytes(n);
      Backwards4(n / 0x100_0000 % 256, n / 0x1_0000 % 256, n / 256 % 256, n % 256);
    } else {
      TwoBytes(n);
      Backwards2(n / 256 % 256, n % 256);
    }
  }

  lemma {:induction false} SameOrder(kind: char, n: nat, packer: bool, unpacker: bool)
    requires n < Range(kind) && (kind == 'D' || kind == 'H' || kind == 'c' || packer == unpacker)
    ensures Decode(kind, Encode(kind, n, packer), unpacker) == n
  {
    hide Range;
    DecodeEncode(kind, n, packer);
  }

  lemma {:induction false} Backwards4(a: byte, b: byte, c: byte, d: byte)
    ensures var x := 0x100_0000 * a as nat + 0x1_0000 * b as nat + 256 * c as nat + d as nat;
            var y := 0x100_0000 * d as nat + 0x1_0000 * c as nat + 256 * b as nat + a as nat;
            x == y <==> a == d && b == c
  {}

  lemma {:induction false} Backwards2(a: byte, b: byte)
    ensures 256 * a as nat + b as nat == 256 * b as nat + a as nat <==> a == b
  {}

  lemma {:induction false} FourBytes(n: nat)
    requires n < 0x1_0000_0000
    ensures n == 0x100_0000 * (n / 0x100_0000 % 256) + 0x1_0000 * (n / 0x1_0000 % 256) + 256 * (n / 256 % 256) + n % 256
  {
    var p := n / 256;
    var q := p / 256;
    Quotients(n, p, q);
    assert q / 256 < 256;
  }

  lemma {:induction false} Quotients(n: nat, p: nat, q: nat)
    requires p == n / 256 && q == p / 256
    ensures n / 0x1_0000 == q && n / 0x100_0000 == q / 256
  {}

  lemma {:induction false} TwoBytes(n: nat)
    requires n < 0x1_0000
    ensures n == 256 * (n / 256 % 256) + n % 256
  {}

  // ---- the format ----

  /** A conversion after its `%`: the length, the kind (NUL at the end of the format), what follows,
      and the arguments left. */
  datatype Conv = Conv(len: int, kind: char, rest: cstring, args: seq<Arg>)

  /** The arguments have the types the conversion takes. */
  predicate StarHasLen(f: cstring, args: seq<Arg>) {
    At(f) == '*' ==> args != [] && args[0].Len?
  }

  function ReadConv(f: cstring, args: seq<Arg>): (c: Conv)
    requires StarHasLen(f, args)
    ensures |c.rest| <= |f| && (f != "" && c.kind != '\0' ==> |c.rest| < |f|)
  {
    if IsDigit(At(f), false) then
      var (n, p) := Strtol(f, false);
      Conv(n, At(p), Tail(p), args)
    else if At(f) == '*' then Conv(args[0].len, At(Tail(f)), Tail(Tail(f)), args[1..])
    else Conv(0, At(f), Tail(f), args)
  }

  /** A conversion as it is written: digits or a star or nothing, and then its kind. */
  lemma {:induction false} ReadConversion(t: cstring, kind: char, rest: cstring, args: seq<Arg>)
    requires kind != '\0' && kind != '*' && kind != 'x' && kind != 'X' && !IsDigit(kind, false)
    ensures IsNumeral(t, false) ==>
              ReadConv(t + ([kind] + rest), args) == Conv(Clamp(NumeralValue(t, false)), kind, rest, args)
    ensures ReadConv([kind] + rest, args) == Conv(0, kind, rest, args)
    ensures args != [] && args[0].Len? ==>
              ReadConv("*" + ([kind] + rest), args) == Conv(args[0].len, kind, rest, args[1..])
  {
    hide Strtol, NumeralValue;
    var p: cstring := [kind] + rest;
    assert p[1..] == rest;
    if IsNumeral(t, false) {
      StrtolNumeral(t, p, false);
      assert (t + p)[0] == t[0] && IsDigit(t[0], false);
    }
    assert ("*" + p)[1..] == p;
  }

  function Tail(p: cstring): (r: cstring)
    ensures |r| <= |p| && (p != "" ==> |r| < |p|)
  {
    if p == "" then "" else p[1..]
  }

  predicate Known(kind: char) {
    Numeric(kind) || kind == 'b'
  }

  /** The next argument is what the conversion takes: a number of 32 bits, or a buffer that is long enough. */
  predicate Suits(c: Conv) {
    && c.kind != 's'
    && (Known(c.kind) ==> c.args != [])
    && (Numeric(c.kind) ==> c.args[0].Num? && c.args[0].n < 0x1_0000_0000)
    && (c.kind == 'b' ==> c.args[0].Bytes? && c.len <= |c.args[0].b|)
  }

  /** A format and arguments that C allows to go together; `%s` is not part of this model. */
  predicate Callable(f: cstring, args: seq<Arg>)
    decreases |f|
  {
    if f == "" then true
    else if f[0] != '%' then Callable(f[1..], args)
    else
      StarHasLen(f[1..], args) &&
      var c := ReadConv(f[1..], args);
      Suits(c) && (Known(c.kind) ==> Callable(c.rest, c.args[1..]))
  }

  /** Whether the callback of a conversion accepts its length. */
  predicate LenOk(c: Conv) {
    if c.kind == 'b' then c.len > 0 else c.len == 0
  }

  /** What a conversion writes. */
  function Payload(c: Conv, bigEndian: bool): seq<byte>
    requires Known(c.kind) && Suits(c) && LenOk(c)
  {
    if c.kind == 'b' then c.args[0].b[..c.len] else Encode(c.kind, c.args[0].n, bigEndian)
  }

  /** The byte of a literal. */
  function Literal(c: char): byte {
    c as int % 256
  }

  // ---- packing ----

  predicate Writable(v: Value, d: seq<byte>, memory: bool) {
    v.off + |d| <= |v.data| || Granted(v, v.off + |d|, memory)
  }

  /** What packing leaves and whether it succeeds. `memory` says for each length of format that is
      left whether more memory can be had there. */
  function Pack(v: Value, f: cstring, args: seq<Arg>, memory: nat -> bool, unit: nat, bigEndian: bool): (r: (Value, bool))
    requires Proper(v) && unit > 0 && Callable(f, args)
    ensures Proper(r.0)
    decreases |f|
  {
    if f == "" then (v, true)
    else if f[0] != '%' then
      var d := [Literal(f[0])];
      ApplyKeepsProper(v, WriteOp(d, memory(|f|)), unit);
      if Writable(v, d, memory(|f|)) then Pack(Written(v, d, memory(|f|), unit), f[1..], args, memory, unit, bigEndian)
      else (v, false)
    else
      var c := ReadConv(f[1..], args);
      if !Known(c.kind) || !LenOk(c) then (v, false)
      else
        var d := Payload(c, bigEndian);
        ApplyKeepsProper(v, WriteOp(d, memory(|f|)), unit);
        if Writable(v, d, memory(|f|)) then
          Pack(Written(v, d, memory(|f|), unit), c.rest, c.args[1..], memory, unit, bigEndian)
        else (v, false)
  }

  /** Packing one conversion of length `n`: refused for unknown kinds, for a number with a length, and for
      a buffer without one; the bytes written otherwise, if there is room or memory. */
  lemma {:induction false} PackConversion(v: Value, f: cstring, n: int, kind: char, rest: cstring, args: seq<Arg>,
                                          more: seq<Arg>, memory: nat -> bool, unit: nat, bigEndian: bool)
    requires Proper(v) && unit > 0 && Callable(f, args) && f != "" && f[0] == '%'
    requires ReadConv(f[1..], args) == Conv(n, kind, rest, more)
    ensures kind !in {'D', 'H', 'd', 'h', 'c', 'b'} || (kind == 'b' && n <= 0) || (kind != 'b' && n != 0) ==>
              Pack(v, f, args, memory, unit, bigEndian) == (v, false)
    ensures kind in {'D', 'H', 'd', 'h', 'c'} && n == 0 ==>
              && more != [] && more[0].Num? && Callable(rest, more[1..])
              && PacksAs(v, f, args, Encode(kind, more[0].n, bigEndian), rest, more[1..], memory, unit, bigEndian)
    ensures kind == 'b' && n > 0 ==>
              && more != [] && more[0].Bytes? && n <= |more[0].b| && Callable(rest, more[1..])
              && PacksAs(v, f, args, more[0].b[..n], rest, more[1..], memory, unit, bigEndian)
  {
    hide ReadConv, Encode, Written;
  }

  /** `f` writes `d` and goes on with `rest`, or stops where no memory is left. */
  predicate PacksAs(v: Value, f: cstring, args: seq<Arg>, d: seq<byte>, rest: cstring, more: seq<Arg>,
                    memory: nat -> bool, unit: nat, bigEndian: bool)
    requires Proper(v) && unit > 0 && Callable(f, args) && Callable(rest, more)
  {
    ApplyKeepsProper(v, WriteOp(d, memory(|f|)), unit);
    Pack(v, f, args, memory, unit, bigEndian)
    == if v.off + |d| <= |v.data| || v.off + |d| <= v.size || memory(|f|) then
         Pack(Written(v, d, memory(|f|), unit), rest, more, memory, unit, bigEndian)
       else (v, false)
  }

  // ---- unpacking ----

  /** `Outside` is no result: a literal was compared with a byte past the end of the data. */
  datatype Result = Done(value: Value, ok: bool, outs: seq<Out>) | Outside

  function Prepend(o: Out, r: Result): Result {
    if r.Done? then r.(outs := [o] + r.outs) else Outside
  }

  /** `b->base[..] == *p`: an unsigned char against a char. */
  predicate SameChar(x: byte, c: char, signedChar: bool) {
    x as int == if signedChar && Literal(c) >= 128 then Literal(c) as int - 256 else Literal(c) as int
  }

  /** The bytes a conversion asks for. */
  function Wanted(c: Conv): nat
    requires LenOk(c)
  {
    if c.kind == 'b' then c.len else Width(c.kind)
  }

  function Stored(c: Conv, t: seq<byte>, bigEndian: bool): Out
    requires LenOk(c)
  {
    if c.kind == 'b' then Buffer(t)
    else if |t| == Width(c.kind) then Number(Decode(c.kind, t, bigEndian))
    else Short(t)
  }

  /** Only the kinds in network order notice that there were too few bytes. */
  function Unpack(v: Value, f: cstring, args: seq<Arg>, bigEndian: bool, signedChar: bool): Result
    requires Proper(v) && Callable(f, args)
    decreases |f|
  {
    if f == "" then Done(v, true, [])
    else if f[0] != '%' then
      if v.off == |v.data| then Outside
      else
        var w := v.(off := v.off + 1);
        if SameChar(v.data[v.off], f[0], signedChar) then Unpack(w, f[1..], args, bigEndian, signedChar)
        else Done(w, false, [])
    else
      var c := ReadConv(f[1..], args);
      if !Known(c.kind) || !LenOk(c) then Done(v, false, [])
      else
        var t := Taken(v, Wanted(c));
        var w := v.(off := v.off + |t|);
        if (c.kind == 'D' || c.kind == 'H') && |t| < Wanted(c) then Done(w, false, [])
        else Prepend(Stored(c, t, bigEndian), Unpack(w, c.rest, c.args[1..], bigEndian, signedChar))
  }

  /** Unpacking one number: all its bytes are needed by the kinds in network order, the others store
      what there is and go on. */
  lemma {:induction false} UnpackNumber(v: Value, f: cstring, kind: char, rest: cstring, args: seq<Arg>,
                                        more: seq<Arg>, bigEndian: bool, signedChar: bool)
    requires Proper(v) && Callable(f, args) && f != "" && f[0] == '%'
    requires ReadConv(f[1..], args) == Conv(0, kind, rest, more) && kind in {'D', 'H', 'd', 'h', 'c'}
    ensures more != [] && Callable(rest, more[1..])
    ensures var w := if kind == 'D' || kind == 'd' then 4 else if kind == 'H' || kind == 'h' then 2 else 1;
            var left := |v.data| - v.off;
            Unpack(v, f, args, bigEndian, signedChar)
            == if left >= w then
                 assert |v.data[v.off..v.off + w]| == Width(kind);
                 Prepend(Number(Decode(kind, v.data[v.off..v.off + w], bigEndian)),
                         Unpack(v.(off := v.off + w), rest, more[1..], bigEndian, signedChar))
               else if kind == 'D' || kind == 'H' then Done(v.(off := |v.data|), false, [])
               else Prepend(Short(v.data[v.off..]),
                            Unpack(v.(off := |v.data|), rest, more[1..], bigEndian, signedChar))
  {
    hide ReadConv, Decode, Taken;
    TakenIs(v, Width(kind));
  }

  lemma {:induction false} TakenIs(v: Value, n: nat)
    requires Proper(v)
    ensures Taken(v, n) == if |v.data| - v.off >= n then v.data[v.off..v.off + n] else v.data[v.off..]
  {
    assert v.data[v.off..|v.data|] == v.data[v.off..];
  }

  /** Any other character of a format stands for itself: it is packed as its byte, and unpacked by
      comparison with the next one, where `char` is unsigned or the byte below 128. */
  lemma {:induction false} LiteralStands(v: Value, f: cstring, args: seq<Arg>, memory: nat -> bool, unit: nat,
                                         bigEndian: bool, signedChar: bool)
    requires Proper(v) && unit > 0 && Callable(f, args) && f != "" && f[0] != '%' && f[0] as int < 256
    ensures PacksAs(v, f, args, [f[0] as int], f[1..], args, memory, unit, bigEndian)
    ensures v.off < |v.data| && (!signedChar || f[0] as int < 128) ==>
              Unpack(v, f, args, bigEndian, signedChar)
              == if v.data[v.off] == f[0] as int then Unpack(v.(off := v.off + 1), f[1..], args, bigEndian, signedChar)
                 else Done(v.(off := v.off + 1), false, [])
  {
    hide Written;
  }

  // ---- the round trip ----

  /** The arguments that were packed, as the unpacker stores them. */
  function Packed(f: cstring, args: seq<Arg>): seq<Out>
    requires Callable(f, args)
    decreases |f|
  {
    if f == "" then []
    else if f[0] != '%' then Packed(f[1..], args)
    else
      var c := ReadConv(f[1..], args);
      if !Known(c.kind) || !LenOk(c) then []
      else
        [if c.kind == 'b' then Buffer(c.args[0].b[..c.len]) else Number(c.args[0].n % Range(c.kind))]
        + Packed(c.rest, c.args[1..])
  }

  /** No literal of the format has its top bit set. */
  predicate AsciiLiterals(f: cstring, args: seq<Arg>)
    requires Callable(f, args)
    decreases |f|
  {
    if f == "" then true
    else if f[0] != '%' then Literal(f[0]) < 128 && AsciiLiterals(f[1..], args)
    else
      var c := ReadConv(f[1..], args);
      Known(c.kind) ==> AsciiLiterals(c.rest, c.args[1..])
  }

  /** Packing writes from the cursor on and leaves what is in front of it alone. */
  lemma {:induction false} PackKeepsFront(v: Value, f: cstring, args: seq<Arg>, memory: nat -> bool, unit: nat,
                                          bigEndian: bool)
    requires Proper(v) && unit > 0 && Callable(f, args)
    ensures var w := Pack(v, f, args, memory, unit, bigEndian).0;
            v.off <= w.off && v.off <= |w.data| && w.data[..v.off] == v.data[..v.off]
    decreases |f|
  {
    hide ReadConv, Payload, Literal, Written, Writable;
    if f != "" {
      if f[0] != '%' {
        var d := [Literal(f[0])];
        if Writable(v, d, memory(|f|)) {
          WriteFacts(v, d, memory(|f|), unit);
          var v1 := Written(v, d, memory(|f|), unit);
          PackKeepsFront(v1, f[1..], args, memory, unit, bigEndian);
          ShorterPrefix(v.data, v1.data, Pack(v1, f[1..], args, memory, unit, bigEndian).0.data, v.off, v1.off);
        }
      } else {
        var c := ReadConv(f[1..], args);
        if Known(c.kind) && LenOk(c) {
          var d := Payload(c, bigEndian);
          if Writable(v, d, memory(|f|)) {
            WriteFacts(v, d, memory(|f|), unit);
            var v1 := Written(v, d, memory(|f|), unit);
            PackKeepsFront(v1, c.rest, c.args[1..], memory, unit, bigEndian);
            ShorterPrefix(v.data, v1.data, Pack(v1, c.rest, c.args[1..], memory, unit, bigEndian).0.data, v.off, v1.off);
          }
        }
      }
    }
  }

  lemma {:induction false} WriteFacts(v: Value, d: seq<byte>, memory: bool, unit: nat)
    requires Proper(v) && unit > 0 && Writable(v, d, memory)
    ensures var w := Written(v, d, memory, unit);
            Proper(w) && w.off == v.off + |d| && w.data[..v.off] == v.data[..v.off] && w.data[v.off..w.off] == d
  {
    ReadsBackWrite(v, d, memory, unit);
  }

  lemma {:induction false} ShorterPrefix(a: seq<byte>, b: seq<byte>, c: seq<byte>, i: nat, j: nat)
    requires i <= j && i <= |a| && j <= |b| && j <= |c| && b[..i] == a[..i] && c[..j] == b[..j]
    ensures c[..i] == a[..i] && c[i..j] == b[i..j]
  {
    assert c[..i] == c[..j][..i] && b[..i] == b[..j][..i];
    assert c[i..j] == c[..j][i..] && b[i..j] == b[..j][i..];
  }

  /** After a successful pack the unpacker, from where packing began and with the same format, stays
      inside the data. It succeeds exactly when `char` is unsigned or no literal has its top bit
      set; then it recovers every argument and ends where packing ended. */
  lemma {:induction false} UnpackInvertsPack(v: Value, f: cstring, args: seq<Arg>, memory: nat -> bool, unit: nat,
                                             bigEndian: bool,
                                             signedChar: bool)
    requires Proper(v) && unit > 0 && Callable(f, args) && Pack(v, f, args, memory, unit, bigEndian).1
    ensures var w := Pack(v, f, args, memory, unit, bigEndian).0;
            v.off <= w.off
            && var r := Unpack(w.(off := v.off), f, args, bigEndian, signedChar);
            && r.Done? && (r.ok <==> !signedChar || AsciiLiterals(f, args))
            && (r.ok ==> r.value == w && r.outs == Packed(f, args))
    decreases |f|
  {
    hide ReadConv, Payload, Literal, Written, Writable, SameChar, Proper, Stored, Taken;
    PackKeepsFront(v, f, args, memory, unit, bigEndian);
    if f != "" {
      if f[0] != '%' {
        LiteralInverts(v, f, args, memory, unit, bigEndian, signedChar);
        var v1 := Written(v, [Literal(f[0])], memory(|f|), unit);
        UnpackInvertsPack(v1, f[1..], args, memory, unit, bigEndian, signedChar);
      } else {
        var c := ReadConv(f[1..], args);
        ConvInverts(v, f, args, memory, unit, bigEndian, c);
        var v1 := Written(v, Payload(c, bigEndian), memory(|f|), unit);
        UnpackInvertsPack(v1, c.rest, c.args[1..], memory, unit, bigEndian, signedChar);
      }
    }
  }

  /** The bytes of the first step are still there at the end. */
  lemma {:induction false} FirstStepStays(v: Value, d: seq<byte>, memory: bool, unit: nat, w: Value)
    requires Proper(v) && unit > 0 && Writable(v, d, memory)
    requires var v1 := Written(v, d, memory, unit);
             v1.off <= |w.data| && w.data[..v1.off] == v1.data[..v1.off] && w.off <= |w.data| && Proper(w) && v.off <= w.off
    ensures Proper(w.(off := v.off)) && v.off + |d| <= |w.data| && w.data[v.off..v.off + |d|] == d
    ensures Taken(w.(off := v.off), |d|) == d && Written(v, d, memory, unit).off == v.off + |d|
  {
    hide Written;
    WriteFacts(v, d, memory, unit);
    var v1 := Written(v, d, memory, unit);
    ShorterPrefix(v.data, v1.data, w.data, v.off, v1.off);
  }

  lemma {:induction false} LiteralInverts(v: Value, f: cstring, args: seq<Arg>, memory: nat -> bool, unit: nat,
                                          bigEndian: bool,
                                          signedChar: bool)
    requires Proper(v) && unit > 0 && Callable(f, args) && Pack(v, f, args, memory, unit, bigEndian).1
    requires f != "" && f[0] != '%'
    ensures var v1, w := Written(v, [Literal(f[0])], memory(|f|), unit), Pack(v, f, args, memory, unit, bigEndian).0;
            && Proper(v1) && w == Pack(v1, f[1..], args, memory, unit, bigEndian).0
            && Pack(v1, f[1..], args, memory, unit, bigEndian).1
            && v.off < |w.data| && v1.off == v.off + 1 && v1.off <= |w.data|
            && (SameChar(w.data[v.off], f[0], signedChar) <==> !signedChar || Literal(f[0]) < 128)
  {
    hide Literal, Written, Writable;
    var d := [Literal(f[0])];
    var v1 := Written(v, d, memory(|f|), unit);
    WriteFacts(v, d, memory(|f|), unit);
    PackKeepsFront(v1, f[1..], args, memory, unit, bigEndian);
    var w := Pack(v1, f[1..], args, memory, unit, bigEndian).0;
    FirstStepStays(v, d, memory(|f|), unit, w);
    assert w.data[v.off] == w.data[v.off..v.off + 1][0];
  }

  lemma {:induction false} ConvInverts(v: Value, f: cstring, args: seq<Arg>, memory: nat -> bool, unit: nat,
                                       bigEndian: bool, c: Conv)
    requires Proper(v) && unit > 0 && Callable(f, args) && Pack(v, f, args, memory, unit, bigEndian).1
    requires f != "" && f[0] == '%' && c == ReadConv(f[1..], args)
    ensures Known(c.kind) && LenOk(c)
    ensures var d := Payload(c, bigEndian);
            var v1, w := Written(v, d, memory(|f|), unit), Pack(v, f, args, memory, unit, bigEndian).0;
            && Proper(v1) && w == Pack(v1, c.rest, c.args[1..], memory, unit, bigEndian).0
            && Pack(v1, c.rest, c.args[1..], memory, unit, bigEndian).1
            && |d| == Wanted(c) && v1.off == v.off + |d| && v1.off <= |w.data| && Proper(w.(off := v.off))
            && Taken(w.(off := v.off), Wanted(c)) == d
            && Stored(c, d, bigEndian)
               == if c.kind == 'b' then Buffer(c.args[0].b[..c.len]) else Number(c.args[0].n % Range(c.kind))
  {
    hide ReadConv, Payload, Written, Writable, Stored;
    var d := Payload(c, bigEndian);
    var v1 := Written(v, d, memory(|f|), unit);
    WriteFacts(v, d, memory(|f|), unit);
    PackKeepsFront(v1, c.rest, c.args[1..], memory, unit, bigEndian);
    var w := Pack(v1, c.rest, c.args[1..], memory, unit, bigEndian).0;
    FirstStepStays(v, d, memory(|f|), unit, w);
    StoredPayload(c, bigEndian);
  }

  lemma {:induction false} StoredPayload(c: Conv, bigEndian: bool)
    requires Known(c.kind) && Suits(c) && LenOk(c)
    ensures |Payload(c, bigEndian)| == Wanted(c)
    ensures Stored(c, Payload(c, bigEndian), bigEndian)
         == if c.kind == 'b' then Buffer(c.args[0].b[..c.len]) else Number(c.args[0].n % Range(c.kind))
  {
    hide Encode, Decode, Width, Range;
    if c.kind != 'b' {
      RangeIsPositive(c.kind);
      EncodeIgnoresHigh(c.kind, c.args[0].n, bigEndian);
      DecodeEncode(c.kind, c.args[0].n % Range(c.kind), bigEndian);
    }
  }

  lemma {:induction false} RangeIsPositive(kind: char)
    ensures Range(kind) > 0
  {}

  /** Of a number that is too large the low bytes are packed. */
  lemma {:induction false} EncodeIgnoresHigh(kind: char, n: nat, bigEndian: bool)
    requires Range(kind) > 0 && n < 0x1_0000_0000
    ensures Encode(kind, n % Range(kind), bigEndian) == Encode(kind, n, bigEndian)
  {
    hide Encode;
    if Width(kind) == 4 { assert n % Range(kind) == n; } else if Width(kind) == 2 { LowTwo(n); } else { LowOne(n); }
    EncodeOfBytes(kind, n % Range(kind), n, bigEndian);
  }

  lemma {:induction false} EncodeOfBytes(kind: char, m: nat, n: nat, bigEndian: bool)
    requires if Width(kind) == 4 then m == n else m % 256 == n % 256 && (Width(kind) == 2 ==> m / 256 % 256 == n / 256 % 256)
    ensures Encode(kind, m, bigEndian) == Encode(kind, n, bigEndian)
  {
    hide BigFirst;
  }

  lemma {:induction false} LowTwo(n: nat)
    ensures var m := n % 0x1_0000; m % 256 == n % 256 && m / 256 % 256 == n / 256 % 256
  {
    var q, m := n / 0x1_0000, n % 0x1_0000;
    assert n == 0x1_0000 * q + m && n / 256 == 256 * q + m / 256;
  }

  lemma {:induction false} LowOne(n: nat)
    ensures n % 0x100 % 256 == n % 256
  {}

  // ---- blob_fmt ----

  /** The literal branch of `blob_fmt` when packing */
  method PutLiteral(b: Blob, x: byte, memory: bool) returns (ok: bool)
    requires b.Valid()
    modifies b, b.base
    ensures b.Valid() && (b.base == old(b.base) || fresh(b.base))
    ensures ok == Writable(old(b.Val()), [x], memory)
    ensures b.Val() == if ok then Written(old(b.Val()), [x], memory, b.unit) else old(b.Val())
  {
    ghost var data := b.base[..b.end];
    if b.off + 1 >= b.end {
      ok := b.Reserve(b.off + 1 - b.end, memory);
      if !ok { return; }
    }
    ghost var was := b.base[..];
    assert was[..|data|] == data;
    b.base[b.off] := x;
    assert b.base[..] == Splice(was, b.off, [x]);
    OverwriteIsSplice(was, data, b.off, [x], b.end);
    b.off := b.off + 1;
    ok := true;
  }

  /** `fmt_D`, `fmt_H`, `fmt_b`, `fmt_c`, `fmt_d` and `fmt_h` when packing */
  method FmtPack(b: Blob, c: Conv, memory: bool, bigEndian: bool) returns (ok: bool)
    requires b.Valid() && Known(c.kind) && Suits(c)
    modifies b, b.base
    ensures b.Valid() && (b.base == old(b.base) || fresh(b.base))
    ensures ok <==> LenOk(c) && Writable(old(b.Val()), Payload(c, bigEndian), memory)
    ensures b.Val() == if ok then Written(old(b.Val()), Payload(c, bigEndian), memory, b.unit) else old(b.Val())
  {
    hide Payload, Overwritten, NewSize;
    if (if c.kind == 'b' then c.len <= 0 else c.len != 0) { return false; }
    var r := b.Write(Payload(c, bigEndian), memory);
    ok := r >= 0;
  }

  /** `blob_pack` */
  method BlobPack(b: Blob, f: cstring, args: seq<Arg>, memory: nat -> bool, bigEndian: bool) returns (r: int)
    requires b.Valid() && Callable(f, args)
    modifies b, b.base
    ensures b.Valid() && r == if Pack(old(b.Val()), f, args, memory, b.unit, bigEndian).1 then 0 else -1
    ensures b.Val() == Pack(old(b.Val()), f, args, memory, b.unit, bigEndian).0
  {
    hide ReadConv, Written, Payload, Literal, Writable, LenOk, Numeric;
    var p, ap := f, args;
    while p != ""
      invariant b.Valid() && (b.base == old(b.base) || fresh(b.base)) && Callable(p, ap)
      invariant Pack(old(b.Val()), f, args, memory, b.unit, bigEndian) == Pack(b.Val(), p, ap, memory, b.unit, bigEndian)
      decreases |p|
    {
      if p[0] != '%' {
        var ok := PutLiteral(b, Literal(p[0]), memory(|p|));
        if !ok { return -1; }
        p := p[1..];
      } else {
        var c := ReadConv(p[1..], ap);
        if !Known(c.kind) { return -1; }
        var ok := FmtPack(b, c, memory(|p|), bigEndian);
        if !ok { return -1; }
        p, ap := c.rest, c.args[1..];
      }
    }
    r := 0;
  }

  function OutsThen(outs: seq<Out>, r: Result): Result {
    if r.Done? then r.(outs := outs + r.outs) else Outside
  }

  lemma {:induction false} JoinedOneMore(outs: seq<Out>, o: Out, r: Result)
    ensures OutsThen(outs, Prepend(o, r)) == OutsThen(outs + [o], r)
  {
    if r.Done? { assert outs + ([o] + r.outs) == outs + [o] + r.outs; }
  }

  /** The literal branch of `blob_fmt` when unpacking; the byte must be inside the data. */
  method TakeLiteral(b: Blob, x: char, signedChar: bool) returns (same: bool)
    requires b.Valid() && b.off < b.end
    modifies b`off
    ensures b.Valid() && b.Val() == old(b.Val()).(off := old(b.off) + 1)
    ensures same <==> SameChar(old(b.Val()).data[old(b.off)], x, signedChar)
  {
    var y := b.base[b.off];
    assert y == b.Val().data[b.off];
    b.off := b.off + 1;
    same := y as int == if signedChar && Literal(x) >= 128 then Literal(x) as int - 256 else Literal(x) as int;
  }

  /** `fmt_D`, `fmt_H`, `fmt_b`, `fmt_c`, `fmt_d` and `fmt_h` when unpacking */
  method FmtUnpack(b: Blob, c: Conv, bigEndian: bool) returns (ok: bool, o: Out)
    requires b.Valid() && Known(c.kind) && Suits(c)
    modifies b`off
    ensures b.Valid()
    ensures !LenOk(c) ==> !ok && b.Val() == old(b.Val())
    ensures LenOk(c) ==>
              var t := Taken(old(b.Val()), Wanted(c));
              && b.Val() == old(b.Val()).(off := old(b.off) + |t|) && o == Stored(c, t, bigEndian)
              && (ok <==> !((c.kind == 'D' || c.kind == 'H') && |t| < Wanted(c)))
  {
    hide Taken, Decode;
    if (if c.kind == 'b' then c.len <= 0 else c.len != 0) { return false, Short([]); }
    var n := if c.kind == 'b' then c.len else Width(c.kind);
    var t := b.Read(n);
    TakenLength(old(b.Val()), n);
    o := Stored(c, t, bigEndian);
    ok := (c.kind != 'D' && c.kind != 'H') || |t| == n;
  }

  lemma {:induction false} TakenLength(v: Value, n: nat)
    requires Proper(v)
    ensures |Taken(v, n)| <= n
  {}

  /** A conversion that succeeds, and what is left to do. */
  lemma {:induction false} UnpackConv(v: Value, f: cstring, args: seq<Arg>, bigEndian: bool, signedChar: bool, c: Conv,
                                      w: Value)
    requires Proper(v) && Callable(f, args) && f != "" && f[0] == '%' && c == ReadConv(f[1..], args)
    requires Known(c.kind) && LenOk(c) && w == v.(off := v.off + |Taken(v, Wanted(c))|) && Proper(w)
    requires !((c.kind == 'D' || c.kind == 'H') && |Taken(v, Wanted(c))| < Wanted(c))
    ensures Callable(c.rest, c.args[1..])
    ensures Unpack(v, f, args, bigEndian, signedChar)
         == Prepend(Stored(c, Taken(v, Wanted(c)), bigEndian), Unpack(w, c.rest, c.args[1..], bigEndian, signedChar))
  {
    hide ReadConv, Taken, Stored, LenOk, Numeric, Prepend, Wanted, StarHasLen;
  }

  /** `blob_unpack` on data that holds the literals of the format */
  method BlobUnpack(b: Blob, f: cstring, args: seq<Arg>, bigEndian: bool, signedChar: bool)
    returns (r: int, outs: seq<Out>)
    requires b.Valid() && Callable(f, args) && Unpack(b.Val(), f, args, bigEndian, signedChar).Done?
    modifies b`off
    ensures b.Valid()
    ensures Unpack(old(b.Val()), f, args, bigEndian, signedChar) == Done(b.Val(), r == 0, outs) && (r == 0 || r == -1)
  {
    hide ReadConv, SameChar, Taken, Stored, LenOk, Numeric, Prepend, Wanted, StarHasLen;
    var p, ap := f, args;
    outs := [];
    ghost var all := Unpack(b.Val(), f, args, bigEndian, signedChar);
    assert [] + all.outs == all.outs;
    while p != ""
      invariant b.Valid() && Callable(p, ap)
      invariant all == OutsThen(outs, Unpack(b.Val(), p, ap, bigEndian, signedChar))
      decreases |p|
    {
      if p[0] != '%' {
        var same := TakeLiteral(b, p[0], signedChar);
        if !same { assert outs + [] == outs; return -1, outs; }
        p := p[1..];
      } else {
        ghost var was := b.Val();
        var c := ReadConv(p[1..], ap);
        if !Known(c.kind) { assert outs + [] == outs; return -1, outs; }
        var ok, o := FmtUnpack(b, c, bigEndian);
        if !ok { assert outs + [] == outs; return -1, outs; }
        UnpackConv(was, p, ap, bigEndian, signedChar, c, b.Val());
        JoinedOneMore(outs, o, Unpack(b.Val(), c.rest, c.args[1..], bigEndian, signedChar));
        outs, p, ap := outs + [o], c.rest, c.args[1..];
      }
    }
    assert outs + [] == outs;
    r := 0;
  }
}
