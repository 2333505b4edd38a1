/** `addr_ntop` and `addr_pton` of src/addr.c: addresses of every type with a prefix length. */
module AddrCodec {
  import opened AddrText
  import opened ByteOrder
  import opened CText
  import opened Dnet
  import opened Ip6Text
  import opened Memory
  import opened Prefix

  function WidthOf(typ: nat): nat {
    if typ == ADDR_TYPE_IP then IP_ADDR_BITS else if typ == ADDR_TYPE_ETH then ETH_ADDR_BITS else IP6_ADDR_BITS
  }

  function BytesOf(typ: nat): (n: nat)
    ensures n <= 16
  {
    if typ == ADDR_TYPE_IP then 4 else if typ == ADDR_TYPE_ETH then 6 else 16
  }

  // ---- printing ----

  function PrefixText(bits: nat, width: nat): cstring {
    if bits == width then "" else "/" + Dec(bits)
  }

  /** The text without its prefix length. */
  function HostText(typ: nat, data: seq<byte>, bigEndian: bool): cstring
    requires |data| == 16 && typ in {ADDR_TYPE_IP, ADDR_TYPE_ETH, ADDR_TYPE_IP6}
  {
    if typ == ADDR_TYPE_IP then IpText(data[..4])
    else if typ == ADDR_TYPE_ETH then EthText(data[..6])
    else Ip6TextOf(Words(data), bigEndian)
  }

  /** Whether `addr_ntop` prints into a buffer of `size` characters. The IPv6 printer inside it
      asks for more room than `addr_ntop` does. */
  predicate Prints(a: AddrVal, size: nat) {
    || (a.typ == ADDR_TYPE_IP && size >= 20)
    || (a.typ == ADDR_TYPE_IP6 && size >= 46)
    || (a.typ == ADDR_TYPE_ETH && size >= 18 && a.bits == ETH_ADDR_BITS)
  }

  function FullText(a: AddrVal, bigEndian: bool): cstring
    requires |a.data| == 16 && a.typ in {ADDR_TYPE_IP, ADDR_TYPE_ETH, ADDR_TYPE_IP6}
  {
    HostText(a.typ, a.data, bigEndian) + PrefixText(a.bits, WidthOf(a.typ))
  }

  /** `addr_ntop` asks for 20 characters for IPv4, 46 for IPv6, and 18 for a MAC address with all its
      bits; it prints no other. */
  lemma {:induction false} PrintsIff(a: AddrVal, size: nat)
    ensures Prints(a, size)
       <==> (a.typ == 2 && size >= 20) || (a.typ == 3 && size >= 46) || (a.typ == 1 && a.bits == 48 && size >= 18)
  {}

  /** There is always room for the text, but for an IPv4 address whose prefix length has four digits
      or more. */
  lemma {:induction false} TextFits(a: AddrVal, size: nat, bigEndian: bool)
    requires |a.data| == 16 && a.bits < 0x1_0000 && Prints(a, size) && (a.typ == ADDR_TYPE_IP ==> a.bits < 1000)
    ensures |FullText(a, bigEndian)| < size
  {
    hide IpText, OctetsText, OctetsWithSeparators, Ip6TextOf, Dec;
    assert PowerOfTen(3) == 1000 && PowerOfTen(5) == 100000;
    DecLength(a.bits, if a.bits < 1000 then 3 else 5);
    if a.typ == ADDR_TYPE_IP {
      QuadLength(a.data[..4]);
    } else if a.typ == ADDR_TYPE_IP6 {
      TextLength(Words(a.data), bigEndian);
    } else {
      SeparatorsLength(a.data[..6], true);
      DropLastSeparator(a.data[..6], true);
    }
  }

  /** A text that is printed must fit the buffer; `sprintf` does not check. */
  method AddrNtop(src: Addr, dst: array<char>, size: nat, bigEndian: bool) returns (ok: bool)
    requires src.Valid() && size <= dst.Length
    requires Prints(src.Val(), size) ==> |FullText(src.Val(), bigEndian)| < dst.Length
    modifies dst
    ensures ok == Prints(src.Val(), size)
    ensures ok ==> StringAt(dst[..], 0, FullText(src.Val(), bigEndian))
  {
    hide IpText, EthText, Ip6TextOf, Words;
    ghost var d := src.data8[..];
    if src.typ == ADDR_TYPE_IP && size >= 20 {
      ok := IpNtop(src.data8[..4], dst, 0, size);
      if ok {
        AppendPrefix(dst, IpText(d[..4]), src.bits, IP_ADDR_BITS);
        return true;
      }
    } else if src.typ == ADDR_TYPE_IP6 && size >= 42 {
      ok := Ip6Ntop(src.data8, dst, size, bigEndian);
      if ok {
        assert d[..16] == d;
        AppendPrefix(dst, Ip6TextOf(Words(d), bigEndian), src.bits, IP6_ADDR_BITS);
        return true;
      }
    } else if src.typ == ADDR_TYPE_ETH && size >= 18 {
      if src.bits == ETH_ADDR_BITS {
        ok := EthNtop(src.data8[..6], dst, size);
        return ok;
      }
    }
    return false;
  }

  /** `if (bits != width) sprintf(dst + strlen(dst), "/%d", bits)` */
  method AppendPrefix(dst: array<char>, ghost text: cstring, bits: nat, width: nat)
    requires StringAt(dst[..], 0, text) && |text| + |PrefixText(bits, width)| < dst.Length
    modifies dst
    ensures StringAt(dst[..], 0, text + PrefixText(bits, width))
  {
    hide PrefixText;
    if bits != width {
      var n := Strlen(dst, text);
      SuffixText(bits, width);
      assert dst[..n] == dst[..][0..|text|];
      var q := PutString(dst, n, PrefixText(bits, width));
      assert dst[..][0..q] == dst[..n] + dst[..][n..q];
    } else {
      SuffixText(bits, width);
      assert text + "" == text;
    }
  }

  lemma {:induction false} SuffixText(bits: nat, width: nat)
    ensures PrefixText(bits, width) == if bits == width then "" else "/" + Dec(bits)
  {}

  function PowerOfTen(k: nat): nat {
    if k == 0 then 1 else 10 * PowerOfTen(k - 1)
  }

  lemma {:induction false} DecLength(n: nat, k: nat)
    requires n < PowerOfTen(k) && k > 0
    ensures |Dec(n)| <= k
    decreases k
  {
    if n >= 10 { DecLength(n / 10, k - 1); }
  }

  // ---- parsing ----

  /** What a parse yields: the type, the prefix length and the bytes the type uses. */
  datatype Parsed = Parsed(typ: nat, bits: nat, sig: seq<byte>)

  /** `gethostbyname`, as an oracle. */
  type Resolver = cstring -> Option<(byte, byte, byte, byte)>

  /** The first `/`, or the length of the text. */
  function SlashAt(s: cstring): (i: nat)
    ensures i <= |s| && (i < |s| ==> s[i] == '/') && forall k :: 0 <= k < i ==> s[k] != '/'
  {
    if s == "" || s[0] == '/' then 0 else 1 + SlashAt(s[1..])
  }

  /** The prefix length after the slash: a number, or a mask if there is a dot in it. */
  function BitsOf(tail: cstring): Option<nat> {
    if '.' in tail then
      match IpPtonSpec(tail)
      case None => None
      case Some(m) => Some(CountOnes(m))
    else
      var (l, ep) := Strtol(tail, false);
      if ep != "" || l < 0 then None else Some(l)
  }

  /** The parsers in the order they are tried, then the resolver. */
  function HostOf(head: cstring, resolve: Resolver): Option<Parsed> {
    if IpPtonSpec(head).Some? then Some(Parsed(ADDR_TYPE_IP, IP_ADDR_BITS, IpPtonSpec(head).value))
    else if EthPtonSpec(head).Some? then Some(Parsed(ADDR_TYPE_ETH, ETH_ADDR_BITS, EthPtonSpec(head).value))
    else if Ip6PtonSpec(head).Some? then Some(Parsed(ADDR_TYPE_IP6, IP6_ADDR_BITS, Bytes(Ip6PtonSpec(head).value)))
    else Resolved(head, resolve)
  }

  function Resolved(head: cstring, resolve: Resolver): Option<Parsed> {
    match resolve(head)
    case None => None
    case Some((a, b, c, d)) => Some(Parsed(ADDR_TYPE_IP, IP_ADDR_BITS, [a, b, c, d]))
  }

  function AddrPtonSpec(src: cstring, resolve: Resolver): Option<Parsed> {
    var i := SlashAt(src);
    var head := src[..i];
    if i == |src| then HostOf(head, resolve) else Limited(HostOf(head, resolve), BitsOf(src[i + 1..]))
  }

  /** A host with the prefix length that was read, if there are both and they go together. */
  function Limited(host: Option<Parsed>, bits: Option<nat>): Option<Parsed> {
    if host.None? || bits.None? || bits.value > host.value.bits then None
    else Some(host.value.(bits := bits.value))
  }

  /** Copies up to the first slash or the end into `tmp`. */
  method CopyHead(src: cstring) returns (head: cstring, i: nat)
    requires SlashAt(src) < 299
    ensures i == SlashAt(src) && head == src[..i]
  {
    var tmp := new char[300];
    i := 0;
    while i < |src| && src[i] != '/'
      invariant i <= SlashAt(src) && i <= 298 && tmp[..i] == src[..i]
      decreases |src| - i
    {
      tmp[i] := src[i];
      i := i + 1;
      assert tmp[..i] == tmp[..i - 1] + [src[i - 1]];
    }
    tmp[i] := '\0';
    head := tmp[..i];
  }

  method ReadBits(tail: cstring) returns (r: Option<nat>)
    ensures r == BitsOf(tail)
  {
    if '.' in tail {
      var m := new byte[4];
      var e := OctetsPton(tail, 4, false, m, 0);
      if e != 0 { return None; }
      assert m[..4] == m[0..4];
      var bits := AddrMtob(m, 4);
      return Some(bits);
    } else {
      var (l, ep) := Strtol(tail, false);
      if ep != "" || l < 0 { return None; }
      return Some(l);
    }
  }

  /** `addr_pton`. A text of more than 298 characters before its slash overruns `tmp`. */
  method AddrPton(src: cstring, dst: Addr, resolve: Resolver) returns (r: int)
    requires dst.Valid() && SlashAt(src) < 299
    modifies dst, dst.data8
    ensures dst.Valid()
    ensures r == if AddrPtonSpec(src, resolve).Some? then 0 else -1
    ensures r == 0 ==>
              var p := AddrPtonSpec(src, resolve).value;
              dst.typ == p.typ && dst.bits == p.bits && |p.sig| <= 16 && dst.data8[..|p.sig|] == p.sig
  {
    hide Octets, Ip6PtonSpec, BitsOf, SlashAt, Bytes;
    var head, i := CopyHead(src);
    var bits := -1;
    if i < |src| {
      var b := ReadBits(src[i + 1..]);
      if b == None { return -1; }
      bits := b.value;
    }
    var e := HostPton(head, dst, resolve);
    if e != 0 { return -1; }
    if bits >= 0 {
      if bits > dst.bits { return -1; }
      dst.bits := bits;
    }
    return 0;
  }

  /** The chain of parsers in `addr_pton`; those that fail may leave bytes behind. */
  method HostPton(head: cstring, dst: Addr, resolve: Resolver) returns (r: int)
    requires dst.Valid()
    modifies dst, dst.data8
    ensures dst.Valid()
    ensures r == if HostOf(head, resolve).Some? then 0 else -1
    ensures r == 0 ==>
              var p := HostOf(head, resolve).value;
              dst.typ == p.typ && dst.bits == p.bits && |p.sig| <= 16 && dst.data8[..|p.sig|] == p.sig
  {
    hide Octets, Ip6PtonSpec, Bytes;
    var e := OctetsPton(head, 4, false, dst.data8, 0);
    if e == 0 {
      dst.typ, dst.bits := ADDR_TYPE_IP, IP_ADDR_BITS;
      return 0;
    }
    e := OctetsPton(head, 6, true, dst.data8, 0);
    if e == 0 {
      dst.typ, dst.bits := ADDR_TYPE_ETH, ETH_ADDR_BITS;
      return 0;
    }
    e := Ip6Pton(head, dst.data8);
    if e == 0 {
      dst.typ, dst.bits := ADDR_TYPE_IP6, IP6_ADDR_BITS;
      return 0;
    }
    match resolve(head) {
      case None => return -1;
      case Some((a, b, c, d)) =>
        Memcpy(dst.data8, 0, [a, b, c, d]);
        dst.typ, dst.bits := ADDR_TYPE_IP, IP_ADDR_BITS;
        return 0;
    }
  }

  // ---- no text is taken for an address of an earlier type ----

  predicate NoSlash(s: cstring) {
    '/' !in s
  }

  /** Hexadecimal digits and a colon, read as decimal, stop at a letter or the colon. */
  lemma {:induction false} DecimalScanOfHex(s: cstring, rest: cstring, acc: nat)
    requires (forall k :: 0 <= k < |s| ==> IsDigit(s[k], true)) && rest != "" && rest[0] == ':'
    ensures var ep := Scan(s + rest, false, acc).1; ep != "" && ep[0] != '.'
  {
    if s == "" {
      assert s + rest == rest;
    } else {
      assert (s + rest)[1..] == s[1..] + rest;
      if IsDigit(s[0], false) {
        DecimalScanOfHex(s[1..], rest, 10 * acc + DigitValue(s[0]));
      }
    }
  }

  /** A text that starts with hexadecimal digits and a colon is no dotted quad. */
  lemma {:induction false} ColonTextIsNoQuad(s: cstring, rest: cstring)
    requires s != "" && (forall k :: 0 <= k < |s| ==> IsDigit(s[k], true)) && rest != "" && rest[0] == ':'
    ensures IpPtonSpec(s + rest) == None
  {
    var p := s + rest;
    assert p[0] == s[0];
    DecimalScanOfHex(s, rest, 0);
  }

  lemma {:induction false} LeadingColonIsNoOctets(p: cstring, n: nat, hex: bool)
    requires p != "" && p[0] == ':' && n > 0
    ensures Octets(p, n, hex) == None
  {}

  lemma {:induction false} EthTextIsNoQuad(b: seq<byte>)
    requires |b| == 6
    ensures IpPtonSpec(EthText(b)) == None
  {
    hide Octets;
    var rest: cstring := ":" + OctetsText(b[1..], true);
    assert EthText(b) == Hex2(b[0]) + rest;
    ColonTextIsNoQuad(Hex2(b[0]), rest);
  }

  /** Words with colons behind them are no MAC address: there are too many of them, or an empty
      word follows. */
  lemma {:induction false} ColonsAreNoMac(ws: seq<nat>, rest: cstring, n: nat)
    requires IsWords(ws) && n > 0 && rest != "" && (|ws| >= n || rest[0] == ':')
    ensures Octets(HexColons(ws) + rest, n, true) == None
    decreases |ws|
  {
    hide Strtol, Hex, HexColons;
    NoWords();
    if ws == [] {
      assert HexColons(ws) + rest == rest;
      StrtolNothing(rest);
    } else {
      HexColonsFirst(ws);
      var t := HexColons(ws[1..]) + rest;
      Assoc(Hex(ws[0]) + ":", HexColons(ws[1..]), rest);
      var p := Hex(ws[0]) + (":" + t);
      assert HexColons(ws) + rest == p;
      HexIsNumeral(ws[0]);
      StrtolNumeral(Hex(ws[0]), ":" + t, true);
      if n > 1 {
        assert (":" + t)[1..] == t;
        ColonsAreNoMac(ws[1..], rest, n - 1);
      }
    }
  }

  lemma {:induction false} StartsWithWord(ws: seq<nat>, rest: cstring)
    requires ws != []
    ensures IpPtonSpec(HexColons(ws) + rest) == None
  {
    hide Octets, Hex, HexColons;
    HexColonsFirst(ws);
    var t := ":" + (HexColons(ws[1..]) + rest);
    assert HexColons(ws) + rest == Hex(ws[0]) + t by {
      Assoc(Hex(ws[0]) + ":", HexColons(ws[1..]), rest);
      Assoc(Hex(ws[0]), ":", HexColons(ws[1..]) + rest);
    }
    HexChars(ws[0]);
    ColonTextIsNoQuad(Hex(ws[0]), t);
  }

  predicate Neither(p: cstring) {
    IpPtonSpec(p) == None && EthPtonSpec(p) == None
  }

  lemma {:induction false} LeadingColonIsNeither(p: cstring)
    requires p != "" && p[0] == ':'
    ensures Neither(p)
  {
    hide Octets;
    LeadingColonIsNoOctets(p, 4, false);
    LeadingColonIsNoOctets(p, 6, true);
  }

  lemma {:induction false} ColonsAreNeither(ws: seq<nat>, rest: cstring)
    requires ws != [] && IsWords(ws) && rest != "" && (|ws| >= 6 || rest[0] == ':')
    ensures Neither(HexColons(ws) + rest)
  {
    hide Octets, HexColons;
    StartsWithWord(ws, rest);
    ColonsAreNoMac(ws, rest, 6);
  }

  lemma {:induction false} GapTextIsNeither(w: seq<nat>, s: nat, c: nat)
    requires |w| == 8 && IsWords(w) && s + c <= 8
    ensures Neither(GapText(w, s, c))
  {
    hide Neither, HexColons, HexJoin;
    var p := GapText(w, s, c);
    if s == 0 {
      NoWords();
      assert w[..0] == [];
      LeadingColonIsNeither(p);
    } else {
      var tail := ":" + HexJoin(w[s + c..]);
      JoinThenColon(w[..s]);
      assert p == HexColons(w[..s]) + tail;
      ColonsAreNeither(w[..s], tail);
    }
  }

  /** No printed IPv6 address is a dotted quad or a MAC address. */
  lemma {:induction false} Ip6TextIsNeither(w: seq<nat>, bigEndian: bool)
    requires |w| == 8 && IsWords(w)
    ensures Neither(Ip6TextOf(w, bigEndian))
  {
    hide Neither, HexColons, Longest, IpText, Dotted, GapText;
    var (s, c) := Longest(w, 0);
    if c < 2 {
      HexJoinLast(w);
      ColonsAreNeither(w[..7], Hex(w[7]));
    } else if Dotted(w) {
      DottedRun(w);
      LeadingColonIsNeither(QuadText(w, c, bigEndian));
    } else {
      GapTextIsNeither(w, s, c);
    }
  }

  // ---- which texts are which addresses ----

  lemma {:induction false} DecimalIsHex(t: cstring)
    requires IsNumeral(t, false)
    ensures IsNumeral(t, true) && t[0] != ':'
  {}

  lemma {:induction false} DottedIsNoMac(t: cstring, rest: cstring)
    requires IsNumeral(t, false) && (rest == "" || rest[0] == '.')
    ensures EthPtonSpec(t + rest) == None
  {
    DecimalIsHex(t);
    hide Strtol, IsNumeral;
    StrtolNumeral(t, rest, true);
  }

  lemma {:induction false} DottedIsNoIp6(t: cstring, rest: cstring)
    requires IsNumeral(t, false) && (rest == "" || rest[0] == '.')
    ensures Ip6PtonSpec(t + rest) == None
  {
    DecimalIsHex(t);
    assert (t + rest)[0] == t[0];
    hide Strtol, IsNumeral, Octets;
    StrtolNumeral(t, rest, true);
  }

  /** Numbers with dots between them, of any count and size: an IPv4 address exactly when there are
      four of them and none exceeds 255, and otherwise left to the resolver. */
  lemma {:induction false} DottedHostRead(ts: seq<cstring>, resolve: Resolver)
    requires ts != [] && AreNumerals(ts, false)
    ensures var p, v := Joined(ts, '.'), NumeralValues(ts, false);
            HostOf(p, resolve)
            == if |ts| == 4 && AreOctets(v) then Some(Parsed(2, 32, AsOctets(v))) else Resolved(p, resolve)
  {
    hide Octets, Ip6PtonSpec, Joined, NumeralValues, AreOctets, AsOctets, IsNumeral, Resolved;
    OctetsRead(ts, 4, false);
    JoinedFirst(ts, '.');
    var rest := if |ts| == 1 then "" else "." + Joined(ts[1..], '.');
    assert ts[0] + "" == ts[0];
    DottedIsNoMac(ts[0], rest);
    DottedIsNoIp6(ts[0], rest);
  }

  /** Hexadecimal numbers with colons between them: a MAC address exactly when there are six of at
      most 255, an IPv6 address when there are eight of at most 16 bits. */
  lemma {:induction false} ColonHostRead(ts: seq<cstring>, resolve: Resolver)
    requires |ts| >= 2 && AreNumerals(ts, true)
    ensures var p, v := Joined(ts, ':'), NumeralValues(ts, true);
            HostOf(p, resolve)
            == if |ts| == 6 && AreOctets(v) then Some(Parsed(1, 48, AsOctets(v)))
               else if |ts| == 8 && IsWords(v) then Some(Parsed(3, 128, Bytes(v)))
               else Resolved(p, resolve)
  {
    hide Octets, Ip6PtonSpec, Joined, NumeralValues, AreOctets, AsOctets, IsWords, Bytes, Resolved;
    OctetsRead(ts, 6, true);
    PlainTextRead(ts);
    JoinedFirst(ts, ':');
    assert IsNumeral(ts[0], true);
    ColonTextIsNoQuad(ts[0], ":" + Joined(ts[1..], ':'));
  }

  /** What the resolver finds is an IPv4 address of 32 bits, and what it does not find is none. */
  lemma {:induction false} ResolvedIs(head: cstring, resolve: Resolver, a: byte, b: byte, c: byte, d: byte)
    ensures Resolved(head, resolve) == None <==> resolve(head) == None
    ensures Resolved(head, resolve) == Some(Parsed(2, 32, [a, b, c, d])) <==> resolve(head) == Some((a, b, c, d))
  {
    if resolve(head).Some? {
      var (x, y, z, u) := resolve(head).value;
      assert [x, y, z, u] == [a, b, c, d] <==> x == a && y == b && z == c && u == d by {
        assert [x, y, z, u][0] == x && [x, y, z, u][1] == y && [x, y, z, u][2] == z && [x, y, z, u][3] == u;
      }
    }
  }

  /** A mask behind the slash: refused unless it is four octets, and then its leading ones are counted. */
  lemma {:induction false} MaskRead(head: cstring, ts: seq<cstring>, resolve: Resolver)
    requires NoSlash(head) && |ts| >= 2 && AreNumerals(ts, false)
    ensures var host, v := HostOf(head, resolve), NumeralValues(ts, false);
            AddrPtonSpec(head + "/" + Joined(ts, '.'), resolve)
            == if host.None? || |ts| != 4 || !AreOctets(v) || CountOnes(AsOctets(v)) > host.value.bits then None
               else Some(host.value.(bits := CountOnes(AsOctets(v))))
  {
    hide HostOf, SlashAt, Octets, CountOnes, Joined, AreOctets, AsOctets, NumeralValues;
    var t := Joined(ts, '.');
    SlashAfter(head, t);
    var s := head + "/" + t;
    assert s[..|head|] == head && s[|head| + 1..] == t;
    OctetsRead(ts, 4, false);
    JoinedFirst(ts, '.');
    assert t[|ts[0]|] == '.';
  }

  /** A number behind the slash with anything but a dot behind it, or a negative one, is refused. */
  lemma {:induction false} BrokenPrefixRefused(head: cstring, t: cstring, rest: cstring, resolve: Resolver)
    requires NoSlash(head) && IsNumeral(t, false) && Stops(rest, false) && rest != "" && '.' !in rest
    ensures AddrPtonSpec(head + "/" + (t + rest), resolve) == None
    ensures NumeralValue(t, false) > 0 ==> AddrPtonSpec(head + "/" + ("-" + t), resolve) == None
  {
    hide HostOf, SlashAt, NumeralValue, Strtol;
    var p, m := t + rest, "-" + t;
    SlashAfter(head, p);
    SlashAfter(head, m);
    var s, u := head + "/" + p, head + "/" + m;
    assert s[..|head|] == head && s[|head| + 1..] == p && u[..|head|] == head && u[|head| + 1..] == m;
    NoDotInside(t);
    StrtolNumeral(t, rest, false);
    assert "" + ("-" + (t + "")) == m;
    StrtolByRule("", "-", t, "", false);
  }

  lemma {:induction false} HostBits(head: cstring, resolve: Resolver)
    requires HostOf(head, resolve).Some?
    ensures HostOf(head, resolve).value.bits <= 128
  {}

  /** Without a slash the host is the address; with one and a number behind it, the number is the
      prefix length, refused exactly when it exceeds the width of the host. */
  lemma {:induction false} PrefixRead(head: cstring, t: cstring, resolve: Resolver)
    requires NoSlash(head) && IsNumeral(t, false)
    ensures AddrPtonSpec(head, resolve) == HostOf(head, resolve)
    ensures var host, n := HostOf(head, resolve), NumeralValue(t, false);
            AddrPtonSpec(head + "/" + t, resolve)
            == if host.None? || n > host.value.bits then None else Some(host.value.(bits := n))
  {
    hide HostOf, SlashAt, NumeralValue, Strtol;
    SlashAfter(head, t);
    var s := head + "/" + t;
    assert s[..|head|] == head && s[|head| + 1..] == t && head[..|head|] == head && t + "" == t;
    StrtolNumeral(t, "", false);
    NoDotInside(t);
    if HostOf(head, resolve).Some? { HostBits(head, resolve); }
  }

  lemma {:induction false} NoDotInside(t: cstring)
    requires IsNumeral(t, false)
    ensures '.' !in t
  {
    assert forall k :: 0 <= k < |t| ==> IsDigit(t[k], false) && t[k] != '.';
  }

  // ---- the slash ----

  lemma {:induction false} SlashAfter(head: cstring, tail: cstring)
    requires NoSlash(head)
    ensures SlashAt(head + "/" + tail) == |head| && SlashAt(head) == |head|
  {
    var s := head + "/" + tail;
    assert s[|head|] == '/';
    assert forall k :: 0 <= k < |head| ==> head[k] in head && s[k] == head[k];
  }

  lemma {:induction false} DecHasNone(n: nat)
    ensures '/' !in Dec(n) && '.' !in Dec(n)
  {
    DecChars(n);
  }

  lemma {:induction false} OctetsTextHasNoSlash(b: seq<byte>, hex: bool)
    requires b != []
    ensures NoSlash(OctetsText(b, hex))
  {
    DecHasNone(b[0]);
    if |b| > 1 { OctetsTextHasNoSlash(b[1..], hex); }
  }

  lemma {:induction false} HexColonsHasNoSlash(w: seq<nat>)
    ensures NoSlash(HexColons(w)) && NoSlash(HexJoin(w))
    decreases |w|
  {
    hide Hex, HexColons, HexJoin;
    NoWords();
    if w != [] {
      HexColonsFirst(w);
      HexJoinLast(w);
      HexChars(w[0]);
      HexChars(w[|w| - 1]);
      HexColonsHasNoSlash(w[1..]);
      HexColonsHasNoSlash(w[..|w| - 1]);
    }
  }

  lemma {:induction false} HostTextHasNoSlash(typ: nat, data: seq<byte>, bigEndian: bool)
    requires |data| == 16 && typ in {ADDR_TYPE_IP, ADDR_TYPE_ETH, ADDR_TYPE_IP6}
    ensures NoSlash(HostText(typ, data, bigEndian))
  {
    hide OctetsText, HexColons, HexJoin, Longest, Words, Dotted;
    if typ == ADDR_TYPE_IP {
      OctetsTextHasNoSlash(data[..4], false);
    } else if typ == ADDR_TYPE_ETH {
      OctetsTextHasNoSlash(data[..6], true);
    } else {
      var w := Words(data);
      var (s, c) := Longest(w, 0);
      HexColonsHasNoSlash(w);
      HexColonsHasNoSlash(w[..s]);
      if c >= 2 {
        HexColonsHasNoSlash(w[s + c..]);
        if Dotted(w) {
          DottedRun(w);
          HexColonsHasNoSlash(w[c..6]);
          OctetsTextHasNoSlash(HostBytes(w[6], bigEndian) + HostBytes(w[7], bigEndian), false);
        }
      }
    }
  }

  lemma {:induction false} DottedRun(w: seq<nat>)
    requires |w| == 8 && Dotted(w)
    ensures 5 <= Longest(w, 0).1 <= 6 && Longest(w, 0).0 == 0
  {}

  // ---- the round trip ----

  lemma {:induction false} PrefixReadBack(bits: nat)
    requires bits <= 128
    ensures BitsOf(Dec(bits)) == Some(bits)
  {
    DecHasNone(bits);
    assert Dec(bits) + "" == Dec(bits);
    hide Strtol, Dec;
    DecIsNumeral(bits);
    StrtolNumeral(Dec(bits), "", false);
  }

  /** Parsing a host text with or without a prefix length behind it. */
  lemma {:induction false} WithPrefix(head: cstring, bits: nat, width: nat, resolve: Resolver)
    requires NoSlash(head) && bits <= width <= 128
    requires HostOf(head, resolve).Some? && HostOf(head, resolve).value.bits == width
    ensures AddrPtonSpec(head + PrefixText(bits, width), resolve)
         == Some(HostOf(head, resolve).value.(bits := bits))
  {
    hide HostOf, BitsOf, SlashAt, Dec;
    if bits == width {
      SlashAfter(head, "");
      assert head + "" == head && head[..|head|] == head;
    } else {
      var s := head + PrefixText(bits, width);
      SlashAfter(head, Dec(bits));
      assert s == head + "/" + Dec(bits);
      assert s[..|head|] == head && s[|head| + 1..] == Dec(bits);
      PrefixReadBack(bits);
    }
  }

  /** The significant bytes of an address. */
  function Significant(a: AddrVal): Parsed
    requires InWidth(a)
  {
    Parsed(a.typ, a.bits, a.data[..BytesOf(a.typ)])
  }

  /** The prefix length fits the type, and a MAC address has all its bits. */
  predicate Printable(a: AddrVal) {
    && InWidth(a)
    && a.typ in {ADDR_TYPE_IP, ADDR_TYPE_ETH, ADDR_TYPE_IP6}
    && (a.typ == ADDR_TYPE_ETH ==> a.bits == ETH_ADDR_BITS)
  }

  /** The family on which a little-endian host does not print what it will read back. */
  predicate Garbled(a: AddrVal, bigEndian: bool)
    requires Printable(a)
  {
    && a.typ == ADDR_TYPE_IP6 && !bigEndian && Dotted(Words(a.data))
    && (a.data[12] != a.data[13] || a.data[14] != a.data[15])
  }

  lemma {:induction false} HostReadBack(a: AddrVal, bigEndian: bool, resolve: Resolver)
    requires Printable(a)
    ensures var r := HostOf(HostText(a.typ, a.data, bigEndian), resolve);
            && r.Some? && r.value.typ == a.typ && r.value.bits == WidthOf(a.typ)
            && (r.value.sig == a.data[..BytesOf(a.typ)] <==> !Garbled(a, bigEndian))
  {
    hide Ip6TextOf, Ip6PtonSpec, Octets, Words, Bytes, Dotted;
    if a.typ == ADDR_TYPE_IP {
      OctetsRoundTrip(a.data[..4], false);
    } else if a.typ == ADDR_TYPE_ETH {
      EthTextIsNoQuad(a.data[..6]);
      OctetsRoundTrip(a.data[..6], true);
    } else {
      var w := Words(a.data);
      Ip6TextIsNeither(w, bigEndian);
      ParsePrinted(w, bigEndian);
      Ip6ReadBack(a.data, bigEndian);
      assert a.data[..16] == a.data;
    }
  }

  lemma {:induction false} Ip6ReadBack(d: seq<byte>, bigEndian: bool)
    requires |d| == 16
    ensures var w := Words(d);
            var r := Ip6PtonSpec(Ip6TextOf(w, bigEndian));
            && r.Some?
            && (Bytes(r.value) == d <==> !Dotted(w) || bigEndian || (d[12] == d[13] && d[14] == d[15]))
  {
    hide Ip6TextOf, Ip6PtonSpec, Words, Bytes, Dotted, HostWord, Hi, Lo;
    var w := Words(d);
    ParsePrinted(w, bigEndian);
    RoundTripIff(w, bigEndian);
    BytesOfWords(d);
    WordAt(d, 6);
    WordAt(d, 7);
    BytesOfOneWord(d[12], d[13]);
    BytesOfOneWord(d[14], d[15]);
    var r := Ip6PtonSpec(Ip6TextOf(w, bigEndian)).value;
    if Bytes(r) == d { BytesInjective(r, w); }
  }

  lemma {:induction false} BytesInjective(v: seq<nat>, w: seq<nat>)
    requires IsWords(v) && IsWords(w) && |v| == |w| && Bytes(v) == Bytes(w)
    ensures v == w
  {
    forall i | 0 <= i < |v|
      ensures v[i] == w[i]
    {
      ByteAt(v, i);
      ByteAt(w, i);
    }
  }

  /** `addr_pton(addr_ntop(a))` gives back the type, the prefix length and the significant bytes
      of every printable address that is not garbled, and of no other. */
  lemma {:induction false} AddrRoundTrip(a: AddrVal, bigEndian: bool, resolve: Resolver)
    requires Printable(a)
    ensures AddrPtonSpec(FullText(a, bigEndian), resolve) == Some(Significant(a)) <==> !Garbled(a, bigEndian)
    ensures SlashAt(FullText(a, bigEndian)) < 299
  {
    hide HostText, HostOf, AddrPtonSpec, Garbled, PrefixText;
    var head := HostText(a.typ, a.data, bigEndian);
    HostTextHasNoSlash(a.typ, a.data, bigEndian);
    HostReadBack(a, bigEndian, resolve);
    WithPrefix(head, a.bits, WidthOf(a.typ), resolve);
    HeadIsShort(a, bigEndian);
  }

  lemma {:induction false} HeadIsShort(a: AddrVal, bigEndian: bool)
    requires Printable(a)
    ensures SlashAt(FullText(a, bigEndian)) < 299
  {
    hide HostText, SlashAt, PrefixText;
    HostTextIsShort(a, bigEndian);
    PrefixTextIsShort(a.bits, WidthOf(a.typ));
  }

  lemma {:induction false} PrefixTextIsShort(bits: nat, width: nat)
    requires bits < 1000
    ensures |PrefixText(bits, width)| <= 4
  {
    hide Dec;
    assert PowerOfTen(3) == 1000;
    DecLength(bits, 3);
  }

  lemma {:induction false} HostTextIsShort(a: AddrVal, bigEndian: bool)
    requires Printable(a)
    ensures |HostText(a.typ, a.data, bigEndian)| <= 39
  {
    hide IpText, Ip6TextOf, Words, OctetsText, OctetsWithSeparators;
    if a.typ == ADDR_TYPE_IP {
      QuadLength(a.data[..4]);
    } else if a.typ == ADDR_TYPE_ETH {
      SeparatorsLength(a.data[..6], true);
      DropLastSeparator(a.data[..6], true);
    } else {
      TextLength(Words(a.data), bigEndian);
    }
  }

  /** `a/n` and `a/<dotted mask of n>` parse alike, whatever `a` is. */
  lemma {:induction false} MaskFormsAgree(head: cstring, n: nat, resolve: Resolver)
    requires NoSlash(head) && n <= 32
    ensures AddrPtonSpec(head + "/" + Dec(n), resolve) == AddrPtonSpec(head + "/" + IpText(Mask(n, 4)), resolve)
  {
    hide HostOf, BitsOf, SlashAt, Dec, IpText, Mask;
    var s, t := head + "/" + Dec(n), head + "/" + IpText(Mask(n, 4));
    SlashAfter(head, Dec(n));
    SlashAfter(head, IpText(Mask(n, 4)));
    assert s[..|head|] == head && s[|head| + 1..] == Dec(n);
    assert t[..|head|] == head && t[|head| + 1..] == IpText(Mask(n, 4));
    PrefixReadBack(n);
    MaskReadBack(n);
  }

  lemma {:induction false} MaskReadBack(n: nat)
    requires n <= 32
    ensures BitsOf(IpText(Mask(n, 4))) == Some(n)
  {
    hide Octets, Mask, OctetText;
    OctetsRoundTrip(Mask(n, 4), false);
    MaskLengthRoundTrip(n, 4, n);
    assert '.' in IpText(Mask(n, 4)) by {
      assert IpText(Mask(n, 4))[|OctetText(Mask(n, 4)[0], false)|] == '.';
    }
  }

  // ---- the test for a missing number ----

  /** The prefix length if the end of the number were compared with its start. The code compares it
      with the start of the whole text, which it never is. */
  function BitsMeant(tail: cstring): Option<nat> {
    if Strtol(tail, false).1 == tail && '.' !in tail then None else BitsOf(tail)
  }

  /** The comparison matters exactly when nothing follows the slash. */
  lemma {:induction false} WrongPointerIff(tail: cstring)
    ensures BitsOf(tail) != BitsMeant(tail) <==> tail == ""
  {
    hide IpPtonSpec, CountOnes;
    if tail == "" { assert Strtol("", false) == (0, ""); }
  }

  /** `addr_pton` with that comparison */
  function AddrPtonMeant(src: cstring, resolve: Resolver): Option<Parsed> {
    var i := SlashAt(src);
    var head := src[..i];
    if i == |src| then HostOf(head, resolve) else Limited(HostOf(head, resolve), BitsMeant(src[i + 1..]))
  }

  /** `addr_pton` accepts what it was not meant to exactly when a host is followed by a slash and
      nothing else; it then takes the prefix length to be 0. */
  lemma {:induction false} TrailingSlashIff(src: cstring, resolve: Resolver)
    ensures var i := SlashAt(src);
            AddrPtonSpec(src, resolve) != AddrPtonMeant(src, resolve)
            <==> i + 1 == |src| && HostOf(src[..i], resolve).Some?
    ensures AddrPtonSpec(src, resolve) != AddrPtonMeant(src, resolve) ==>
              AddrPtonMeant(src, resolve) == None
              && AddrPtonSpec(src, resolve) == Some(HostOf(src[..|src| - 1], resolve).value.(bits := 0))
  {
    hide HostOf, SlashAt, Strtol, IpPtonSpec, CountOnes;
    var i := SlashAt(src);
    if i < |src| {
      WrongPointerIff(src[i + 1..]);
      if i + 1 == |src| { NothingIsZero(src[i + 1..]); }
    }
  }

  lemma {:induction false} NothingIsZero(tail: cstring)
    requires tail == ""
    ensures BitsOf(tail) == Some(0) && BitsMeant(tail) == None
  {
    assert Strtol("", false) == (0, "");
  }
}
