/** Octets in decimal or hexadecimal with separators: `ip_ntop`, `ip_pton`, `eth_ntop` and `eth_pton`
    of src/addr-util.c. */
module AddrText {
  import opened CText
  import opened Memory

  function OctetText(b: byte, hex: bool): (r: cstring)
    ensures r != ""
  {
    if hex then Hex2(b) else Dec(b)
  }

  function Separator(hex: bool): (c: char)
    ensures c in {':', '.'}
  {
    if hex then ':' else '.'
  }

  /** The octets of `b` with separators between them. */
  function OctetsText(b: seq<byte>, hex: bool): (r: cstring)
    requires b != []
  {
    if |b| == 1 then OctetText(b[0], hex)
    else OctetText(b[0], hex) + [Separator(hex)] + OctetsText(b[1..], hex)
  }

  function IpText(b: seq<byte>): cstring
    requires |b| == 4
  {
    OctetsText(b, false)
  }

  function EthText(b: seq<byte>): cstring
    requires |b| == 6
  {
    OctetsText(b, true)
  }

  /** The loop of `ip_pton` and `eth_pton` from `n` octets before its end: the octets read. */
  function Octets(p: cstring, n: nat, hex: bool): (r: Option<seq<byte>>)
    requires n > 0
    ensures r.Some? ==> |r.value| == n
    decreases n
  {
    var (l, ep) := Strtol(p, hex);
    if |ep| == |p| || l < 0 || l > 255 || (n > 1 && At(ep) != Separator(hex)) then None
    else if n == 1 then (if ep == "" then Some([l]) else None)
    else Prepend([l], Octets(ep[1..], n - 1, hex))
  }

  function Prepend(d: seq<byte>, o: Option<seq<byte>>): Option<seq<byte>> {
    match o
    case None => None
    case Some(v) => Some(d + v)
  }

  lemma {:induction false} PrependTwice(d: seq<byte>, e: seq<byte>, o: Option<seq<byte>>)
    ensures Prepend([], o) == o
    ensures Prepend(d + e, o) == Prepend(d, Prepend(e, o))
  {
    match o
    case None =>
    case Some(v) => assert [] + v == v && (d + e) + v == d + (e + v);
  }

  function IpPtonSpec(p: cstring): (r: Option<seq<byte>>)
    ensures r.Some? ==> |r.value| == 4
  {
    Octets(p, 4, false)
  }

  function EthPtonSpec(p: cstring): (r: Option<seq<byte>>)
    ensures r.Some? ==> |r.value| == 6
  {
    Octets(p, 6, true)
  }

  lemma {:induction false} OctetReadBack(x: byte, rest: cstring, hex: bool)
    requires rest == "" || rest[0] == Separator(hex)
    ensures Strtol(OctetText(x, hex) + rest, hex) == (x as int, rest)
    ensures Separator(hex) != '\0'
  {
    if hex {
      PaddedIff(Hex2(x), x);
      StrtolNumeral(Hex2(x), rest, true);
    } else {
      DecIsNumeral(x);
      StrtolNumeral(Dec(x), rest, false);
    }
  }

  /** What was printed is read back, for any number of octets. */
  lemma {:induction false} OctetsRoundTrip(b: seq<byte>, hex: bool)
    requires b != []
    ensures Octets(OctetsText(b, hex), |b|, hex) == Some(b)
  {
    hide Strtol, OctetText, Separator, OctetsText, Octets;
    var rest := OctetsRest(b, hex);
    OctetReadBack(b[0], rest, hex);
    if |b| > 1 {
      OctetsRoundTrip(b[1..], hex);
      assert b == [b[0]] + b[1..];
      OctetsStep(OctetsText(b, hex), rest, b[0], |b|, hex);
    } else {
      assert b == [b[0]];
      OctetsStep(OctetsText(b, hex), rest, b[0], 1, hex);
    }
  }

  /** What stands behind the first octet. */
  lemma {:induction false} OctetsRest(b: seq<byte>, hex: bool) returns (rest: cstring)
    requires b != []
    ensures OctetsText(b, hex) == OctetText(b[0], hex) + rest
    ensures if |b| == 1 then rest == "" else rest != "" && rest[0] == Separator(hex) && rest[1..] == OctetsText(b[1..], hex)
  {
    hide OctetText, Separator;
    if |b| == 1 {
      rest := "";
      assert OctetText(b[0], hex) + rest == OctetText(b[0], hex);
    } else {
      var t := OctetsText(b[1..], hex);
      rest := [Separator(hex)] + t;
      assert rest[1..] == t;
      Assoc(OctetText(b[0], hex), [Separator(hex)], t);
    }
  }

  lemma {:induction false} OctetsStep(p: cstring, rest: cstring, x: byte, n: nat, hex: bool)
    requires n > 0 && Strtol(p, hex) == (x as int, rest) && |rest| < |p|
    requires if n == 1 then rest == "" else rest != "" && rest[0] == Separator(hex)
    ensures Octets(p, n, hex) == if n == 1 then Some([x]) else Prepend([x], Octets(rest[1..], n - 1, hex))
  {
    hide Strtol, Separator;
  }

  // ---- what the readers accept ----

  predicate AreOctets(v: seq<nat>) {
    forall i :: 0 <= i < |v| ==> v[i] <= 255
  }

  function AsOctets(v: seq<nat>): (b: seq<byte>)
    requires AreOctets(v)
    ensures |b| == |v|
  {
    if v == [] then [] else [v[0]] + AsOctets(v[1..])
  }

  lemma {:induction false} FirstOctet(x: nat, v: seq<nat>)
    ensures AreOctets([x] + v) <==> x <= 255 && AreOctets(v)
    ensures AreOctets([x] + v) ==> AsOctets([x] + v) == [x] + AsOctets(v)
  {
    var w := [x] + v;
    assert w[0] == x && forall i :: 0 <= i < |v| ==> w[i + 1] == v[i];
    assert w[1..] == v;
  }

  lemma {:induction false} OneOctetText(t: cstring, rest: cstring, n: nat, hex: bool)
    requires IsNumeral(t, hex) && n > 0 && (rest == "" || rest[0] == Separator(hex))
    ensures Octets(t + rest, n, hex)
         == if NumeralValue(t, hex) > 255 || (n == 1) != (rest == "") then None
            else if n == 1 then Some([NumeralValue(t, hex)])
            else Prepend([NumeralValue(t, hex)], Octets(rest[1..], n - 1, hex))
  {
    hide Strtol, NumeralValue;
    StrtolNumeral(t, rest, hex);
  }

  /** Numerals with separators between them, of any size and however they are written: accepted
      exactly when there are `n` of them and none exceeds 255, and read as those octets. */
  lemma {:induction false} OctetsRead(ts: seq<cstring>, n: nat, hex: bool)
    requires ts != [] && AreNumerals(ts, hex) && n > 0
    ensures Octets(Joined(ts, Separator(hex)), n, hex)
         == if |ts| == n && AreOctets(NumeralValues(ts, hex)) then Some(AsOctets(NumeralValues(ts, hex))) else None
    decreases |ts|
  {
    hide Octets, Joined, NumeralValue, Separator, AreOctets, AsOctets;
    var c, t, more := Separator(hex), ts[0], ts[1..];
    JoinedFirst(ts, c);
    FirstOctet(NumeralValue(t, hex), NumeralValues(more, hex));
    var x := NumeralValue(t, hex);
    assert NumeralValues(ts, hex) == [x] + NumeralValues(more, hex);
    if more == [] {
      assert t + "" == t && [x] + [] == [x];
      OneOctetText(t, "", n, hex);
      NoOctets();
    } else {
      var rest := [c] + Joined(more, c);
      assert rest[1..] == Joined(more, c);
      OneOctetText(t, rest, n, hex);
      if n > 1 { OctetsRead(more, n - 1, hex); }
    }
  }

  /** `rest` starts with something that is no number. */
  predicate NoNumberIn(rest: cstring, hex: bool) {
    rest == "" || (Stops(rest, hex) && !IsSpace(rest[0]) && rest[0] !in {'+', '-'})
  }

  lemma {:induction false} NothingRead(rest: cstring, hex: bool)
    requires NoNumberIn(rest, hex)
    ensures Strtol(rest, hex) == (0, rest)
  {
    assert "" + ("" + rest) == rest;
    hide Strtol;
    StrtolByRule("", "", "", rest, hex);
  }

  lemma {:induction false} EndedThen(ts: seq<cstring>, n: nat, hex: bool, rest: cstring)
    requires AreNumerals(ts, hex) && n > 0
    requires forall m: nat {:trigger Octets(rest, m, hex)} :: 0 < m <= n ==> Octets(rest, m, hex) == None
    ensures Octets(Ended(ts, Separator(hex)) + rest, n, hex) == None
    decreases |ts|
  {
    hide Octets, Separator, IsNumeral;
    var c := Separator(hex);
    if ts == [] {
      assert Ended(ts, c) + rest == rest;
    } else {
      var more := Ended(ts[1..], c) + rest;
      Assoc(ts[0] + [c], Ended(ts[1..], c), rest);
      Assoc(ts[0], [c], more);
      assert ([c] + more)[1..] == more;
      OneOctetText(ts[0], [c] + more, n, hex);
      if n > 1 { EndedThen(ts[1..], n - 1, hex, rest); }
    }
  }

  /** Refused are an empty octet, a separator at the end, and anything but a separator behind a number. */
  lemma {:induction false} BrokenOctetsRefused(ts: seq<cstring>, t: cstring, rest: cstring, n: nat, hex: bool)
    requires AreNumerals(ts, hex) && n > 0 && NoNumberIn(rest, hex)
    ensures Octets(Ended(ts, Separator(hex)) + rest, n, hex) == None
    ensures IsNumeral(t, hex) && rest != "" && rest[0] != Separator(hex) ==>
              Octets(Ended(ts, Separator(hex)) + (t + rest), n, hex) == None
  {
    forall m: nat | 0 < m <= n
      ensures Octets(rest, m, hex) == None
    {
      NothingRead(rest, hex);
      hide Strtol;
    }
    EndedThen(ts, n, hex, rest);
    if IsNumeral(t, hex) && rest != "" && rest[0] != Separator(hex) {
      forall m: nat | 0 < m <= n
        ensures Octets(t + rest, m, hex) == None
      {
        StrtolNumeral(t, rest, hex);
        hide Strtol, IsNumeral, NumeralValue;
      }
      EndedThen(ts, n, hex, t + rest);
    }
  }

  /** What is printed: the numbers of the tables with dots or colons between them. */
  lemma {:induction false} OctetsTextIs(b: seq<byte>, ts: seq<cstring>, hex: bool)
    requires b != [] && |ts| == |b|
    requires forall i :: 0 <= i < |b| ==> ts[i] == if hex then Hex2(b[i]) else Dec(b[i])
    ensures OctetsText(b, hex) == Joined(ts, if hex then ':' else '.')
  {
    hide Dec, Hex2, Joined;
    var c := if hex then ':' else '.';
    JoinedFirst(ts, c);
    if |b| > 1 {
      OctetsTextIs(b[1..], ts[1..], hex);
      Assoc(ts[0], [c], Joined(ts[1..], c));
    }
  }

  lemma {:induction false} NoOctets()
    ensures AreOctets([]) && AsOctets([]) == []
  {}

  /** `ip_pton` and `eth_pton` store octets while they read; the verdict is theirs alone. */
  method OctetsPton(src: cstring, n: nat, hex: bool, data: array<byte>, off: nat) returns (r: int)
    requires n > 0 && off + n <= data.Length
    modifies data
    ensures r == if Octets(src, n, hex).Some? then 0 else -1
    ensures r == 0 ==> data[off..off + n] == Octets(src, n, hex).value
    ensures data[..off] == old(data[..off]) && data[off + n..] == old(data[off + n..])
  {
    hide Strtol;
    var p: cstring := src;
    var ep: cstring := "";
    var i := 0;
    assert data[off..off] == [];
    PrependTwice([], [], Octets(src, n, hex));
    while i < n
      invariant i <= n
      invariant i < n ==> Octets(src, n, hex) == Prepend(data[off..off + i], Octets(p, n - i, hex))
      invariant i == n ==> Octets(src, n, hex) == if ep == "" then Some(data[off..off + n]) else None
      invariant data[..off] == old(data[..off]) && data[off + n..] == old(data[off + n..])
    {
      var q := Strtol(p, hex);
      var l := q.0;
      ep := q.1;
      if |ep| == |p| || l < 0 || l > 255 || (i < n - 1 && At(ep) != Separator(hex)) { return -1; }
      ghost var d := data[off..off + i];
      data[off + i] := l;
      assert data[off..off + i + 1] == d + [l as byte];
      if i < n - 1 {
        p := ep[1..];
        PrependTwice(d, [l as byte], Octets(p, n - i - 1, hex));
      } else {
        PrependTwice(d, [l as byte], Some([]));
      }
      i := i + 1;
    }
    return if ep == "" then 0 else -1;
  }

  /** The text the printing loop has produced before it drops the last separator. */
  function OctetsWithSeparators(b: seq<byte>, hex: bool): cstring {
    if b == [] then "" else OctetsWithSeparators(b[..|b| - 1], hex) + OctetText(b[|b| - 1], hex) + [Separator(hex)]
  }

  lemma {:induction false} DropLastSeparator(b: seq<byte>, hex: bool)
    requires b != []
    ensures OctetsWithSeparators(b, hex) == OctetsText(b, hex) + [Separator(hex)]
  {
    SeparatorsFromFront(b, hex);
    if |b| > 1 {
      DropLastSeparator(b[1..], hex);
    } else {
      assert OctetsWithSeparators(b[1..], hex) == "";
    }
  }

  lemma {:induction false} SeparatorsFromFront(b: seq<byte>, hex: bool)
    requires b != []
    ensures OctetsWithSeparators(b, hex)
         == OctetText(b[0], hex) + [Separator(hex)] + OctetsWithSeparators(b[1..], hex)
  {
    hide OctetText, Separator;
    var n := |b|;
    if n == 1 {
      assert OctetsWithSeparators(b[..0], hex) == "" && OctetsWithSeparators(b[1..], hex) == "";
    } else {
      var t, last := b[..n - 1], OctetText(b[n - 1], hex) + [Separator(hex)];
      SeparatorsFromFront(t, hex);
      assert t[1..] == b[1..][..n - 2];
      SeparatorsLast(b, hex);
      SeparatorsLast(b[1..], hex);
      hide OctetsWithSeparators;
      Assoc(OctetText(b[0], hex) + [Separator(hex)], OctetsWithSeparators(t[1..], hex), last);
    }
  }

  lemma {:induction false} SeparatorsLast(b: seq<byte>, hex: bool)
    requires b != []
    ensures OctetsWithSeparators(b, hex)
         == OctetsWithSeparators(b[..|b| - 1], hex) + (OctetText(b[|b| - 1], hex) + [Separator(hex)])
  {
    hide OctetText, Separator;
  }

  lemma {:induction false} OctetTextLength(b: byte, hex: bool)
    ensures |OctetText(b, hex)| <= if hex then 2 else 3
  {
    if !hex && b >= 10 {
      assert |Dec(b / 10)| == if b / 10 < 10 then 1 else |Dec(b / 10 / 10)| + 1;
    }
  }

  /** Room for `n` octets, each with a separator. */
  function Room(n: nat, hex: bool): nat {
    if hex then 3 * n else 4 * n
  }

  lemma {:induction false} SeparatorsLength(b: seq<byte>, hex: bool)
    ensures |OctetsWithSeparators(b, hex)| <= Room(|b|, hex)
  {
    if b != [] {
      SeparatorsLength(b[..|b| - 1], hex);
      OctetTextLength(b[|b| - 1], hex);
    }
  }

  /** One table string and its separator. */
  method PutOctet(dst: array<char>, ghost off: nat, p: nat, b: byte, hex: bool) returns (q: nat)
    requires off <= p && p + Room(1, hex) <= dst.Length
    modifies dst
    ensures p < q <= p + Room(1, hex)
    ensures dst[off..q] == old(dst[off..p]) + OctetText(b, hex) + [Separator(hex)]
    ensures dst[..off] == old(dst[..off])
  {
    ghost var before := dst[off..p];
    OctetTextLength(b, hex);
    q := PutString(dst, p, OctetText(b, hex));
    assert dst[off..p] == dst[..p][off..] == before;
    dst[q] := Separator(hex);
    assert dst[off..q + 1] == dst[off..p] + dst[p..q] + [dst[q]];
    q := q + 1;
  }

  lemma {:induction false} NoSeparators(hex: bool)
    ensures OctetsWithSeparators([], hex) == ""
  {}

  /** The loops of `ip_ntop` and `eth_ntop` through the pointer `dst + off`. */
  method OctetsNtop(data: seq<byte>, hex: bool, dst: array<char>, off: nat)
    requires data != [] && off + Room(|data|, hex) <= dst.Length
    modifies dst
    ensures StringAt(dst[..], off, OctetsText(data, hex))
    ensures dst[..off] == old(dst[..off])
  {
    hide OctetText, Separator, OctetsText, OctetsWithSeparators;
    var p := off;
    NoSeparators(hex);
    assert data[..0] == [];
    for i := 0 to |data|
      invariant off <= p <= off + Room(i, hex) && (i > 0 ==> p > off)
      invariant dst[off..p] == OctetsWithSeparators(data[..i], hex)
      invariant dst[..off] == old(dst[..off])
    {
      p := PutOctet(dst, off, p, data[i], hex);
      SeparatorsLast(data[..i + 1], hex);
      assert data[..i + 1][..i] == data[..i];
    }
    assert data[..|data|] == data;
    DropLastSeparator(data, hex);
    EndOctets(dst, off, p, OctetsText(data, hex), Separator(hex));
  }

  /** `p[-1] = '\0'` */
  method EndOctets(dst: array<char>, ghost off: nat, p: nat, ghost text: string, ghost last: char)
    requires off < p <= dst.Length && dst[off..p] == text + [last]
    modifies dst
    ensures StringAt(dst[..], off, text)
    ensures dst[..off] == old(dst[..off])
  {
    ghost var full := dst[off..p];
    dst[p - 1] := '\0';
    assert dst[off..p - 1] == full[..|text|] == text;
  }

  /** `ip_ntop`: NULL when fewer than 16 characters are available. */
  method IpNtop(data: seq<byte>, dst: array<char>, off: nat, len: nat) returns (ok: bool)
    requires |data| == 4 && off + len <= dst.Length
    modifies dst
    ensures ok == (len >= 16)
    ensures ok ==> StringAt(dst[..], off, IpText(data))
    ensures dst[..off] == old(dst[..off])
  {
    if len < 16 { return false; }
    OctetsNtop(data, false, dst, off);
    return true;
  }

  /** `eth_ntop`: NULL when fewer than 18 characters are available. */
  method EthNtop(data: seq<byte>, dst: array<char>, len: nat) returns (ok: bool)
    requires |data| == 6 && len <= dst.Length
    modifies dst
    ensures ok == (len >= 18)
    ensures ok ==> StringAt(dst[..], 0, EthText(data))
  {
    if len < 18 { return false; }
    OctetsNtop(data, true, dst, 0);
    return true;
  }
}
