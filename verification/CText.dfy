/** C strings and the number conversions that the address codecs rely on. */
module CText {
  import opened Memory

  /** A C string without its terminator. A pointer into it is the suffix it points to. */
  type cstring = s: string | '\0' !in s witness ""

  /** The character a pointer points to. */
  function At(p: cstring): char {
    if p == "" then '\0' else p[0]
  }

  const LONG_MAX: int := 0x7fff_ffff

  predicate IsSpace(c: char) {
    c == ' ' || 9 <= c as int <= 13
  }

  predicate IsDigit(c: char, hex: bool) {
    '0' <= c <= '9' || (hex && ('a' <= c <= 'f' || 'A' <= c <= 'F'))
  }

  function DigitValue(c: char): (v: nat)
    requires IsDigit(c, true)
    ensures v < 16
  {
    if c <= '9' then c as int - '0' as int
    else if c <= 'F' then c as int - 'A' as int + 10
    else c as int - 'a' as int + 10
  }

  function SkipSpace(p: cstring): (r: cstring)
    ensures |r| <= |p|
  {
    if p != "" && IsSpace(p[0]) then SkipSpace(p[1..]) else p
  }

  /** Reads digits onto `acc` up to the first character that is none. */
  function Scan(p: cstring, hex: bool, acc: nat): (r: (nat, cstring))
    ensures |r.1| <= |p|
  {
    if p != "" && IsDigit(p[0], hex) then
      Scan(p[1..], hex, Shifted(acc, hex) + DigitValue(p[0]))
    else (acc, p)
  }

  function Clamp(n: int): int {
    if n > LONG_MAX then LONG_MAX else if n < -LONG_MAX - 1 then -LONG_MAX - 1 else n
  }

  /** `strtol(p, &ep, hex ? 16 : 10)`: the value and `ep`. Without a digit `ep` is `p`. */
  function Strtol(p: cstring, hex: bool): (r: (int, cstring))
    ensures |r.1| <= |p|
  {
    var u := SkipSpace(p);
    var neg := u != "" && u[0] == '-';
    var v := if u != "" && (u[0] == '-' || u[0] == '+') then u[1..] else u;
    var w := if hex && |v| >= 3 && v[0] == '0' && (v[1] == 'x' || v[1] == 'X') && IsDigit(v[2], true) then v[2..] else v;
    if w == "" || !IsDigit(w[0], hex) then (0, p)
    else
      var (n, ep) := Scan(w, hex, 0);
      (Clamp(if neg then -(n as int) else n), ep)
  }

  // ---- printing ----

  function DigitChar(d: nat): (c: char)
    requires d < 16
    ensures IsDigit(c, true) && DigitValue(c) == d && (d < 10 ==> IsDigit(c, false))
    ensures !IsSpace(c) && c !in {'-', '+', 'x', 'X', ':', '.', '/', '\0'} && !('A' <= c <= 'Z')
  {
    if d < 10 then ('0' as int + d) as char else ('a' as int + d - 10) as char
  }

  /** `%d` of a number that is not negative (and the strings of the `octet2dec` table). */
  function Dec(n: nat): (r: cstring)
    ensures r != ""
  {
    if n < 10 then [DigitChar(n)] else Dec(n / 10) + [DigitChar(n % 10)]
  }

  /** `%x` */
  function Hex(n: nat): (r: cstring)
    ensures r != ""
  {
    if n < 16 then [DigitChar(n)] else Hex(n / 16) + [DigitChar(n % 16)]
  }

  /** The strings of the `octet2hex` table: always two digits. */
  function Hex2(n: byte): (r: cstring)
    ensures |r| == 2
  {
    [DigitChar(n / 16), DigitChar(n % 16)]
  }

  // ---- reading back what was printed ----

  /** `p` does not continue a number. */
  predicate Stops(p: cstring, hex: bool) {
    p == "" || (!IsDigit(p[0], hex) && p[0] !in {'x', 'X'})
  }

  lemma {:induction false} DecChars(n: nat)
    ensures forall k :: 0 <= k < |Dec(n)| ==> IsDigit(Dec(n)[k], false)
  {
    if n >= 10 { DecChars(n / 10); }
  }

  lemma {:induction false} HexChars(n: nat)
    ensures forall k :: 0 <= k < |Hex(n)| ==> IsDigit(Hex(n)[k], true)
  {
    if n >= 16 { HexChars(n / 16); }
  }

  lemma {:induction false} ScanStops(s: cstring, rest: cstring, hex: bool, acc: nat)
    requires forall k :: 0 <= k < |s| ==> IsDigit(s[k], hex)
    requires Stops(rest, hex)
    ensures Scan(s + rest, hex, acc).1 == rest
  {
    if s == "" {
      assert s + rest == rest;
    } else {
      assert (s + rest)[1..] == s[1..] + rest;
      ScanStops(s[1..], rest, hex, Shifted(acc, hex) + DigitValue(s[0]));
    }
  }

  /** A run of digits followed by a separator: the number is the run, the pointer stops after it. */
  lemma {:induction false} StrtolDigits(s: cstring, rest: cstring, hex: bool)
    requires s != "" && forall k :: 0 <= k < |s| ==> IsDigit(s[k], hex)
    requires Stops(rest, hex)
    ensures Strtol(s + rest, hex) == (Clamp(Scan(s + rest, hex, 0).0), rest)
  {
    ScanStops(s, rest, hex, 0);
    var p := s + rest;
    assert p[0] == s[0];
    assert |p| >= 2 ==> p[1] == if |s| >= 2 then s[1] else rest[0];
  }

  /** Any way to write a number in hexadecimal or decimal: with leading zeros or not, letters in upper
      or lower case. */
  predicate IsNumeral(t: cstring, hex: bool) {
    t != "" && forall k :: 0 <= k < |t| ==> IsDigit(t[k], hex)
  }

  function Base(hex: bool): nat {
    if hex then 16 else 10
  }

  /** Room for one more digit. */
  function Shifted(n: nat, hex: bool): nat {
    if hex then 16 * n else 10 * n
  }

  function NumeralValue(t: cstring, hex: bool): nat
    requires forall k :: 0 <= k < |t| ==> IsDigit(t[k], hex)
  {
    if t == "" then 0
    else
      assert IsDigit(t[|t| - 1], hex);
      Shifted(NumeralValue(t[..|t| - 1], hex), hex) + DigitValue(t[|t| - 1])
  }

  lemma {:induction false} ScanNumeral(t: cstring, rest: cstring, p: cstring, hex: bool)
    requires p == t + rest && forall k :: 0 <= k < |t| ==> IsDigit(t[k], hex)
    ensures Scan(p, hex, 0) == Scan(rest, hex, NumeralValue(t, hex))
    decreases |t|
  {
    if t == "" {
      assert p == rest;
    } else {
      var m, c := t[..|t| - 1], t[|t| - 1];
      var more: cstring := [c] + rest;
      assert p == m + more && more[1..] == rest;
      ScanNumeral(m, more, p, hex);
    }
  }

  lemma {:induction false} StrtolNumeral(t: cstring, rest: cstring, hex: bool)
    requires IsNumeral(t, hex) && Stops(rest, hex)
    ensures Strtol(t + rest, hex) == (Clamp(NumeralValue(t, hex)), rest)
  {
    hide Strtol;
    StrtolDigits(t, rest, hex);
    ScanNumeral(t, rest, t + rest, hex);
  }

  lemma {:induction false} HexIsNumeral(n: nat)
    ensures IsNumeral(Hex(n), true) && NumeralValue(Hex(n), true) == n && Normal(Hex(n))
    ensures Hex(n)[0] == '0' <==> n == 0
  {
    HexChars(n);
    if n >= 16 {
      HexIsNumeral(n / 16);
      assert Hex(n)[..|Hex(n)| - 1] == Hex(n / 16);
    }
  }

  lemma {:induction false} DecIsNumeral(n: nat)
    ensures IsNumeral(Dec(n), false) && NumeralValue(Dec(n), false) == n && Normal(Dec(n))
    ensures Dec(n)[0] == '0' <==> n == 0
  {
    DecChars(n);
    if n >= 10 {
      DecIsNumeral(n / 10);
      assert Dec(n)[..|Dec(n)| - 1] == Dec(n / 10);
    }
  }

  /** The characters that count as digits and as space. */
  lemma {:induction false} CharClasses(c: char)
    ensures IsDigit(c, false) <==> c in "0123456789"
    ensures IsDigit(c, true) <==> c in "0123456789abcdefABCDEF"
    ensures forall k :: 0 <= k < 16 && (c == "0123456789abcdef"[k] || c == "0123456789ABCDEF"[k]) ==> DigitValue(c) == k
    ensures IsSpace(c) <==> c in " \t\n\r" || c == 11 as char || c == 12 as char
  {}

  lemma {:induction false} SpaceSkipped(sp: cstring, p: cstring)
    requires (forall k :: 0 <= k < |sp| ==> IsSpace(sp[k])) && (p == "" || !IsSpace(p[0]))
    ensures SkipSpace(sp + p) == p
  {
    if sp == "" {
      assert sp + p == p;
    } else {
      assert (sp + p)[1..] == sp[1..] + p;
      SpaceSkipped(sp[1..], p);
    }
  }

  lemma {:induction false} ScanEnds(rest: cstring, hex: bool, acc: nat)
    requires Stops(rest, hex)
    ensures Scan(rest, hex, acc) == (acc, rest)
  {}

  /** Space and a sign in front of `v`, whose digits start at `w`. */
  lemma {:induction false} SignedNumber(sp: cstring, sign: cstring, v: cstring, w: cstring, hex: bool)
    requires (forall k :: 0 <= k < |sp| ==> IsSpace(sp[k])) && sign in {"", "+", "-"}
    requires v != "" && !IsSpace(v[0]) && v[0] !in {'+', '-'} && w != "" && IsDigit(w[0], hex)
    requires w == if hex && |v| >= 3 && v[0] == '0' && v[1] in {'x', 'X'} && IsDigit(v[2], true) then v[2..] else v
    ensures var (n, ep) := Scan(w, hex, 0);
            Strtol(sp + (sign + v), hex) == (Clamp(if sign == "-" then -(n as int) else n), ep)
  {
    hide Scan, SkipSpace, Clamp;
    var u := sign + v;
    SignIsNoSpace(sign, v);
    SpaceSkipped(sp, u);
    if sign == "" { assert u == v; } else { assert u[0] == sign[0] && u[1..] == v; }
  }

  lemma {:induction false} SignIsNoSpace(sign: cstring, v: cstring)
    requires sign in {"", "+", "-"} && (sign != "" || v == "" || !IsSpace(v[0]))
    ensures sign + v == "" || !IsSpace((sign + v)[0])
  {
    if sign == "" { assert sign + v == v; }
  }

  lemma {:induction false} NoNumber(sp: cstring, sign: cstring, rest: cstring, hex: bool)
    requires (forall k :: 0 <= k < |sp| ==> IsSpace(sp[k])) && sign in {"", "+", "-"} && Stops(rest, hex)
    requires sign != "" || rest == "" || (!IsSpace(rest[0]) && rest[0] !in {'+', '-'})
    ensures Strtol(sp + (sign + rest), hex) == (0, sp + (sign + rest))
  {
    hide Scan, SkipSpace, Clamp;
    var u := sign + rest;
    SignIsNoSpace(sign, rest);
    SpaceSkipped(sp, u);
    if sign == "" { assert u == rest; } else { assert u[0] == sign[0] && u[1..] == rest; }
  }

  /** `strtol` by rule: space, a sign, `0x` in base 16, digits; without digits nothing is read. */
  lemma {:induction false} StrtolByRule(sp: cstring, sign: cstring, t: cstring, rest: cstring, hex: bool)
    requires (forall k :: 0 <= k < |sp| ==> IsSpace(sp[k])) && sign in {"", "+", "-"} && Stops(rest, hex)
    ensures IsNumeral(t, hex) ==>
              var n := NumeralValue(t, hex);
              var value := if sign == "-" then -(n as int) else n;
              && Strtol(sp + (sign + (t + rest)), hex) == (Clamp(value), rest)
              && (hex ==> Strtol(sp + (sign + ("0x" + (t + rest))), hex) == (Clamp(value), rest))
    ensures sign != "" || rest == "" || (!IsSpace(rest[0]) && rest[0] !in {'+', '-'}) ==>
              Strtol(sp + (sign + rest), hex) == (0, sp + (sign + rest))
  {
    hide NumeralValue, Scan, Strtol;
    if IsNumeral(t, hex) {
      ScanNumeral(t, rest, t + rest, hex);
      ScanEnds(rest, hex, NumeralValue(t, hex));
      assert (t + rest)[0] == t[0] && (|t + rest| > 1 ==> (t + rest)[1] == if |t| > 1 then t[1] else rest[0]);
      SignedNumber(sp, sign, t + rest, t + rest, hex);
      if hex {
        var x: cstring := "0x" + (t + rest);
        assert x[2..] == t + rest;
        SignedNumber(sp, sign, x, t + rest, hex);
      }
    }
    if sign != "" || rest == "" || (!IsSpace(rest[0]) && rest[0] !in {'+', '-'}) {
      NoNumber(sp, sign, rest, hex);
    }
  }

  ghost predicate AreNumerals(ts: seq<cstring>, hex: bool) {
    forall i :: 0 <= i < |ts| ==> IsNumeral(ts[i], hex)
  }

  function NumeralValues(ts: seq<cstring>, hex: bool): (v: seq<nat>)
    requires AreNumerals(ts, hex)
    ensures |v| == |ts|
  {
    if ts == [] then [] else [NumeralValue(ts[0], hex)] + NumeralValues(ts[1..], hex)
  }

  /** Texts, each with `c` behind it. */
  function Ended(ts: seq<cstring>, c: char): cstring
    requires c != '\0'
  {
    if ts == [] then "" else ts[0] + [c] + Ended(ts[1..], c)
  }

  /** Texts with `c` between them. */
  function Joined(ts: seq<cstring>, c: char): cstring
    requires c != '\0'
  {
    if ts == [] then "" else Ended(ts[..|ts| - 1], c) + ts[|ts| - 1]
  }

  lemma {:induction false} EndedAppend(ts: seq<cstring>, t: cstring, c: char)
    requires c != '\0'
    ensures Ended(ts + [t], c) == Ended(ts, c) + (t + [c])
  {
    if ts == [] {
      assert (ts + [t])[1..] == [];
    } else {
      assert (ts + [t])[1..] == ts[1..] + [t];
      EndedAppend(ts[1..], t, c);
    }
  }

  lemma {:induction false} JoinedThenEnd(ts: seq<cstring>, c: char)
    requires ts != [] && c != '\0'
    ensures Joined(ts, c) + [c] == Ended(ts, c)
  {
    EndedAppend(ts[..|ts| - 1], ts[|ts| - 1], c);
    assert ts == ts[..|ts| - 1] + [ts[|ts| - 1]];
  }

  lemma {:induction false} JoinedFirst(ts: seq<cstring>, c: char)
    requires ts != [] && c != '\0'
    ensures Joined(ts, c) == if |ts| == 1 then ts[0] else ts[0] + ([c] + Joined(ts[1..], c))
  {
    var n := |ts|;
    if n > 1 {
      assert ts[..n - 1][1..] == ts[1..][..n - 2];
      Assoc(ts[0] + [c], Ended(ts[1..][..n - 2], c), ts[n - 1]);
      Assoc(ts[0], [c], Joined(ts[1..], c));
    } else {
      assert ts[..0] == [];
    }
  }

  // ---- the one way to print a number ----

  predicate LowerCase(t: string) {
    forall k :: 0 <= k < |t| ==> !('A' <= t[k] <= 'Z')
  }

  /** Lower case and no leading zeros. */
  predicate Normal(t: string) {
    LowerCase(t) && (|t| > 1 ==> t[0] != '0')
  }

  lemma {:induction false} SameDigit(c: char, d: char)
    requires IsDigit(c, true) && IsDigit(d, true) && !('A' <= c <= 'Z') && !('A' <= d <= 'Z')
    requires DigitValue(c) == DigitValue(d)
    ensures c == d
  {}

  lemma {:induction false} LongIsLarge(t: cstring, hex: bool)
    requires IsNumeral(t, hex) && t[0] != '0'
    ensures NumeralValue(t, hex) >= 1 && (|t| > 1 ==> NumeralValue(t, hex) >= Base(hex))
  {
    if |t| > 1 { LongIsLarge(t[..|t| - 1], hex); }
  }

  lemma {:induction false} LastDigit(t: cstring, u: cstring, hex: bool)
    requires IsNumeral(t, hex) && IsNumeral(u, hex) && NumeralValue(t, hex) == NumeralValue(u, hex)
    ensures DigitValue(t[|t| - 1]) == DigitValue(u[|u| - 1])
    ensures NumeralValue(t[..|t| - 1], hex) == NumeralValue(u[..|u| - 1], hex)
  {
    DigitFits(t[|t| - 1], hex);
    DigitFits(u[|u| - 1], hex);
    var x, y := NumeralValue(t[..|t| - 1], hex), NumeralValue(u[..|u| - 1], hex);
    LastOfSum(x, DigitValue(t[|t| - 1]), y, DigitValue(u[|u| - 1]), hex);
  }

  lemma {:induction false} LastOfSum(x: nat, c: nat, y: nat, d: nat, hex: bool)
    requires c < Base(hex) && d < Base(hex) && Shifted(x, hex) + c == Shifted(y, hex) + d
    ensures x == y && c == d
  {
    if hex { assert 16 * x + c == 16 * y + d; } else { assert 10 * x + c == 10 * y + d; }
  }

  lemma {:induction false} DigitFits(c: char, hex: bool)
    requires IsDigit(c, hex)
    ensures DigitValue(c) < Base(hex)
  {}

  /** Numbers printed without leading zeros and in lower case are printed in one way. */
  lemma {:induction false} NormalUnique(t: cstring, u: cstring, hex: bool)
    requires IsNumeral(t, hex) && IsNumeral(u, hex) && Normal(t) && Normal(u)
    requires NumeralValue(t, hex) == NumeralValue(u, hex)
    ensures t == u
  {
    hide NumeralValue;
    LastDigit(t, u, hex);
    SameDigit(t[|t| - 1], u[|u| - 1]);
    var a, b := t[..|t| - 1], u[..|u| - 1];
    NoDigits(hex);
    if a == "" && b != "" {
      LongIsLarge(b, hex);
    } else if a != "" && b == "" {
      LongIsLarge(a, hex);
    } else if a != "" {
      NormalUnique(a, b, hex);
    }
    assert t == a + [t[|t| - 1]] && u == b + [u[|u| - 1]];
  }

  lemma {:induction false} NoDigits(hex: bool)
    ensures NumeralValue("", hex) == 0
  {}

  /** `%d` and `%x`: the lower-case numeral without leading zeros that has the value. */
  lemma {:induction false} PrintedIff(t: cstring, n: nat, hex: bool)
    ensures t == (if hex then Hex(n) else Dec(n))
       <==> IsNumeral(t, hex) && NumeralValue(t, hex) == n && Normal(t)
  {
    hide NumeralValue, Normal, Hex, Dec;
    HexIsNumeral(n);
    DecIsNumeral(n);
    if IsNumeral(t, hex) && NumeralValue(t, hex) == n && Normal(t) {
      NormalUnique(t, if hex then Hex(n) else Dec(n), hex);
    }
  }

  /** `octet2hex`: the two lower-case digits that have the value. */
  lemma {:induction false} PaddedIff(t: cstring, n: byte)
    ensures t == Hex2(n) <==> |t| == 2 && IsNumeral(t, true) && NumeralValue(t, true) == n && LowerCase(t)
  {
    TwoDigits(Hex2(n));
    if |t| == 2 && IsNumeral(t, true) && NumeralValue(t, true) == n && LowerCase(t) {
      TwoDigits(t);
      SameDigit(t[0], Hex2(n)[0]);
      SameDigit(t[1], Hex2(n)[1]);
    }
  }

  lemma {:induction false} TwoDigits(t: cstring)
    requires |t| == 2 && IsNumeral(t, true)
    ensures NumeralValue(t, true) == 16 * DigitValue(t[0]) + DigitValue(t[1])
  {
    assert t[..1][..0] == "";
    assert NumeralValue(t[..1], true) == 16 * NumeralValue(t[..1][..0], true) + DigitValue(t[0]);
  }

  lemma {:induction false} Assoc(a: string, b: string, c: string)
    ensures (a + b) + c == a + (b + c)
  {}

  // ---- character buffers ----

  /** `d` holds the C string `s` at `off`. */
  ghost predicate StringAt(d: seq<char>, off: nat, s: string) {
    off + |s| < |d| && d[off..off + |s|] == s && d[off + |s|] == '\0'
  }

  /** Copies `s` and its terminator to `dst + p`; returns where the terminator is. */
  method PutString(dst: array<char>, p: nat, s: cstring) returns (q: nat)
    requires p + |s| < dst.Length
    modifies dst
    ensures q == p + |s| && StringAt(dst[..], p, s)
    ensures dst[..p] == old(dst[..p]) && dst[q + 1..] == old(dst[q + 1..])
  {
    forall k | 0 <= k < |s| {
      dst[p + k] := s[k];
    }
    q := p + |s|;
    dst[q] := '\0';
  }

  /** `strlen(dst)` */
  method Strlen(dst: array<char>, ghost s: cstring) returns (n: nat)
    requires StringAt(dst[..], 0, s)
    ensures n == |s|
  {
    n := 0;
    assert forall k :: 0 <= k < |s| ==> dst[k] == dst[..][0..|s|][k] == s[k];
    while dst[n] != '\0'
      invariant n <= |s|
      decreases |s| - n
    {
      n := n + 1;
    }
  }
}
