/** IPv6 text (`ip6_ntop` and `ip6_pton` of src/addr-util.c). */
module Ip6Text {
  import opened AddrText
  import opened ByteOrder
  import opened CText
  import opened Memory

  predicate IsWords(w: seq<nat>) {
    forall i :: 0 <= i < |w| ==> w[i] < 0x1_0000
  }

  function Hi(v: nat): byte
    requires v < 0x1_0000
  {
    v / 256
  }

  function Lo(v: nat): byte {
    v % 256
  }

  /** The 16-bit words of an address, first byte most significant. */
  function Words(a: seq<byte>): (w: seq<nat>)
    ensures |w| == |a| / 2 && IsWords(w)
  {
    if |a| < 2 then [] else [HostWord(a[0], a[1], true)] + Words(a[2..])
  }

  function Bytes(w: seq<nat>): (a: seq<byte>)
    requires IsWords(w)
    ensures |a| == 2 * |w|
  {
    if w == [] then [] else [Hi(w[0]), Lo(w[0])] + Bytes(w[1..])
  }

  lemma {:induction false} BytesOfOneWord(x: byte, y: byte)
    ensures Hi(HostWord(x, y, true)) == x && Lo(HostWord(x, y, true)) == y
  {}

  lemma {:induction false} BytesOfWords(a: seq<byte>)
    requires |a| % 2 == 0
    ensures Bytes(Words(a)) == a
  {
    hide HostWord, Hi, Lo;
    if a != [] {
      BytesOfWords(a[2..]);
      BytesOfOneWord(a[0], a[1]);
      var w := Words(a);
      assert w[0] == HostWord(a[0], a[1], true) && w[1..] == Words(a[2..]);
      assert Bytes(w) == [a[0], a[1]] + a[2..];
    }
  }

  lemma {:induction false} WordAt(a: seq<byte>, i: nat)
    requires 2 * i + 1 < |a|
    ensures Words(a)[i] == HostWord(a[2 * i], a[2 * i + 1], true)
  {
    if i > 0 { WordAt(a[2..], i - 1); }
  }

  lemma {:induction false} ByteAt(w: seq<nat>, i: nat)
    requires IsWords(w) && i < |w|
    ensures Bytes(w)[2 * i] == Hi(w[i]) && Bytes(w)[2 * i + 1] == Lo(w[i])
  {
    if i > 0 { ByteAt(w[1..], i - 1); }
  }

  // ---- the run of zero words that `::` stands for ----

  /** How many zero words start at `i`. */
  function Run(w: seq<nat>, i: nat): (n: nat)
    requires i <= |w|
    ensures i + n <= |w|
    ensures forall k :: i <= k < i + n ==> w[k] == 0
    ensures i + n < |w| ==> w[i + n] != 0
    decreases |w| - i
  {
    if i < |w| && w[i] == 0 then 1 + Run(w, i + 1) else 0
  }

  /** The leftmost longest run among those that start at `i` or later. */
  function Longest(w: seq<nat>, i: nat): (r: (nat, nat))
    requires i <= |w|
    ensures i <= r.0 <= |w| && r.1 == Run(w, r.0)
    ensures forall k :: i <= k < |w| ==> Run(w, k) <= r.1
    ensures forall k :: i <= k < r.0 ==> Run(w, k) < r.1
    decreases |w| - i
  {
    if i == |w| then (i, 0)
    else
      var r := Longest(w, i + 1);
      if Run(w, i) >= r.1 then (i, Run(w, i)) else r
  }

  lemma {:induction false} LongestUnique(w: seq<nat>, s: nat)
    requires s < |w|
    requires forall k :: 0 <= k < |w| ==> Run(w, k) <= Run(w, s)
    requires forall k :: 0 <= k < s ==> Run(w, k) < Run(w, s)
    ensures Longest(w, 0) == (s, Run(w, s))
  {
    var r := Longest(w, 0);
  }

  // ---- the text, as a reference definition ----

  /** The words of `w` as `ip6_ntop` writes them. */
  function HexTexts(w: seq<nat>): (ts: seq<cstring>)
    ensures |ts| == |w|
  {
    if w == [] then [] else [Hex(w[0])] + HexTexts(w[1..])
  }

  function HexColons(w: seq<nat>): cstring { Ended(HexTexts(w), ':') }

  function HexJoin(w: seq<nat>): cstring { Joined(HexTexts(w), ':') }

  lemma {:induction false} HexTextsAre(w: seq<nat>, i: nat)
    requires i < |w|
    ensures HexTexts(w)[i] == Hex(w[i])
  {
    hide Hex;
    if i > 0 { HexTextsAre(w[1..], i - 1); }
  }

  lemma {:induction false} HexColonsFirst(w: seq<nat>)
    requires w != []
    ensures HexColons(w) == Hex(w[0]) + ":" + HexColons(w[1..])
  {
    hide Hex;
    assert HexTexts(w)[1..] == HexTexts(w[1..]);
  }

  lemma {:induction false} HexTextsAppend(w: seq<nat>, x: nat)
    ensures HexTexts(w + [x]) == HexTexts(w) + [Hex(x)]
  {
    hide Hex;
    if w == [] {
      assert (w + [x])[1..] == [];
    } else {
      HexTextsAppend(w[1..], x);
      assert (w + [x])[1..] == w[1..] + [x];
    }
  }

  lemma {:induction false} HexJoinLast(w: seq<nat>)
    requires w != []
    ensures HexJoin(w) == HexColons(w[..|w| - 1]) + Hex(w[|w| - 1])
  {
    hide Hex, HexTexts, Ended;
    HexTextsAppend(w[..|w| - 1], w[|w| - 1]);
    assert w == w[..|w| - 1] + [w[|w| - 1]];
  }

  /** Addresses that `ip6_ntop` prints with a dotted quad at the end. */
  predicate Dotted(w: seq<nat>)
    requires |w| == 8
  {
    var (s, c) := Longest(w, 0);
    s == 0 && (c == 6 || (c == 5 && w[5] == 0xffff))
  }

  /** What `ip6_ntop` prints: the leftmost longest run of at least two zero words becomes `::`
      (section 4.2 of RFC 5952), the other words are joined by colons. The dotted quad is read
      out of the host-order word array. */
  function Ip6TextOf(w: seq<nat>, bigEndian: bool): cstring
    requires |w| == 8 && IsWords(w)
  {
    var (s, c) := Longest(w, 0);
    if c < 2 then HexJoin(w) else if Dotted(w) then QuadText(w, c, bigEndian) else GapText(w, s, c)
  }

  function GapText(w: seq<nat>, s: nat, c: nat): cstring
    requires s + c <= |w|
  {
    HexJoin(w[..s]) + "::" + HexJoin(w[s + c..])
  }

  function QuadText(w: seq<nat>, c: nat, bigEndian: bool): cstring
    requires |w| == 8 && IsWords(w) && c <= 6
  {
    "::" + HexColons(w[c..6]) + IpText(HostBytes(w[6], bigEndian) + HostBytes(w[7], bigEndian))
  }

  /** `ip6_ntop` by rule (section 4.2 of RFC 5952), without `Longest`: plain if no two zero words stand
      together; otherwise the first of the longest runs of zero words becomes `::`, with a dotted quad if
      that run is the first six words, or the first five in front of 0xffff. */
  lemma {:induction false} TextByRule(w: seq<nat>, s: nat, c: nat, bigEndian: bool)
    requires |w| == 8 && IsWords(w)
    ensures (forall k :: 0 <= k < 7 ==> w[k] != 0 || w[k + 1] != 0) ==> Ip6TextOf(w, bigEndian) == HexJoin(w)
    ensures FirstLongestRun(w, s, c) && c >= 2 ==>
              Ip6TextOf(w, bigEndian)
              == if s == 0 && (c == 6 || (c == 5 && w[5] == 0xffff)) then QuadText(w, c, bigEndian) else GapText(w, s, c)
  {
    hide Run, HexJoin, GapText, QuadText, Longest;
    TextByCase(w, bigEndian);
    var (l, n) := Longest(w, 0);
    LongestIsZeros(w, l, n);
    if FirstLongestRun(w, s, c) && c >= 2 { LongestByRule(w, s, c); }
  }

  /** `c` zero words stand at `s`, nowhere more, and nowhere in front of `s` as many. */
  ghost predicate FirstLongestRun(w: seq<nat>, s: nat, c: nat) {
    && ZerosAt(w, s, c)
    && forall t: nat, n: nat :: ZerosAt(w, t, n) ==> n < c || (n == c && s <= t)
  }

  predicate ZerosAt(w: seq<nat>, s: nat, c: nat) {
    s + c <= |w| && forall k :: s <= k < s + c ==> w[k] == 0
  }

  lemma {:induction false} LongestIsZeros(w: seq<nat>, l: nat, n: nat)
    requires |w| == 8 && (l, n) == Longest(w, 0)
    ensures ZerosAt(w, l, n)
    ensures n >= 2 ==> w[l] == 0 && w[l + 1] == 0
  {}

  lemma {:induction false} LongestByRule(w: seq<nat>, s: nat, c: nat)
    requires |w| == 8 && FirstLongestRun(w, s, c) && c > 0
    ensures Longest(w, 0) == (s, c)
  {
    forall k | 0 <= k < 8
      ensures ZerosAt(w, k, Run(w, k))
    {}
    RunAtLeast(w, s, c);
    assert Run(w, s) == c;
    LongestUnique(w, s);
  }

  lemma {:induction false} RunAtLeast(w: seq<nat>, s: nat, c: nat)
    requires ZerosAt(w, s, c)
    ensures Run(w, s) >= c
    decreases c
  {
    if c > 0 { RunAtLeast(w, s + 1, c - 1); }
  }

  // ---- the parser ----

  /** The words the parser ends up with: those before `::`, zeros, those after. */
  function Filled(pre: seq<nat>, seen: bool, post: seq<nat>): (r: Option<seq<nat>>)
    requires |pre| + |post| <= 8 && IsWords(pre) && IsWords(post)
    ensures r.Some? ==> |r.value| == 8 && IsWords(r.value)
  {
    if !seen then (if |pre| == 8 && post == [] then Some(pre) else None)
    else Some(pre + seq(8 - |pre| - |post|, _ => 0) + post)
  }

  /** The loop of `ip6_pton` from pointer `p`, with the words read so far. A `::` takes one of
      the eight slots, so the loop index is `|pre| + |post|`, plus one once `::` was seen. */
  function Ip6Scan(p: cstring, pre: seq<nat>, seen: bool, post: seq<nat>): (r: Option<seq<nat>>)
    requires |pre| + |post| + (if seen then 1 else 0) <= 8 && (!seen ==> post == [])
    requires IsWords(pre) && IsWords(post)
    ensures r.Some? ==> |r.value| == 8 && IsWords(r.value)
    decreases 8 - |pre| - |post| - (if seen then 1 else 0)
  {
    var n := |pre| + |post| + (if seen then 1 else 0);
    if n == 8 then None
    else
      var (l, ep) := Strtol(p, true);
      if |ep| == |p| then
        if p != "" && p[0] == ':' && !seen then Ip6Scan(p[1..], pre, true, post)
        else if p == "" && n > 0 then Filled(pre, seen, post)
        else None
      else if ep != "" && ep[0] == '.' && n <= 6 then
        match IpPtonSpec(p)
        case None => None
        case Some(b) =>
          var v := Words(b);
          if seen then Filled(pre, seen, post + v) else Filled(pre + v, seen, post)
      else if 0 <= l <= 0xffff then
        var pre' := if seen then pre else pre + [l];
        var post' := if seen then post + [l] else post;
        if ep == "" then Filled(pre', seen, post')
        else if ep[0] != ':' || |ep| == 1 then None
        else Ip6Scan(ep[1..], pre', seen, post')
      else None
  }

  function Ip6PtonSpec(p: cstring): (r: Option<seq<nat>>)
    ensures r.Some? ==> |r.value| == 8 && IsWords(r.value)
  {
    Ip6Scan(if p != "" && p[0] == ':' then p[1..] else p, [], false, [])
  }

  // ---- reading back what was printed ----

  /** The words `v` are read on top of `pre` and `post`, if they are words and there is room. */
  predicate Fits(pre: seq<nat>, seen: bool, post: seq<nat>, v: seq<nat>) {
    IsWords(v) && |pre| + |post| + (if seen then 1 else 0) + |v| <= 8
  }

  function Before(pre: seq<nat>, seen: bool, v: seq<nat>): seq<nat> {
    if seen then pre else pre + v
  }

  function After(seen: bool, post: seq<nat>, v: seq<nat>): seq<nat> {
    if seen then post + v else post
  }

  /** The scan state is in order. */
  predicate Scanned(pre: seq<nat>, seen: bool, post: seq<nat>) {
    |pre| + |post| + (if seen then 1 else 0) <= 8 && (!seen ==> post == []) && IsWords(pre) && IsWords(post)
  }

  /** The scan of `rest` once `v` has been read. */
  function ScanPast(rest: cstring, pre: seq<nat>, seen: bool, post: seq<nat>, v: seq<nat>): Option<seq<nat>>
    requires Scanned(pre, seen, post)
  {
    if Fits(pre, seen, post, v) then Ip6Scan(rest, Before(pre, seen, v), seen, After(seen, post, v)) else None
  }

  /** The result when `v` comes last. */
  function FilledPast(pre: seq<nat>, seen: bool, post: seq<nat>, v: seq<nat>): Option<seq<nat>>
    requires Scanned(pre, seen, post)
  {
    if Fits(pre, seen, post, v) then Filled(Before(pre, seen, v), seen, After(seen, post, v)) else None
  }

  lemma {:induction false} ScanOneWord(t: cstring, rest: cstring, pre: seq<nat>, seen: bool, post: seq<nat>)
    requires Scanned(pre, seen, post) && IsNumeral(t, true)
    ensures Ip6Scan(t, pre, seen, post) == FilledPast(pre, seen, post, [NumeralValue(t, true)])
    ensures rest != "" ==>
              Ip6Scan(t + ":" + rest, pre, seen, post) == ScanPast(rest, pre, seen, post, [NumeralValue(t, true)])
  {
    hide Strtol, Filled, NumeralValue, IsWords;
    OneWord(NumeralValue(t, true));
    var p := t + ":" + rest;
    assert t + "" == t && p == t + (":" + rest);
    StrtolNumeral(t, "", true);
    StrtolNumeral(t, ":" + rest, true);
    assert (":" + rest)[1..] == rest;
  }

  lemma {:induction false} OneWord(x: nat)
    ensures IsWords([x]) <==> x <= 0xffff
    ensures 0 <= Clamp(x) && (Clamp(x) <= 0xffff <==> x <= 0xffff) && (x <= 0xffff ==> Clamp(x) == x)
  {
    if IsWords([x]) { assert [x][0] < 0x1_0000; }
  }

  lemma {:induction false} PastTwice(rest: cstring, pre: seq<nat>, seen: bool, post: seq<nat>, u: seq<nat>, v: seq<nat>)
    requires Scanned(pre, seen, post) && Fits(pre, seen, post, u)
    ensures ScanPast(rest, Before(pre, seen, u), seen, After(seen, post, u), v) == ScanPast(rest, pre, seen, post, u + v)
    ensures FilledPast(Before(pre, seen, u), seen, After(seen, post, u), v) == FilledPast(pre, seen, post, u + v)
  {
    hide Ip6Scan, Filled;
    assert (pre + u) + v == pre + (u + v) && (post + u) + v == post + (u + v);
    assert IsWords(u + v) <==> IsWords(v) by {
      assert forall i :: 0 <= i < |v| ==> (u + v)[|u| + i] == v[i];
    }
  }

  lemma {:induction false} StaysScanned(pre: seq<nat>, seen: bool, post: seq<nat>, u: seq<nat>)
    requires Scanned(pre, seen, post) && Fits(pre, seen, post, u)
    ensures Scanned(Before(pre, seen, u), seen, After(seen, post, u))
  {}

  lemma {:induction false} FitsPart(pre: seq<nat>, seen: bool, post: seq<nat>, u: seq<nat>, v: seq<nat>)
    requires Fits(pre, seen, post, u + v)
    ensures Fits(pre, seen, post, u)
  {
    assert forall i :: 0 <= i < |u| ==> (u + v)[i] == u[i];
  }

  lemma {:induction false} PastNothing(rest: cstring, pre: seq<nat>, seen: bool, post: seq<nat>)
    requires Scanned(pre, seen, post)
    ensures ScanPast(rest, pre, seen, post, []) == Ip6Scan(rest, pre, seen, post)
  {
    hide Ip6Scan;
    assert pre + [] == pre && post + [] == post;
  }

  /** A block of words, each with its colon, is read word by word. */
  lemma {:induction false} ScanColons(ts: seq<cstring>, rest: cstring, pre: seq<nat>, seen: bool, post: seq<nat>)
    requires Scanned(pre, seen, post) && AreNumerals(ts, true) && rest != ""
    ensures Ip6Scan(Ended(ts, ':') + rest, pre, seen, post) == ScanPast(rest, pre, seen, post, NumeralValues(ts, true))
    decreases |ts|, 0
  {
    hide Ip6Scan, NumeralValue, ScanPast, FilledPast, Fits, Before, After;
    if ts == [] {
      assert Ended(ts, ':') + rest == rest;
      PastNothing(rest, pre, seen, post);
    } else {
      var u, more := [NumeralValue(ts[0], true)], Ended(ts[1..], ':') + rest;
      Assoc(ts[0] + ":", Ended(ts[1..], ':'), rest);
      ScanOneWord(ts[0], more, pre, seen, post);
      ScanPastFirst(ts[1..], more, rest, pre, seen, post, u);
    }
  }

  lemma {:induction false} ScanPastFirst(ts: seq<cstring>, more: cstring, rest: cstring, pre: seq<nat>, seen: bool,
                                         post: seq<nat>, u: seq<nat>)
    requires Scanned(pre, seen, post) && AreNumerals(ts, true) && rest != "" && more == Ended(ts, ':') + rest
    ensures ScanPast(more, pre, seen, post, u) == ScanPast(rest, pre, seen, post, u + NumeralValues(ts, true))
    decreases |ts|, 1
  {
    hide Ip6Scan, NumeralValue, Ended, NumeralValues;
    if Fits(pre, seen, post, u) {
      ScanColons(ts, rest, Before(pre, seen, u), seen, After(seen, post, u));
      PastTwice(rest, pre, seen, post, u, NumeralValues(ts, true));
    } else if Fits(pre, seen, post, u + NumeralValues(ts, true)) {
      FitsPart(pre, seen, post, u, NumeralValues(ts, true));
    }
  }

  /** A final block of words without a last colon. */
  lemma {:induction false} ScanJoin(ts: seq<cstring>, pre: seq<nat>, seen: bool, post: seq<nat>)
    requires Scanned(pre, seen, post) && AreNumerals(ts, true) && (ts == [] ==> seen)
    ensures Ip6Scan(Joined(ts, ':'), pre, seen, post)
         == if ts == [] && |pre| + |post| == 7 then None else FilledPast(pre, seen, post, NumeralValues(ts, true))
  {
    if ts == [] {
      assert post + [] == post;
      StrtolNothing("");
    } else {
      hide Ip6Scan, NumeralValue, Filled, Ended, Before, After, Fits;
      var front, last := ts[..|ts| - 1], ts[|ts| - 1];
      ScanColons(front, last, pre, seen, post);
      ValuesAppend(front, last);
      assert ts == front + [last];
      if Fits(pre, seen, post, NumeralValues(front, true)) {
        var v := NumeralValues(front, true);
        ScanOneWord(last, "", Before(pre, seen, v), seen, After(seen, post, v));
        PastTwice("", pre, seen, post, NumeralValues(front, true), [NumeralValue(last, true)]);
      } else if Fits(pre, seen, post, NumeralValues(ts, true)) {
        FitsPart(pre, seen, post, NumeralValues(front, true), [NumeralValue(last, true)]);
      }
    }
  }

  lemma {:induction false} ValuesAppend(ts: seq<cstring>, t: cstring)
    requires AreNumerals(ts, true) && IsNumeral(t, true)
    ensures AreNumerals(ts + [t], true)
    ensures NumeralValues(ts + [t], true) == NumeralValues(ts, true) + [NumeralValue(t, true)]
  {
    hide NumeralValue, IsNumeral;
    if ts != [] {
      ValuesAppend(ts[1..], t);
      assert (ts + [t])[1..] == ts[1..] + [t];
    }
  }

  lemma {:induction false} StrtolNothing(p: cstring)
    requires p == "" || p[0] == ':'
    ensures Strtol(p, true) == (0, p)
  {}

  lemma {:induction false} ScanGap(rest: cstring, pre: seq<nat>)
    requires |pre| <= 7 && IsWords(pre)
    ensures Ip6Scan(":" + rest, pre, false, []) == Ip6Scan(rest, pre, true, [])
  {
    hide Strtol;
    StrtolNothing(":" + rest);
    assert (":" + rest)[1..] == rest;
  }

  lemma {:induction false} JoinThenColon(w: seq<nat>)
    requires w != []
    ensures HexJoin(w) + ":" == HexColons(w)
  {
    JoinedThenEnd(HexTexts(w), ':');
  }

  lemma {:induction false} HexColonsAppend(w: seq<nat>, x: nat)
    ensures HexColons(w + [x]) == HexColons(w) + (Hex(x) + ":")
  {
    hide Hex, HexTexts;
    HexTextsAppend(w, x);
    EndedAppend(HexTexts(w), Hex(x), ':');
  }

  lemma {:induction false} JoinedStart(ts: seq<cstring>)
    requires ts != [] && AreNumerals(ts, true)
    ensures Joined(ts, ':') != "" && Joined(ts, ':')[0] != ':'
  {
    assert IsNumeral(ts[0], true);
    if |ts| > 1 {
      assert Ended(ts[..|ts| - 1], ':')[0] == ts[0][0];
    }
  }

  /** Words with colons between them, however they are written: accepted exactly when there are eight
      and each fits 16 bits. A colon in front makes no difference. */
  lemma {:induction false} PlainTextRead(ts: seq<cstring>)
    requires ts != [] && AreNumerals(ts, true)
    ensures Ip6PtonSpec(Joined(ts, ':'))
         == if |ts| == 8 && IsWords(NumeralValues(ts, true)) then Some(NumeralValues(ts, true)) else None
    ensures Ip6PtonSpec(":" + Joined(ts, ':')) == Ip6PtonSpec(Joined(ts, ':'))
  {
    hide Joined, Ip6Scan;
    JoinedStart(ts);
    ScanJoin(ts, [], false, []);
    assert [] + NumeralValues(ts, true) == NumeralValues(ts, true);
    assert (":" + Joined(ts, ':'))[1..] == Joined(ts, ':');
  }

  lemma {:induction false} ScanToGap(ts: seq<cstring>, tail: cstring)
    requires AreNumerals(ts, true)
    ensures Ip6PtonSpec(Joined(ts, ':') + "::" + tail)
         == if |ts| <= 7 && IsWords(NumeralValues(ts, true)) then Ip6Scan(tail, NumeralValues(ts, true), true, []) else None
  {
    hide Joined, Ended, Ip6Scan, NumeralValues;
    var p := Joined(ts, ':') + "::" + tail;
    if ts == [] {
      NoWords();
      ScanGap(tail, []);
      assert p[1..] == ":" + tail;
    } else {
      JoinedStart(ts);
      JoinedThenEnd(ts, ':');
      assert p == (Joined(ts, ':') + ":") + (":" + tail);
      ScanColons(ts, ":" + tail, [], false, []);
      assert [] + NumeralValues(ts, true) == NumeralValues(ts, true);
      if IsWords(NumeralValues(ts, true)) && |ts| <= 8 { GapOrFull(tail, NumeralValues(ts, true)); }
    }
  }

  lemma {:induction false} GapOrFull(tail: cstring, pre: seq<nat>)
    requires |pre| <= 8 && IsWords(pre)
    ensures Ip6Scan(":" + tail, pre, false, []) == if |pre| <= 7 then Ip6Scan(tail, pre, true, []) else None
  {
    hide Ip6Scan;
    if |pre| <= 7 { ScanGap(tail, pre); } else { ScanFull(":" + tail, pre, false, []); }
  }

  /** Words, `::` and more words, either part possibly empty (section 2.2 of RFC 4291): accepted
      exactly when every word fits 16 bits, there are at most seven of them, and not all seven stand
      in front: the RFC allows that, but `::` takes up the eighth slot. */
  lemma {:induction false} GapTextRead(a: seq<cstring>, b: seq<cstring>)
    requires AreNumerals(a, true) && AreNumerals(b, true)
    ensures Ip6PtonSpec(Joined(a, ':') + "::" + Joined(b, ':'))
         == if |a| + |b| <= 7 && |a| < 7 && IsWords(NumeralValues(a, true)) && IsWords(NumeralValues(b, true))
            then Some(NumeralValues(a, true) + seq(8 - |a| - |b|, _ => 0) + NumeralValues(b, true)) else None
  {
    hide Joined, Ip6PtonSpec, Ip6Scan, NumeralValues;
    ScanToGap(a, Joined(b, ':'));
    if |a| <= 7 && IsWords(NumeralValues(a, true)) {
      ScanJoin(b, NumeralValues(a, true), true, []);
      assert [] + NumeralValues(b, true) == NumeralValues(b, true);
    }
  }

  lemma {:induction false} HexTextsRead(w: seq<nat>)
    ensures AreNumerals(HexTexts(w), true) && NumeralValues(HexTexts(w), true) == w
  {
    hide Hex, NumeralValue, IsNumeral, AreNumerals, NumeralValues;
    if w == [] {
      NoTexts();
    } else {
      HexIsNumeral(w[0]);
      HexTextsRead(w[1..]);
      OneMoreText(Hex(w[0]), HexTexts(w[1..]));
    }
  }

  lemma {:induction false} NoTexts()
    ensures AreNumerals([], true) && NumeralValues([], true) == []
  {}

  lemma {:induction false} OneMoreText(t: cstring, ts: seq<cstring>)
    requires IsNumeral(t, true) && AreNumerals(ts, true)
    ensures AreNumerals([t] + ts, true)
    ensures NumeralValues([t] + ts, true) == [NumeralValue(t, true)] + NumeralValues(ts, true)
  {
    hide NumeralValue, IsNumeral;
    assert ([t] + ts)[1..] == ts;
  }

  lemma {:induction false} RoundTripPlain(w: seq<nat>)
    requires |w| == 8 && IsWords(w)
    ensures Ip6PtonSpec(HexJoin(w)) == Some(w)
  {
    hide Ip6PtonSpec, HexTexts, NumeralValues, Joined;
    HexTextsRead(w);
    PlainTextRead(HexTexts(w));
  }

  /** Any run of zero words may be given as `::`, but for a last word alone. */
  lemma {:induction false} GapReadsBackIff(w: seq<nat>, s: nat, c: nat)
    requires |w| == 8 && IsWords(w) && 1 <= c && s + c <= 8
    requires forall k :: s <= k < s + c ==> w[k] == 0
    ensures Ip6PtonSpec(GapText(w, s, c)) == Some(w) <==> s < 7
  {
    hide Ip6PtonSpec, HexTexts, NumeralValues, Joined;
    var a, b := w[..s], w[s + c..];
    HexTextsRead(a);
    HexTextsRead(b);
    GapTextRead(HexTexts(a), HexTexts(b));
    assert a + seq(c, _ => 0) + b == w;
  }

  lemma {:induction false} NoWords()
    ensures HexJoin([]) == "" && HexColons([]) == ""
    ensures Joined([], ':') == "" && Ended([], ':') == ""
    ensures HexTexts([]) == []
  {}

  /** A dotted quad is read as two words, if there is room for two. */
  lemma {:induction false} ScanQuad(q: seq<byte>, pre: seq<nat>, seen: bool, post: seq<nat>)
    requires |q| == 4 && Scanned(pre, seen, post)
    ensures Ip6Scan(IpText(q), pre, seen, post) == FilledPast(pre, seen, post, Words(q))
  {
    QuadStopsAtDot(q);
    OctetsRoundTrip(q, false);
    hide Strtol, IpText, Filled, Words;
  }

  /** Words with their colons and then a dotted quad. */
  lemma {:induction false} ScanColonsQuad(ts: seq<cstring>, q: seq<byte>, pre: seq<nat>, seen: bool, post: seq<nat>)
    requires |q| == 4 && Scanned(pre, seen, post) && AreNumerals(ts, true)
    ensures Ip6Scan(Ended(ts, ':') + IpText(q), pre, seen, post)
         == FilledPast(pre, seen, post, NumeralValues(ts, true) + Words(q))
  {
    hide Ip6Scan, Filled, Ended, Before, After, Fits, IpText, Words, NumeralValues;
    QuadStopsAtDot(q);
    ScanColons(ts, IpText(q), pre, seen, post);
    if Fits(pre, seen, post, NumeralValues(ts, true)) {
      StaysScanned(pre, seen, post, NumeralValues(ts, true));
      ScanQuad(q, Before(pre, seen, NumeralValues(ts, true)), seen, After(seen, post, NumeralValues(ts, true)));
      PastTwice("", pre, seen, post, NumeralValues(ts, true), Words(q));
    } else if Fits(pre, seen, post, NumeralValues(ts, true) + Words(q)) {
      FitsPart(pre, seen, post, NumeralValues(ts, true), Words(q));
    }
  }

  lemma {:induction false} WordsThenWords(u: seq<nat>, v: seq<nat>)
    requires IsWords(v)
    ensures IsWords(u + v) <==> IsWords(u)
  {
    assert forall i :: 0 <= i < |u| ==> (u + v)[i] == u[i];
  }

  /** Words with colons and a dotted quad at the end (section 2.2 of RFC 4291): accepted exactly when
      there are six words and each fits 16 bits. */
  lemma {:induction false} PlainQuadRead(ts: seq<cstring>, q: seq<byte>)
    requires |q| == 4 && AreNumerals(ts, true)
    ensures Ip6PtonSpec(Ended(ts, ':') + IpText(q))
         == if |ts| == 6 && IsWords(NumeralValues(ts, true)) then Some(NumeralValues(ts, true) + Words(q)) else None
  {
    hide Ip6Scan, Ended, IpText, Words, NumeralValues;
    ColonsQuadStart(ts, q);
    ScanColonsQuad(ts, q, [], false, []);
    WordsThenWords(NumeralValues(ts, true), Words(q));
    assert [] + (NumeralValues(ts, true) + Words(q)) == NumeralValues(ts, true) + Words(q);
  }

  lemma {:induction false} ColonsQuadStart(ts: seq<cstring>, q: seq<byte>)
    requires |q| == 4 && AreNumerals(ts, true)
    ensures Ended(ts, ':') + IpText(q) != "" && (Ended(ts, ':') + IpText(q))[0] != ':'
  {
    if ts == [] {
      hide OctetsText, Dec;
      QuadStarts(q);
    } else {
      assert IsNumeral(ts[0], true);
      assert (Ended(ts, ':') + IpText(q))[0] == ts[0][0];
    }
  }

  lemma {:induction false} QuadStarts(q: seq<byte>)
    requires |q| == 4
    ensures IpText(q) != "" && IpText(q)[0] != ':'
  {
    hide Dec;
    DecChars(q[0]);
    assert IpText(q)[0] == Dec(q[0])[0];
  }

  /** Words, `::`, words and a dotted quad: accepted exactly when every word fits 16 bits and there
      are at most five, which is what the RFC asks for. */
  lemma {:induction false} GapQuadRead(a: seq<cstring>, b: seq<cstring>, q: seq<byte>)
    requires |q| == 4 && AreNumerals(a, true) && AreNumerals(b, true)
    ensures Ip6PtonSpec(Joined(a, ':') + "::" + (Ended(b, ':') + IpText(q)))
         == if |a| + |b| <= 5 && IsWords(NumeralValues(a, true)) && IsWords(NumeralValues(b, true))
            then Some(NumeralValues(a, true) + seq(6 - |a| - |b|, _ => 0) + (NumeralValues(b, true) + Words(q))) else None
  {
    hide Joined, Ended, Ip6PtonSpec, Ip6Scan, NumeralValues, IpText, Words;
    ScanToGap(a, Ended(b, ':') + IpText(q));
    if |a| <= 7 && IsWords(NumeralValues(a, true)) {
      ScanColonsQuad(b, q, NumeralValues(a, true), true, []);
      WordsThenWords(NumeralValues(b, true), Words(q));
      assert [] + (NumeralValues(b, true) + Words(q)) == NumeralValues(b, true) + Words(q);
    }
  }

  lemma {:induction false} QuadStopsAtDot(b: seq<byte>)
    requires |b| == 4
    ensures var ep := Strtol(IpText(b), true).1;
            |ep| < |IpText(b)| && ep != "" && ep[0] == '.'
  {
    hide Strtol, Dec;
    var rest := "." + OctetsText(b[1..], false);
    assert IpText(b) == Dec(b[0]) + rest;
    DecChars(b[0]);
    StrtolDigits(Dec(b[0]), rest, true);
  }

  lemma {:induction false} RoundTripDotted(w: seq<nat>, c: nat, bigEndian: bool)
    requires |w| == 8 && IsWords(w) && 5 <= c <= 6 && forall k :: 0 <= k < c ==> w[k] == 0
    ensures var quad := HostBytes(w[6], bigEndian) + HostBytes(w[7], bigEndian);
            Ip6PtonSpec(QuadText(w, c, bigEndian)) == Some(w[..6] + Words(quad))
  {
    hide HexTexts, Ended, Ip6PtonSpec, NumeralValues, Words, IpText, HostBytes;
    var quad := HostBytes(w[6], bigEndian) + HostBytes(w[7], bigEndian);
    var mid := w[c..6];
    NoWords();
    NoTexts();
    HexTextsRead(mid);
    GapQuadRead([], HexTexts(mid), quad);
    Assoc("::", HexColons(mid), IpText(quad));
    assert "" + "::" == "::";
    FilledQuad(w, c, Words(quad));
  }

  lemma {:induction false} FilledQuad(w: seq<nat>, c: nat, v: seq<nat>)
    requires |w| == 8 && c <= 6 && forall k :: 0 <= k < c ==> w[k] == 0
    ensures [] + seq(c, _ => 0) + (w[c..6] + v) == w[..6] + v
  {}

  /** A colon that does not separate two words is refused once `::` was seen. */
  lemma {:induction false} ColonAgain(tail: cstring, pre: seq<nat>, post: seq<nat>)
    requires Scanned(pre, true, post)
    ensures Ip6Scan(":" + tail, pre, true, post) == None
  {
    hide Strtol;
    StrtolNothing(":" + tail);
  }

  /** `::` may stand once, whatever is between or behind. */
  lemma {:induction false} SecondGapRefused(a: seq<cstring>, b: seq<cstring>, tail: cstring)
    requires AreNumerals(a, true) && AreNumerals(b, true)
    ensures Ip6PtonSpec(Joined(a, ':') + "::" + (Ended(b, ':') + (":" + tail))) == None
  {
    hide Joined, Ended, Ip6PtonSpec, Ip6Scan, NumeralValues;
    ScanToGap(a, Ended(b, ':') + (":" + tail));
    if |a| <= 7 && IsWords(NumeralValues(a, true)) {
      var pre, v := NumeralValues(a, true), NumeralValues(b, true);
      ScanColons(b, ":" + tail, pre, true, []);
      if Fits(pre, true, [], v) {
        StaysScanned(pre, true, [], v);
        ColonAgain(tail, pre, After(true, [], v));
      }
    }
  }

  /** A word with a colon behind it at the end, or with anything but a colon or a dot behind it. */
  lemma {:induction false} BrokenWord(t: cstring, rest: cstring, pre: seq<nat>, seen: bool, post: seq<nat>)
    requires Scanned(pre, seen, post) && IsNumeral(t, true) && Stops(rest, true)
    requires rest == ":" || (rest != "" && rest[0] !in {':', '.'})
    ensures Ip6Scan(t + rest, pre, seen, post) == None
  {
    hide Strtol, Filled, NumeralValue;
    StrtolNumeral(t, rest, true);
  }

  /** Such an end is refused behind any words, with or without `::` in front. */
  lemma {:induction false} BrokenEndRefused(a: seq<cstring>, b: seq<cstring>, t: cstring, rest: cstring)
    requires AreNumerals(a, true) && AreNumerals(b, true) && IsNumeral(t, true) && Stops(rest, true)
    requires rest == ":" || (rest != "" && rest[0] !in {':', '.'})
    ensures Ip6PtonSpec(Ended(a, ':') + (t + rest)) == None
    ensures Ip6PtonSpec(Joined(a, ':') + "::" + (Ended(b, ':') + (t + rest))) == None
  {
    hide Joined, Ended, Ip6Scan, NumeralValues, IsNumeral;
    var end := t + rest;
    EndedStart(a, t, rest);
    BrokenAfter(a, t, rest, [], false);
    ScanToGap(a, Ended(b, ':') + end);
    if |a| <= 7 && IsWords(NumeralValues(a, true)) {
      BrokenAfter(b, t, rest, NumeralValues(a, true), true);
    }
  }

  lemma {:induction false} EndedStart(a: seq<cstring>, t: cstring, rest: cstring)
    requires AreNumerals(a, true) && IsNumeral(t, true)
    ensures Ended(a, ':') + (t + rest) != "" && (Ended(a, ':') + (t + rest))[0] != ':'
  {
    if a == [] {
      assert Ended(a, ':') + (t + rest) == t + rest;
    } else {
      assert IsNumeral(a[0], true);
      assert (Ended(a, ':') + (t + rest))[0] == a[0][0];
    }
  }

  lemma {:induction false} BrokenAfter(ts: seq<cstring>, t: cstring, rest: cstring, pre: seq<nat>, seen: bool)
    requires AreNumerals(ts, true) && IsNumeral(t, true) && Stops(rest, true) && Scanned(pre, seen, [])
    requires rest == ":" || (rest != "" && rest[0] !in {':', '.'})
    ensures Ip6Scan(Ended(ts, ':') + (t + rest), pre, seen, []) == None
  {
    assert t + rest != "";
    hide Ended, Ip6Scan, NumeralValues, IsNumeral;
    var v := NumeralValues(ts, true);
    ScanColons(ts, t + rest, pre, seen, []);
    if Fits(pre, seen, [], v) {
      StaysScanned(pre, seen, [], v);
      BrokenWord(t, rest, Before(pre, seen, v), seen, After(seen, [], v));
    }
  }

  /** The words of the quad as the parser reads them: on a little-endian host their bytes have
      changed places. */
  function QuadWord(v: nat, bigEndian: bool): nat
    requires v < 0x1_0000
  {
    if bigEndian then v else HostWord(Lo(v), Hi(v), true)
  }

  lemma {:induction false} WordsOfQuad(u: nat, v: nat, bigEndian: bool)
    requires u < 0x1_0000 && v < 0x1_0000
    ensures Words(HostBytes(u, bigEndian) + HostBytes(v, bigEndian))
         == [QuadWord(u, bigEndian), QuadWord(v, bigEndian)]
  {
    var q := HostBytes(u, bigEndian) + HostBytes(v, bigEndian);
    assert Words(q[2..]) == [HostWord(q[2], q[3], true)] + Words(q[2..][2..]);
  }

  /** `ip6_pton(ip6_ntop(a))` for every address and both byte orders. */
  lemma {:induction false} ParsePrinted(w: seq<nat>, bigEndian: bool)
    requires |w| == 8 && IsWords(w)
    ensures Ip6PtonSpec(Ip6TextOf(w, bigEndian))
         == Some(if Dotted(w) then w[..6] + [QuadWord(w[6], bigEndian), QuadWord(w[7], bigEndian)] else w)
  {
    hide Ip6PtonSpec, HexJoin, HexColons, IpText;
    var (s, c) := Longest(w, 0);
    if c < 2 {
      RoundTripPlain(w);
    } else if Dotted(w) {
      RoundTripDotted(w, c, bigEndian);
      WordsOfQuad(w[6], w[7], bigEndian);
    } else {
      GapReadsBackIff(w, s, c);
    }
  }

  /** The printed text reads back as the same address except on one family of addresses: those
      with a dotted quad, on a little-endian host, unless exchanging the two bytes of each of
      the last words changes nothing. */
  lemma {:induction false} RoundTripIff(w: seq<nat>, bigEndian: bool)
    requires |w| == 8 && IsWords(w)
    ensures Ip6PtonSpec(Ip6TextOf(w, bigEndian)) == Some(w)
            <==> !Dotted(w) || bigEndian || (Hi(w[6]) == Lo(w[6]) && Hi(w[7]) == Lo(w[7]))
  {
    hide Ip6PtonSpec, Ip6TextOf, Dotted;
    ParsePrinted(w, bigEndian);
    var r := w[..6] + [QuadWord(w[6], bigEndian), QuadWord(w[7], bigEndian)];
    assert r == w <==> r[6] == w[6] && r[7] == w[7] by {
      assert w == w[..6] + [w[6], w[7]];
    }
  }

  /** `::ffff:1.2.3.4` is printed by a little-endian host as `::ffff:2.1.4.3`. */
  lemma {:induction false} DottedQuadSwapsOnLittleEndian(w: seq<nat>)
    requires w == [0, 0, 0, 0, 0, 0xffff, 0x0102, 0x0304]
    ensures Ip6PtonSpec(Ip6TextOf(w, false)) == Some(w[6 := 0x0201][7 := 0x0403])
  {
    hide Ip6PtonSpec, Ip6TextOf, Longest, Run, IpText, HexColons;
    RunOfFive(w);
    ParsePrinted(w, false);
    assert QuadWord(w[6], false) == 0x0201 && QuadWord(w[7], false) == 0x0403;
    assert w[..6] + [0x0201, 0x0403] == w[6 := 0x0201][7 := 0x0403];
  }

  lemma {:induction false} RunOfFive(w: seq<nat>)
    requires |w| == 8 && (forall k :: 0 <= k < 5 ==> w[k] == 0) && w[5] == 0xffff
    ensures Dotted(w)
  {
    assert Run(w, 5) == 0;
    assert Run(w, 4) == 1 && Run(w, 3) == 2 && Run(w, 2) == 3 && Run(w, 1) == 4 && Run(w, 0) == 5;
    LongestUnique(w, 0);
  }

  // ---- the length of the text ----

  lemma {:induction false} HexLength(n: nat)
    requires n < 0x1_0000
    ensures |Hex(n)| <= 4
  {
    if n >= 16 {
      assert |Hex(n / 16)| <= 3 by {
        if n / 16 >= 16 {
          assert |Hex(n / 16 / 16)| <= 2 by {
            if n / 16 / 16 >= 16 { assert |Hex(n / 16 / 16 / 16)| == 1; }
          }
        }
      }
    }
  }

  lemma {:induction false} HexColonsLength(w: seq<nat>)
    requires IsWords(w)
    ensures |HexColons(w)| <= 5 * |w|
  {
    hide Hex, HexColons;
    NoWords();
    if w != [] {
      HexColonsFirst(w);
      HexLength(w[0]);
      HexColonsLength(w[1..]);
    }
  }

  /** The text and its terminator fit in 40 bytes. */
  lemma {:induction false} TextLength(w: seq<nat>, bigEndian: bool)
    requires |w| == 8 && IsWords(w)
    ensures |Ip6TextOf(w, bigEndian)| + 1 <= 40
  {
    hide IpText, HexColons, HexJoin, Longest, HostBytes, Ip6TextOf, Dotted;
    var (s, c) := Longest(w, 0);
    TextByCase(w, bigEndian);
    if c < 2 {
      JoinLength(w);
    } else {
      JoinLength(w[..s]);
      JoinLength(w[s + c..]);
      if Dotted(w) {
        HexColonsLength(w[c..6]);
        QuadLength(HostBytes(w[6], bigEndian) + HostBytes(w[7], bigEndian));
      }
    }
  }

  lemma {:induction false} JoinLength(w: seq<nat>)
    requires IsWords(w)
    ensures |HexJoin(w)| <= if w == [] then 0 else 5 * |w| - 1
  {
    hide Hex, HexColons, HexJoin;
    NoWords();
    if w != [] {
      HexJoinLast(w);
      HexColonsLength(w[..|w| - 1]);
      HexLength(w[|w| - 1]);
    }
  }

  lemma {:induction false} QuadLength(b: seq<byte>)
    requires |b| == 4
    ensures |IpText(b)| <= 15
  {
    SeparatorsLength(b, false);
    DropLastSeparator(b, false);
  }

  // ---- the printer ----

  lemma {:induction false} RunExact(w: seq<nat>, s: nat, k: nat)
    requires s <= k <= |w| && (forall m :: s <= m < k ==> w[m] == 0) && (k < |w| ==> w[k] != 0)
    ensures forall m :: s <= m <= k ==> Run(w, m) == k - m
    decreases k - s
  {
    if s < k { RunExact(w, s + 1, k); }
  }

  /** The best run so far, in the loop below: `(b, n)` with `n == 0` for none, and nothing that
      starts before `st` is longer, or as long and further left. */
  ghost predicate BestBefore(w: seq<nat>, st: nat, b: nat, n: nat)
    requires st <= |w|
  {
    && (forall m :: 0 <= m < st ==> Run(w, m) <= n)
    && (n > 0 ==> b < st && Run(w, b) == n && forall m :: 0 <= m < b ==> Run(w, m) < n)
  }

  /** A run from `st` ends at `k`: it takes over exactly when it is longer. */
  lemma {:induction false} BestAfterRun(w: seq<nat>, st: nat, k: nat, b: nat, n: nat)
    requires st <= k <= |w| && BestBefore(w, st, b, n)
    requires (forall m :: st <= m < k ==> w[m] == 0) && (k < |w| ==> w[k] != 0)
    ensures k < |w| ==> if k - st > n then BestBefore(w, k + 1, st, k - st) else BestBefore(w, k + 1, b, n)
    ensures k == |w| ==> if k - st > n then BestBefore(w, k, st, k - st) else BestBefore(w, k, b, n)
  {
    RunExact(w, st, k);
  }

  lemma {:induction false} BestIsLongest(w: seq<nat>, b: nat, n: nat)
    requires BestBefore(w, |w|, b, n)
    ensures if n == 0 then Longest(w, 0).1 == 0 else Longest(w, 0) == (b, n)
  {
    if n > 0 { LongestUnique(w, b); }
  }

  /** The search loop of `ip6_ntop`. Positions and lengths count bytes, and a run's length is
      two less than its bytes, as in the source; `-1` means no run of two words or more. */
  method FindRun(data: array<nat>) returns (base: int, len: int)
    requires data.Length == 8
    ensures var (s, c) := Longest(data[..], 0);
            if c < 2 then base == -1 && len == 0 else base == 2 * s && len == 2 * c - 2
  {
    hide Run;
    ghost var w := data[..];
    base, len := -1, 0;
    var curBase, curLen := -1, 0;
    ghost var st: nat, b: nat, n: nat := 0, 0, 0;
    for k := 0 to 8
      invariant 0 <= st <= k && BestBefore(w, st, b, n)
      invariant forall m :: st <= m < k ==> w[m] == 0
      invariant if st == k then curBase == -1 else curBase == 2 * st && curLen == 2 * (k - st) - 2
      invariant if n == 0 then base == -1 && len == 0 else base == 2 * b && len == 2 * n - 2
    {
      if data[k] == 0 {
        if curBase == -1 {
          curBase, curLen := 2 * k, 0;
        } else {
          curLen := curLen + 2;
        }
      } else {
        BestAfterRun(w, st, k, b, n);
        if curBase != -1 {
          if base == -1 || curLen > len {
            base, len := curBase, curLen;
          }
          curBase := -1;
        }
        if k - st > n { b, n := st, k - st; }
        st := k + 1;
      }
    }
    BestAfterRun(w, st, 8, b, n);
    if curBase != -1 && (base == -1 || curLen > len) {
      base, len := curBase, curLen;
    }
    if 8 - st > n { b, n := st, 8 - st; }
    BestIsLongest(w, b, n);
    if base != -1 && len < 2 {
      base := -1;
    }
  }

  /** What the printing loop has produced when it reaches word `k`. */
  function Produced(w: seq<nat>, s: nat, c: nat, k: nat): cstring
    requires k <= |w| && (c >= 2 ==> k <= s || s + c <= k)
  {
    if c < 2 then HexColons(w[..k])
    else
      (if s == 0 then ":" else "") +
      (if k <= s then HexColons(w[..k]) else HexColons(w[..s]) + ":" + HexColons(w[s + c..k]))
  }

  lemma {:induction false} ProducedWord(w: seq<nat>, s: nat, c: nat, k: nat)
    requires k < |w| && (c >= 2 ==> k < s || s + c <= k)
    ensures Produced(w, s, c, k + 1) == Produced(w, s, c, k) + (Hex(w[k]) + ":")
  {
    hide HexColons, Hex;
    var h := Hex(w[k]) + ":";
    if c < 2 || k < s {
      assert w[..k + 1] == w[..k] + [w[k]];
      HexColonsAppend(w[..k], w[k]);
      Assoc(if s == 0 then ":" else "", HexColons(w[..k]), h);
    } else {
      assert w[s + c..k + 1] == w[s + c..k] + [w[k]];
      HexColonsAppend(w[s + c..k], w[k]);
      var a, b, t := if s == 0 then ":" else "", HexColons(w[..s]) + ":", HexColons(w[s + c..k]);
      Assoc(b, t, h);
      Assoc(a, b + t, h);
    }
  }

  lemma {:induction false} ProducedGap(w: seq<nat>, s: nat, c: nat)
    requires 2 <= c && s + c <= |w|
    ensures Produced(w, s, c, s + c) == Produced(w, s, c, s) + ":"
    ensures Produced(w, s, c, 0) == if s == 0 then ":" else ""
  {
    hide Hex;
    assert w[s + c..s + c] == [] && w[..0] == [];
  }

  /** Dropping the last colon, unless the run ends the address, leaves the reference text. */
  lemma {:induction false} ProducedAll(w: seq<nat>, s: nat, c: nat)
    requires |w| == 8 && s + c <= 8
    ensures c < 2 ==> Produced(w, s, c, 8) == HexJoin(w) + ":"
    ensures c >= 2 ==> Produced(w, s, c, 8) == GapText(w, s, c) + (if s + c == 8 then "" else ":")
  {
    hide HexColons, HexJoin;
    assert w[..8] == w && w[s + c..8] == w[s + c..];
    if c < 2 {
      JoinThenColon(w);
    } else {
      var a, b, t := if s == 0 then ":" else "", HexColons(w[..s]), HexColons(w[s + c..]);
      ProducedHead(w, s);
      Regroup(a, b, t, HexJoin(w[..s]));
      if s + c < 8 {
        JoinThenColon(w[s + c..]);
        Assoc(HexJoin(w[..s]) + "::", HexJoin(w[s + c..]), ":");
      } else {
        NoWords();
        assert w[..8] == w && w[s + c..] == [];
      }
    }
  }

  lemma {:induction false} Regroup(a: string, b: string, t: string, j: string)
    requires a + b + ":" == j + "::"
    ensures a + (b + ":" + t) == j + "::" + t
  {
    assert a + (b + ":" + t) == (a + b + ":") + t;
  }

  lemma {:induction false} ProducedHead(w: seq<nat>, s: nat)
    requires s <= |w|
    ensures (if s == 0 then ":" else "") + HexColons(w[..s]) + ":" == HexJoin(w[..s]) + "::"
  {
    hide HexColons, HexJoin;
    NoWords();
    if s > 0 { JoinThenColon(w[..s]); }
  }

  /** The copy into the 16-bit array. */
  method LoadWords(ip6: array<byte>) returns (data: array<nat>)
    requires ip6.Length >= 16
    ensures fresh(data) && data.Length == 8 && data[..] == Words(ip6[..16])
  {
    hide Words;
    data := new nat[8];
    ghost var w := Words(ip6[..16]);
    for i := 0 to 8
      invariant forall k :: 0 <= k < i ==> data[k] == w[k]
    {
      WordAt(ip6[..16], i);
      data[i] := HostWord(ip6[2 * i], ip6[2 * i + 1], true);
    }
  }

  /** `ip6_ntop`: NULL when fewer than 46 characters are available. */
  method Ip6Ntop(ip6: array<byte>, dst: array<char>, len: nat, bigEndian: bool) returns (ok: bool)
    requires ip6.Length >= 16 && len <= dst.Length
    modifies dst
    ensures ok == (len >= 46)
    ensures ok ==> StringAt(dst[..], 0, Ip6TextOf(Words(ip6[..16]), bigEndian))
  {
    if len < 46 { return false; }
    var data := LoadWords(ip6);
    var base, run := FindRun(data);
    PrintWords(data, base, run, dst, len, bigEndian);
    return true;
  }

  lemma {:induction false} ProducedStart(w: seq<nat>, s: nat, c: nat)
    requires s + c <= |w|
    ensures Produced(w, s, c, 0) == if c >= 2 && s == 0 then ":" else ""
  {
    assert w[..0] == [];
  }

  lemma {:induction false} ProducedQuad(w: seq<nat>, c: nat)
    requires |w| == 8 && 2 <= c <= 6
    ensures Produced(w, 0, c, 6) == "::" + HexColons(w[c..6])
  {
    hide Hex;
    assert w[..0] == [];
  }

  lemma {:induction false} QuadPrinted(w: seq<nat>, c: nat, d: seq<char>, p: nat, bigEndian: bool)
    requires |w| == 8 && IsWords(w) && 2 <= c <= 6 && p <= |d|
    requires d[..p] == Produced(w, 0, c, 6)
    requires StringAt(d, p, IpText(HostBytes(w[6], bigEndian) + HostBytes(w[7], bigEndian)))
    ensures StringAt(d, 0, QuadText(w, c, bigEndian))
  {
    hide HexColons, IpText, Produced;
    ProducedQuad(w, c);
    var t := IpText(HostBytes(w[6], bigEndian) + HostBytes(w[7], bigEndian));
    assert d[0..p + |t|] == d[..p] + d[p..p + |t|];
  }

  /** `p += sprintf(p, "%x:", v)` */
  method PutHex(dst: array<char>, p: nat, v: nat) returns (q: nat)
    requires p + |Hex(v)| + 1 < dst.Length
    modifies dst
    ensures q == p + |Hex(v)| + 1 && dst[..q] == old(dst[..p]) + (Hex(v) + ":")
  {
    hide Hex;
    q := PutString(dst, p, Hex(v) + ":");
    assert dst[..q] == dst[..p] + dst[p..q];
  }

  method PutWord(dst: array<char>, p: nat, data: array<nat>, ghost s: nat, ghost c: nat, k: nat) returns (q: nat)
    requires data.Length == 8 && IsWords(data[..]) && k < 8 && p + 5 < dst.Length
    requires c >= 2 ==> k < s || s + c <= k
    requires dst[..p] == Produced(data[..], s, c, k)
    modifies dst
    ensures p < q <= p + 5 && dst[..q] == Produced(data[..], s, c, k + 1)
  {
    hide Produced, Hex;
    ProducedWord(data[..], s, c, k);
    HexLength(data[k]);
    q := PutHex(dst, p, data[k]);
  }

  /** `*p++ = c` */
  method PutChar(dst: array<char>, p: nat, c: char) returns (q: nat)
    requires p < dst.Length
    modifies dst
    ensures q == p + 1 && dst[..q] == old(dst[..p]) + [c]
  {
    dst[p] := c;
    q := p + 1;
  }

  /** The dotted-quad branch; there is always room for it. */
  method PrintQuad(data: array<nat>, ghost c: nat, dst: array<char>, p: nat, len: nat, bigEndian: bool)
    requires data.Length == 8 && IsWords(data[..]) && 5 <= c <= 6 && 46 <= len <= dst.Length
    requires p <= dst.Length && dst[..p] == Produced(data[..], 0, c, 6)
    modifies dst
    ensures StringAt(dst[..], 0, QuadText(data[..], c, bigEndian))
  {
    hide Produced, HexColons, IpText, HostBytes, QuadText;
    ProducedQuad(data[..], c);
    HexColonsLength(data[..][c..6]);
    var ok := IpNtop(HostBytes(data[6], bigEndian) + HostBytes(data[7], bigEndian), dst, p, len - p);
    QuadPrinted(data[..], c, dst[..], p, bigEndian);
  }

  lemma {:induction false} TextByCase(w: seq<nat>, bigEndian: bool)
    requires |w| == 8 && IsWords(w)
    ensures var (s, c) := Longest(w, 0);
            && (Dotted(w) <==> s == 0 && (c == 6 || (c == 5 && w[5] == 0xffff)))
            && Ip6TextOf(w, bigEndian)
               == if c < 2 then HexJoin(w) else if Dotted(w) then QuadText(w, c, bigEndian) else GapText(w, s, c)
  {}

  /** The printing loop of `ip6_ntop`, with `i` counting bytes as in the source. */
  method PrintWords(data: array<nat>, base: int, run: int, dst: array<char>, len: nat, bigEndian: bool)
    requires data.Length == 8 && IsWords(data[..]) && 46 <= len <= dst.Length
    requires var (s, c) := Longest(data[..], 0);
             if c < 2 then base == -1 && run == 0 else base == 2 * s && run == 2 * c - 2
    modifies dst
    ensures StringAt(dst[..], 0, Ip6TextOf(data[..], bigEndian))
  {
    hide Longest, Run, HexColons, Hex, Produced, IpText, GapText, HexJoin, QuadText, HostBytes, Dotted, Ip6TextOf;
    ghost var w := data[..];
    ghost var (s, c) := Longest(w, 0);
    TextByCase(w, bigEndian);
    var p: nat := 0;
    if base == 0 {
      p := PutChar(dst, p, ':');
    }
    var i := 0;
    ProducedStart(w, s, c);
    while i < 16
      invariant 0 <= i <= 16 && i % 2 == 0 && (c >= 2 ==> i / 2 <= s || s + c <= i / 2)
      invariant p <= 1 + 5 * (i / 2) && dst[..p] == Produced(w, s, c, i / 2)
      invariant i == 16 ==> p > 0
      invariant Dotted(w) ==> i <= 12
      decreases 16 - i
    {
      if i == base {
        ProducedGap(w, s, c);
        p := PutChar(dst, p, ':');
        i := i + run;
      } else if i == 12 && base == 0 && (run == 10 || (run == 8 && data[5] == 0xffff)) {
        PrintQuad(data, c, dst, p, len, bigEndian);
        return;
      } else {
        p := PutWord(dst, p, data, s, c, i / 2);
      }
      i := i + 2;
    }
    EndText(dst, p, base + 2 + run == 16, w, s, c);
  }

  /** The last colon goes, unless it belongs to `::`. */
  method EndText(dst: array<char>, p: nat, gapLast: bool, ghost w: seq<nat>, ghost s: nat, ghost c: nat)
    requires |w| == 8 && s + c <= 8 && gapLast == (c >= 2 && s + c == 8)
    requires 0 < p < dst.Length && dst[..p] == Produced(w, s, c, 8)
    modifies dst
    ensures StringAt(dst[..], 0, if c < 2 then HexJoin(w) else GapText(w, s, c))
  {
    hide Produced, GapText, HexJoin;
    ghost var text := if c < 2 then HexJoin(w) else GapText(w, s, c);
    ProducedAll(w, s, c);
    if gapLast {
      Terminate(dst, p, text);
    } else {
      assert dst[..p - 1] == dst[..p][..|text|] == text;
      Terminate(dst, p - 1, text);
    }
  }

  /** `*p = '\0'` */
  method Terminate(dst: array<char>, p: nat, ghost text: string)
    requires p < dst.Length && p == |text| && dst[..p] == text
    modifies dst
    ensures StringAt(dst[..], 0, text)
  {
    dst[p] := '\0';
    assert dst[..][0..p] == dst[..p];
  }

  // ---- the parser method ----

  lemma {:induction false} BytesAppend(w: seq<nat>, v: seq<nat>)
    requires IsWords(w) && IsWords(v)
    ensures Bytes(w + v) == Bytes(w) + Bytes(v)
  {
    hide Hi, Lo;
    if w == [] {
      assert w + v == v && Bytes(w) + Bytes(v) == Bytes(v);
    } else {
      assert (w + v)[1..] == w[1..] + v;
      BytesAppend(w[1..], v);
    }
  }

  /** The parser's `data` array holds the words read before and after slot `z`. */
  ghost predicate InSlots(d: seq<byte>, z: int, pre: seq<nat>, post: seq<nat>)
    requires |d| == 16
  {
    && IsWords(pre) && IsWords(post) && -1 <= z <= 7
    && (z == -1 ==> |pre| <= 8 && post == [] && d[..2 * |pre|] == Bytes(pre))
    && (z >= 0 ==> |pre| == z && z + 1 + |post| <= 8 && d[..2 * z] == Bytes(pre)
                   && d[2 * z + 2..2 * (z + 1 + |post|)] == Bytes(post))
  }

  /** Byte `k` of the result: before the gap, in it, or behind it. */
  function FilledByte(d: seq<byte>, z: nat, gap: nat, k: nat): byte
    requires |d| == 16 && z <= gap <= 8 && k < 16 && (k >= 2 * gap ==> k - 2 * gap + 2 * z + 2 < 16)
  {
    if k < 2 * z then d[k] else if k < 2 * gap then 0 else d[k - 2 * gap + 2 * z + 2]
  }

  /** The final loops of `ip6_pton`: `u` from `data` around the zeros. */
  method Ip6Fill(data: array<byte>, n: nat, z: int, out: array<byte>)
    requires data.Length == 16 && out.Length >= 16 && data != out && -1 <= z < n <= 8 && (z == -1 ==> n == 8)
    modifies out
    ensures z == -1 ==> out[..16] == data[..]
    ensures z >= 0 ==> forall k :: 0 <= k < 16 ==> out[k] == FilledByte(data[..], z, 8 - (n - z - 1), k)
    ensures out[16..] == old(out[16..])
  {
    var i := if z < 0 then 0 else z;
    var gap := 8 - (n - z - 1);
    CopySlots(data, 0, out, 0, i);
    if i < gap { ZeroSlots(out, i, gap - i); }
    CopySlots(data, z + 1, out, gap, 8 - gap);
  }

  /** `for (; i < end; i++, j++) u[i] = data[j];` on 16-bit slots. */
  method CopySlots(data: array<byte>, j: nat, out: array<byte>, i: nat, n: nat)
    requires data.Length == 16 && out.Length >= 16 && data != out && i + n <= 8 && j + n <= 8
    modifies out
    ensures forall k :: 0 <= k < out.Length ==>
              out[k] == if 2 * i <= k < 2 * (i + n) then data[k - 2 * i + 2 * j] else old(out[k])
  {
    for m := 0 to n
      invariant forall k :: 0 <= k < out.Length ==>
                  out[k] == if 2 * i <= k < 2 * (i + m) then data[k - 2 * i + 2 * j] else old(out[k])
    {
      out[2 * (i + m)] := data[2 * (j + m)];
      out[2 * (i + m) + 1] := data[2 * (j + m) + 1];
    }
  }

  method ZeroSlots(out: array<byte>, i: nat, n: nat)
    requires out.Length >= 16 && i + n <= 8
    modifies out
    ensures forall k :: 0 <= k < out.Length ==> out[k] == if 2 * i <= k < 2 * (i + n) then 0 else old(out[k])
  {
    for m := 0 to n
      invariant forall k :: 0 <= k < out.Length ==> out[k] == if 2 * i <= k < 2 * (i + m) then 0 else old(out[k])
    {
      out[2 * (i + m)] := 0;
      out[2 * (i + m) + 1] := 0;
    }
  }

  lemma {:induction false} ZeroWords(w: seq<nat>)
    requires forall i :: 0 <= i < |w| ==> w[i] == 0
    ensures forall k :: 0 <= k < 2 * |w| ==> Bytes(w)[k] == 0
  {
    if w != [] { ZeroWords(w[1..]); }
  }

  /** What the final loops store is what `Filled` says. */
  lemma {:induction false} FilledBytes(d: seq<byte>, z: int, pre: seq<nat>, post: seq<nat>, r: seq<byte>)
    requires |d| == |r| == 16 && InSlots(d, z, pre, post)
    requires z == -1 ==> |pre| == 8 && r == d
    requires z >= 0 ==> forall k :: 0 <= k < 16 ==> r[k] == FilledByte(d, z, 8 - |post|, k)
    ensures Filled(pre, z >= 0, post).Some? && Bytes(Filled(pre, z >= 0, post).value) == r
  {
    hide Bytes;
    if z >= 0 {
      var gap := seq(8 - |pre| - |post|, _ => 0);
      ZeroWords(gap);
      BytesAppend(pre + gap, post);
      BytesAppend(pre, gap);
      var all := Bytes(pre) + Bytes(gap) + Bytes(post);
      assert all == r by {
        assert forall k :: 0 <= k < 2 * |post| ==> Bytes(post)[k] == d[2 * z + 2..2 * (z + 1 + |post|)][k];
        assert forall k :: 0 <= k < 2 * z ==> Bytes(pre)[k] == d[..2 * z][k];
      }
    }
  }

  lemma {:induction false} OneWordBytes(x: nat)
    requires x < 0x1_0000
    ensures Bytes([x]) == [Hi(x), Lo(x)]
  {
    assert Bytes([x]) == [Hi(x), Lo(x)] + Bytes([]);
  }

  /** `data[n] = htons(l)`: the word goes behind the ones already read. */
  method StoreWord(data: array<byte>, n: nat, z: int, l: nat, ghost pre: seq<nat>, ghost post: seq<nat>)
    requires data.Length == 16 && l < 0x1_0000 && n < 8 && InSlots(data[..], z, pre, post)
    requires n == if z == -1 then |pre| else z + 1 + |post|
    modifies data
    ensures z == -1 ==> InSlots(data[..], z, pre + [l], post)
    ensures z >= 0 ==> InSlots(data[..], z, pre, post + [l])
  {
    hide Bytes, Hi, Lo;
    ghost var d := data[..];
    data[2 * n], data[2 * n + 1] := Hi(l), Lo(l);
    OneWordBytes(l);
    BytesAppend(pre, [l]);
    BytesAppend(post, [l]);
    StoreSlice(d, data[..], if z == -1 then 0 else 2 * z + 2, n);
    if z >= 0 { assert data[..][..2 * z] == d[..2 * z]; }
  }

  lemma {:induction false} StoreSlice(d: seq<byte>, e: seq<byte>, from: nat, n: nat)
    requires |d| == |e| == 16 && n < 8 && from <= 2 * n
    requires forall k :: 0 <= k < 16 && k != 2 * n && k != 2 * n + 1 ==> d[k] == e[k]
    ensures e[from..2 * (n + 1)] == d[from..2 * n] + [e[2 * n], e[2 * n + 1]]
  {}

  /** `ip_pton(p, data + n)`: a dotted quad fills two slots, or the whole parse fails. */
  method StoreQuad(p: cstring, data: array<byte>, n: nat, z: int, ghost pre: seq<nat>, ghost post: seq<nat>)
    returns (r: int)
    requires data.Length == 16 && n <= 6 && InSlots(data[..], z, pre, post)
    requires n == if z == -1 then |pre| else z + 1 + |post|
    modifies data
    ensures r == if IpPtonSpec(p).Some? then 0 else -1
    ensures r == 0 ==>
              var v := Words(IpPtonSpec(p).value);
              && (z == -1 ==> InSlots(data[..], z, pre + v, post))
              && (z >= 0 ==> InSlots(data[..], z, pre, post + v))
  {
    hide Bytes, Words, IpText, Octets;
    ghost var d := data[..];
    r := OctetsPton(p, 4, false, data, 2 * n);
    if r == 0 {
      ghost var b := IpPtonSpec(p).value;
      BytesOfWords(b);
      BytesAppend(pre, Words(b));
      BytesAppend(post, Words(b));
      assert data[2 * n..2 * n + 4] == b;
      QuadSlice(d, data[..], if z == -1 then 0 else 2 * z + 2, n, b);
      if z >= 0 { assert data[..][..2 * z] == data[..2 * n][..2 * z] == d[..2 * n][..2 * z] == d[..2 * z]; }
    }
  }

  lemma {:induction false} QuadSlice(d: seq<byte>, e: seq<byte>, from: nat, n: nat, b: seq<byte>)
    requires |d| == |e| == 16 && n <= 6 && from <= 2 * n && |b| == 4
    requires e[..2 * n] == d[..2 * n] && e[2 * n..2 * n + 4] == b
    ensures e[from..2 * (n + 2)] == d[from..2 * n] + b
  {
    assert e[from..2 * (n + 2)] == e[..2 * n][from..] + e[2 * n..2 * n + 4];
  }

  /** One turn of the scan, case by case. */
  lemma {:induction false} ScanTurn(p: cstring, pre: seq<nat>, seen: bool, post: seq<nat>)
    requires |pre| + |post| + (if seen then 1 else 0) < 8 && (!seen ==> post == [])
    requires IsWords(pre) && IsWords(post)
    ensures var (l, ep) := Strtol(p, true);
            var n := |pre| + |post| + (if seen then 1 else 0);
            var r := Ip6Scan(p, pre, seen, post);
            var quad := At(ep) == '.' && n <= 6;
            && (|ep| == |p| ==> ep == p)
            && (|ep| == |p| && At(p) == ':' && !seen ==> r == Ip6Scan(p[1..], pre, true, []))
            && (|ep| == |p| && p == "" ==> r == if n > 0 then Filled(pre, seen, post) else None)
            && (|ep| == |p| && p != "" && !(At(p) == ':' && !seen) ==> r == None)
            && (|ep| != |p| && quad && IpPtonSpec(p).None? ==> r == None)
            && (|ep| != |p| && quad && IpPtonSpec(p).Some? ==>
                  var v := Words(IpPtonSpec(p).value);
                  r == if seen then Filled(pre, seen, post + v) else Filled(pre + v, seen, post))
            && (|ep| != |p| && !quad && !(0 <= l <= 0xffff) ==> r == None)
            && (|ep| != |p| && !quad && 0 <= l <= 0xffff ==>
                  var pre', post' := if seen then pre else pre + [l], if seen then post + [l] else post;
                  && (ep == "" ==> r == Filled(pre', seen, post'))
                  && (ep != "" && (ep[0] != ':' || |ep| == 1) ==> r == None)
                  && (ep != "" && ep[0] == ':' && |ep| > 1 ==> r == Ip6Scan(ep[1..], pre', seen, post')))
  {
    hide Filled, Words, Octets;
    StrtolFixed(p);
    hide Strtol;
  }

  lemma {:induction false} StrtolFixed(p: cstring)
    ensures |Strtol(p, true).1| == |p| ==> Strtol(p, true).1 == p
  {}

  lemma {:induction false} ScanFull(p: cstring, pre: seq<nat>, seen: bool, post: seq<nat>)
    requires |pre| + |post| + (if seen then 1 else 0) == 8 && (!seen ==> post == [])
    requires IsWords(pre) && IsWords(post)
    ensures Ip6Scan(p, pre, seen, post) == None
  {}

  lemma {:induction false} FilledSome(pre: seq<nat>, seen: bool, post: seq<nat>)
    requires |pre| + |post| <= 8 && IsWords(pre) && IsWords(post) && (!seen ==> post == [])
    ensures Filled(pre, seen, post).Some? <==> seen || |pre| == 8
  {}

  /** The reading loop of `ip6_pton` with the test that follows it: the number of slots used,
      where `::` was, and the words in `data`. */
  method Ip6Read(src: cstring, data: array<byte>)
    returns (ok: bool, n: nat, z: int, ghost pre: seq<nat>, ghost post: seq<nat>)
    requires data.Length == 16
    modifies data
    ensures ok == Ip6PtonSpec(src).Some?
    ensures ok ==> InSlots(data[..], z, pre, post) && n == (if z == -1 then |pre| else z + 1 + |post|)
    ensures ok ==> Ip6PtonSpec(src) == Filled(pre, z >= 0, post) && (z == -1 ==> n == 8)
  {
    hide Strtol, Bytes, Words, Octets, Filled, Ip6Scan;
    var p: cstring := if At(src) == ':' then src[1..] else src;
    var ep: cstring := "";
    z, n := -1, 0;
    pre, post := [], [];
    EmptyHolds(data[..]);
    while n < 8
      invariant 0 <= n <= 8 && InSlots(data[..], z, pre, post)
      invariant n == if z == -1 then |pre| else z + 1 + |post|
      invariant Ip6PtonSpec(src) == Ip6Scan(p, pre, z >= 0, post)
      invariant n == 8 ==> ep != "" && Ip6PtonSpec(src) == None
    {
      ScanTurn(p, pre, z >= 0, post);
      var q := Strtol(p, true);
      var l := q.0;
      ep := q.1;
      if |ep| == |p| {
        if At(ep) == ':' && z == -1 {
          z := n;
          p := p[1..];
          EmptyTail(data[..], z, pre);
        } else if ep == "" {
          break;
        } else {
          return false, n, z, pre, post;
        }
      } else if At(ep) == '.' && n <= 6 {
        var e := StoreQuad(p, data, n, z, pre, post);
        if e < 0 { return false, n, z, pre, post; }
        ghost var v := Words(IpPtonSpec(p).value);
        if z == -1 { pre := pre + v; } else { post := post + v; }
        n := n + 2;
        ep := "";
        break;
      } else if 0 <= l <= 0xffff {
        StoreWord(data, n, z, l, pre, post);
        if z == -1 { pre := pre + [l]; } else { post := post + [l]; }
        if ep == "" {
          n := n + 1;
          break;
        } else if ep[0] != ':' || |ep| == 1 {
          return false, n, z, pre, post;
        }
        p := ep[1..];
      } else {
        return false, n, z, pre, post;
      }
      n := n + 1;
      if n == 8 { ScanFull(p, pre, z >= 0, post); }
    }
    FilledSome(pre, z >= 0, post);
    ok := !(n == 0 || ep != "" || (z == -1 && n != 8));
  }

  lemma {:induction false} EmptyHolds(d: seq<byte>)
    requires |d| == 16
    ensures InSlots(d, -1, [], [])
  {
    assert d[..0] == [];
  }

  lemma {:induction false} EmptyTail(d: seq<byte>, z: nat, pre: seq<nat>)
    requires |d| == 16 && z < 8 && z == |pre| && InSlots(d, -1, pre, [])
    ensures InSlots(d, z, pre, [])
  {
    assert d[2 * z + 2..2 * (z + 1)] == [];
  }

  /** `ip6_pton` */
  method Ip6Pton(src: cstring, out: array<byte>) returns (r: int)
    requires out.Length >= 16
    modifies out
    ensures r == if Ip6PtonSpec(src).Some? then 0 else -1
    ensures r == 0 ==> out[..16] == Bytes(Ip6PtonSpec(src).value)
    ensures r != 0 ==> out[..] == old(out[..])
    ensures out[16..] == old(out[16..])
  {
    hide Bytes, Filled, Ip6PtonSpec;
    var data := new byte[16];
    var ok, n, z, pre, post := Ip6Read(src, data);
    if !ok { return -1; }
    Ip6Fill(data, n, z, out);
    FilledBytes(data[..], z, pre, post, out[..16]);
    return 0;
  }
}
