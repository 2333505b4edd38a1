/** The interface names of src/intf-win32.c: tables of index pairs that only grow, one for each kind
    of interface, from which names are made and resolved again. */
module IfCombo {
  import opened CText
  import opened Dnet
  import opened Memory

  const IF_TYPE_ISO88025_TOKENRING := 9
  const IF_TYPE_PPP := 23
  const IF_TYPE_SOFTWARE_LOOPBACK := 24
  const IF_TYPE_TUNNEL := 131

  /** More than any of the canonical types. */
  const MIB_IF_TYPE_MAX := 194

  /** The index pair of an adapter. */
  datatype Pair = Pair(ipv4: nat, ipv6: nat)

  /** What `GetAdaptersAddresses` reports of an adapter; `id` stands for the rest of the record, which
      tells adapters of one type and index pair apart. */
  datatype Adapter = Adapter(id: nat, ifType: int, pair: Pair)

  // ---- names and types ----

  /** `_ifcombo_name` */
  function IfComboName(t: int): (name: cstring)
    ensures name in {"eth", "tr", "ppp", "lo", "tun"}
  {
    if t == IF_TYPE_ISO88025_TOKENRING then "tr"
    else if t == IF_TYPE_PPP then "ppp"
    else if t == IF_TYPE_SOFTWARE_LOOPBACK then "lo"
    else if t == IF_TYPE_TUNNEL then "tun"
    else "eth"
  }

  /** `strncmp(s, t, strlen(t)) == 0` */
  predicate StartsWith(s: cstring, t: cstring) {
    |t| <= |s| && s[..|t|] == t
  }

  /** `_ifcombo_type` */
  function IfComboType(device: cstring): (t: nat)
    ensures t < MIB_IF_TYPE_MAX
  {
    if StartsWith(device, "eth") then INTF_TYPE_ETH
    else if StartsWith(device, "tr") then INTF_TYPE_TOKENRING
    else if StartsWith(device, "ppp") then INTF_TYPE_PPP
    else if StartsWith(device, "lo") then INTF_TYPE_LOOPBACK
    else if StartsWith(device, "tun") then INTF_TYPE_TUN
    else INTF_TYPE_OTHER
  }

  /** `_if_type_canonicalize` */
  function Canonical(t: int): (c: nat)
    ensures c < MIB_IF_TYPE_MAX
  {
    IfComboType(IfComboName(t))
  }

  predicate IsAlpha(c: char) {
    'a' <= c <= 'z' || 'A' <= c <= 'Z'
  }

  function SkipAlpha(p: cstring): (r: cstring)
    ensures |r| <= |p|
  {
    if p != "" && IsAlpha(p[0]) then SkipAlpha(p[1..]) else p
  }

  /** `atoi` of what follows the letters. */
  function IndexOf(device: cstring): int {
    Strtol(SkipAlpha(device), false).0
  }

  function NameOf(t: int, i: nat): cstring {
    IfComboName(t) + Dec(i)
  }

  /** The kinds of interface by the numbers Windows gives them: what they are named and which type the
      rest of the library knows them by. */
  lemma {:induction false} KindOfNumber(t: int, i: nat)
    ensures NameOf(t, i)
         == (if t == 9 then "tr" else if t == 23 then "ppp" else if t == 24 then "lo" else if t == 131 then "tun"
             else "eth") + Dec(i)
    ensures Canonical(t) == if t == 9 then 9 else if t == 23 then 23 else if t == 24 then 24 else if t == 131 then 53 else 6
  {
    hide IfComboType;
    TypesOfWords();
  }

  lemma {:induction false} TypesOfWords()
    ensures IfComboType("eth") == 6 && IfComboType("tr") == 9 && IfComboType("ppp") == 23
    ensures IfComboType("lo") == 24 && IfComboType("tun") == 53
  {
    var tr: cstring, lo: cstring, tun: cstring := "tr", "lo", "tun";
    assert tr[..2] == tr && lo[..2] == lo && tun[..3] == tun;
    assert tun[..2][1] == 'u' && tr[1] == 'r';
    assert "ppp"[..3] == "ppp" && "eth"[..3] == "eth" && "ppp"[..2] != tr && "lo"[..2] != tr;
  }

  /** A word of another kind belongs to type 1, where no adapter is. */
  lemma {:induction false} OtherWords(device: cstring, t: int)
    requires device == "" || device[0] !in {'e', 't', 'p', 'l'}
    ensures IfComboType(device) == 1 != Canonical(t)
  {
    KindOfNumber(t, 0);
  }

  /** The type of a name is that of the adapters that are named so, and its number is read back. */
  lemma {:induction false} NameReadsBack(t: int, i: nat)
    requires i <= LONG_MAX
    ensures IfComboType(NameOf(t, i)) == Canonical(t) && IndexOf(NameOf(t, i)) == i
  {
    hide Strtol, Dec;
    DecChars(i);
    var word: cstring, d: cstring := IfComboName(t), Dec(i);
    assert d[0] == Dec(i)[0] && IsDigit(d[0], false);
    TypeOfName(word, d);
    LettersSkipped(word, d);
    DecIsNumeral(i);
    StrtolNumeral(Dec(i), "", false);
    assert d + "" == d;
  }

  lemma {:induction false} TypeOfName(word: cstring, d: cstring)
    requires word in {"eth", "tr", "ppp", "lo", "tun"} && d != "" && IsDigit(d[0], false)
    ensures IfComboType(word + d) == IfComboType(word)
  {
    var s := word + d;
    assert forall k :: 0 <= k < |word| ==> s[k] == word[k];
    assert s[|word|] == d[0];
    Prefixes(s, word);
  }

  lemma {:induction false} Prefixes(s: cstring, word: cstring)
    requires word in {"eth", "tr", "ppp", "lo", "tun"} && |word| <= |s| && forall k :: 0 <= k < |word| ==> s[k] == word[k]
    ensures IfComboType(s) == IfComboType(word)
  {
    if word == "eth" { assert s[..3] == "eth"; }
    else if word == "tr" { assert s[..2] == "tr" && word[..2] == "tr"; assert s[0] == 't'; }
    else if word == "ppp" { assert s[..3] == "ppp" && s[0] == 'p'; }
    else if word == "lo" { assert s[..2] == "lo" && s[0] == 'l' && word[..2] == "lo"; }
    else { assert s[..3] == "tun" && s[0] == 't' && s[1] == 'u'; }
  }

  lemma {:induction false} LettersSkipped(word: cstring, d: cstring)
    requires (forall k :: 0 <= k < |word| ==> IsAlpha(word[k])) && d != "" && !IsAlpha(d[0])
    ensures SkipAlpha(word + d) == d
  {
    if word == "" {
      assert word + d == d;
    } else {
      LettersSkipped(word[1..], d);
      assert (word + d)[1..] == word[1..] + d;
    }
  }

  // ---- the tables over a run of refreshes ----

  /** The first entry for a pair, or the number of entries. */
  function FindPair(s: seq<Pair>, p: Pair): (i: nat)
    ensures i <= |s| && (i < |s| ==> s[i] == p)
    ensures forall k :: 0 <= k < i ==> s[k] != p
  {
    if s == [] || s[0] == p then 0 else 1 + FindPair(s[1..], p)
  }

  lemma {:induction false} FindPairIs(s: seq<Pair>, p: Pair, i: nat)
    requires i <= |s| && (forall k :: 0 <= k < i ==> s[k] != p) && (i < |s| ==> s[i] == p)
    ensures i == FindPair(s, p)
  {}

  /** What one refresh appends to the table of type `t`. */
  function Added(adapters: seq<Adapter>, t: nat): seq<Pair> {
    if adapters == [] then []
    else
      var a := adapters[|adapters| - 1];
      Added(adapters[..|adapters| - 1], t) + if Canonical(a.ifType) == t then [a.pair] else []
  }

  /** The table of type `t` after refreshes that reported the adapters of `h` in turn. */
  function Table(h: seq<seq<Adapter>>, t: nat): seq<Pair> {
    if h == [] then [] else Table(h[..|h| - 1], t) + Added(h[|h| - 1], t)
  }

  predicate Seen(h: seq<seq<Adapter>>, a: Adapter) {
    exists k :: 0 <= k < |h| && a in h[k]
  }

  /** The name of an adapter: `%s%u` of the word for its type and its place in the table. */
  function NameIn(h: seq<seq<Adapter>>, a: Adapter): cstring {
    NameOf(a.ifType, FindPair(Table(h, Canonical(a.ifType)), a.pair))
  }

  /** `_find_adapter_address`: the number in the name selects an entry, and the first adapter with that
      pair is the answer. */
  function Lookup(h: seq<seq<Adapter>>, adapters: seq<Adapter>, device: cstring): Option<Adapter>
    requires adapters == [] || HasEntry(h, device)
  {
    if adapters == [] then None else FirstWith(adapters, EntryOf(h, device))
  }

  /** The number in the name is that of an entry in the table of its type. */
  predicate HasEntry(h: seq<seq<Adapter>>, device: cstring) {
    0 <= IndexOf(device) < |Table(h, IfComboType(device))|
  }

  function EntryOf(h: seq<seq<Adapter>>, device: cstring): Pair
    requires HasEntry(h, device)
  {
    Table(h, IfComboType(device))[IndexOf(device)]
  }

  function FirstWith(adapters: seq<Adapter>, p: Pair): (r: Option<Adapter>)
    ensures r.None? <==> forall a :: a in adapters ==> a.pair != p
    ensures r.Some? ==> r.value in adapters && r.value.pair == p
  {
    if adapters == [] then None
    else if adapters[0].pair == p then Some(adapters[0])
    else FirstWith(adapters[1..], p)
  }

  lemma {:induction false} AddedHasPair(adapters: seq<Adapter>, a: Adapter)
    requires a in adapters
    ensures a.pair in Added(adapters, Canonical(a.ifType))
  {
    hide Canonical;
    if a != adapters[|adapters| - 1] {
      var k :| 0 <= k < |adapters| && adapters[k] == a;
      assert a == adapters[..|adapters| - 1][k];
      AddedHasPair(adapters[..|adapters| - 1], a);
    }
  }

  /** An adapter that was reported is in its table. */
  lemma {:induction false} SeenIsInTable(h: seq<seq<Adapter>>, a: Adapter)
    requires Seen(h, a)
    ensures FindPair(Table(h, Canonical(a.ifType)), a.pair) < |Table(h, Canonical(a.ifType))|
  {
    hide Canonical, Added;
    var t, k :| t == Canonical(a.ifType) && 0 <= k < |h| && a in h[k];
    TableSplits(h[..k + 1], h[k + 1..], t);
    assert h[..k + 1] + h[k + 1..] == h;
    AddedHasPair(h[k], a);
    assert h[..k + 1][..k] == h[..k] && h[..k + 1][k] == h[k];
    PairIsFound(Table(h[..k], t), Added(h[k], t), TableFrom(h[k + 1..], t), a.pair);
  }

  function TableFrom(h: seq<seq<Adapter>>, t: nat): seq<Pair> {
    if h == [] then [] else Added(h[0], t) + TableFrom(h[1..], t)
  }

  /** Tables only grow. */
  lemma {:induction false} TableSplits(h: seq<seq<Adapter>>, more: seq<seq<Adapter>>, t: nat)
    ensures Table(h + more, t) == Table(h, t) + TableFrom(more, t)
    decreases |more|
  {
    hide Added, Table;
    if more == [] {
      assert h + more == h;
    } else {
      TableSplits(h + [more[0]], more[1..], t);
      assert h + more == (h + [more[0]]) + more[1..];
      TableOneMore(h, more[0], t);
    }
  }

  lemma {:induction false} TableOneMore(h: seq<seq<Adapter>>, adapters: seq<Adapter>, t: nat)
    ensures Table(h + [adapters], t) == Table(h, t) + Added(adapters, t)
  {
    hide Added;
    assert (h + [adapters])[..|h|] == h;
  }

  lemma {:induction false} PairIsFound(a: seq<Pair>, b: seq<Pair>, c: seq<Pair>, p: Pair)
    requires p in b
    ensures FindPair(a + b + c, p) < |a + b + c|
  {
    var s := a + b + c;
    var k :| 0 <= k < |b| && b[k] == p;
    assert s[|a| + k] == p;
  }

  /** Once an adapter was reported its name never changes. */
  lemma {:induction false} NameIsStable(h: seq<seq<Adapter>>, more: seq<seq<Adapter>>, a: Adapter)
    requires Seen(h, a)
    ensures NameIn(h + more, a) == NameIn(h, a)
  {
    hide Canonical, NameOf, Table, FindPair, Seen;
    var t := Canonical(a.ifType);
    SeenIsInTable(h, a);
    TableSplits(h, more, t);
    var i := FindPair(Table(h, t), a.pair);
    FoundEarlier(Table(h, t), TableFrom(more, t), a.pair);
  }

  lemma {:induction false} FoundEarlier(a: seq<Pair>, b: seq<Pair>, p: Pair)
    requires FindPair(a, p) < |a|
    ensures FindPair(a + b, p) == FindPair(a, p)
  {
    hide FindPair;
    FindPairIs(a + b, p, FindPair(a, p));
  }

  /** Two adapters share a name exactly when they are of one kind and have the same pair. */
  lemma {:induction false} NamesAgreeIff(h: seq<seq<Adapter>>, a: Adapter, b: Adapter)
    requires Seen(h, a) && Seen(h, b)
    requires |Table(h, Canonical(a.ifType))| <= LONG_MAX && |Table(h, Canonical(b.ifType))| <= LONG_MAX
    ensures NameIn(h, a) == NameIn(h, b) <==> IfComboName(a.ifType) == IfComboName(b.ifType) && a.pair == b.pair
  {
    hide NameOf, Table, IndexOf, IfComboType, Seen, IfComboName;
    SeenIsInTable(h, a);
    SeenIsInTable(h, b);
    var i, j := FindPair(Table(h, Canonical(a.ifType)), a.pair), FindPair(Table(h, Canonical(b.ifType)), b.pair);
    NameReadsBack(a.ifType, i);
    NameReadsBack(b.ifType, j);
    SameKind(a.ifType, b.ifType);
    if Canonical(a.ifType) == Canonical(b.ifType) { SameName(a.ifType, b.ifType, i); }
  }

  lemma {:induction false} SameKind(s: int, t: int)
    ensures Canonical(s) == Canonical(t) <==> IfComboName(s) == IfComboName(t)
  {
    CanonicalCases(s);
    CanonicalCases(t);
  }

  lemma {:induction false} CanonicalCases(t: int)
    ensures Canonical(t) == match IfComboName(t)
                            case "eth" => INTF_TYPE_ETH
                            case "tr" => INTF_TYPE_TOKENRING
                            case "ppp" => INTF_TYPE_PPP
                            case "lo" => INTF_TYPE_LOOPBACK
                            case _ => INTF_TYPE_TUN
  {
    var s := IfComboName(t);
    assert s[..|s|] == s;
    assert forall n :: 0 < n <= |s| ==> s[..n][0] == s[0] && (n > 1 ==> s[..n][1] == s[1]);
  }

  lemma {:induction false} SameName(s: int, t: int, i: nat)
    requires IfComboName(s) == IfComboName(t)
    ensures NameOf(s, i) == NameOf(t, i)
  {}

  /** Looking up the name an adapter was given finds the first adapter of the current report with
      its index pair. The type plays no part in that. */
  lemma {:induction false} LookupFindsPair(h: seq<seq<Adapter>>, adapters: seq<Adapter>, a: Adapter)
    requires Seen(h, a) && |Table(h, Canonical(a.ifType))| <= LONG_MAX
    ensures var device := NameIn(h, a);
            HasEntry(h, device) && Lookup(h, adapters, device) == FirstWith(adapters, a.pair)
  {
    hide NameOf, Table, IndexOf, IfComboType, Seen, IfComboName;
    SeenIsInTable(h, a);
    NameReadsBack(a.ifType, FindPair(Table(h, Canonical(a.ifType)), a.pair));
  }

  /** No adapter of the report in front of `a` has the index pair of `a`. */
  predicate FirstOfItsPair(adapters: seq<Adapter>, a: Adapter) {
    exists k :: 0 <= k < |adapters| && adapters[k] == a && forall j :: 0 <= j < k ==> adapters[j].pair != a.pair
  }

  lemma {:induction false} FirstWithIff(adapters: seq<Adapter>, a: Adapter)
    ensures FirstWith(adapters, a.pair) == Some(a) <==> FirstOfItsPair(adapters, a)
  {
    if adapters == [] {
    } else if adapters[0].pair == a.pair {
      if adapters[0] == a { assert FirstOfItsPair(adapters, a); }
    } else {
      hide FirstOfItsPair;
      FirstWithIff(adapters[1..], a);
      FirstBehind(adapters, a);
    }
  }

  lemma {:induction false} FirstBehind(adapters: seq<Adapter>, a: Adapter)
    requires adapters != [] && adapters[0].pair != a.pair
    ensures FirstOfItsPair(adapters, a) <==> FirstOfItsPair(adapters[1..], a)
  {
    var rest := adapters[1..];
    if k :| 0 <= k < |rest| && rest[k] == a && forall j :: 0 <= j < k ==> rest[j].pair != a.pair {
      assert adapters[k + 1] == a && forall j :: 0 < j < k + 1 ==> adapters[j] == rest[j - 1];
    }
    if k :| 0 <= k < |adapters| && adapters[k] == a && forall j :: 0 <= j < k ==> adapters[j].pair != a.pair {
      assert rest[k - 1] == a && forall j :: 0 <= j < k - 1 ==> rest[j] == adapters[j + 1];
    }
  }

  /** The answer is the adapter that was given the name exactly when it is the first one of the
      report with its pair; for an adapter whose pair no other has, exactly when it is there. */
  lemma {:induction false} LookupFindsIff(h: seq<seq<Adapter>>, adapters: seq<Adapter>, a: Adapter)
    requires Seen(h, a) && |Table(h, Canonical(a.ifType))| <= LONG_MAX
    ensures var device := NameIn(h, a);
            && HasEntry(h, device)
            && (Lookup(h, adapters, device) == Some(a) <==> FirstOfItsPair(adapters, a))
            && ((forall x :: x in adapters && x.pair == a.pair ==> x == a) ==>
                  (Lookup(h, adapters, device) == Some(a) <==> a in adapters))
  {
    hide NameIn, Table, IndexOf, IfComboType, Seen, Lookup, FirstOfItsPair;
    LookupFindsPair(h, adapters, a);
    FirstWithIff(adapters, a);
  }

  /** How many of the adapters are of kind `t`. */
  function KindCount(adapters: seq<Adapter>, t: nat): (n: nat)
  {
    if adapters == [] then 0
    else KindCount(adapters[..|adapters| - 1], t) + if Canonical(adapters[|adapters| - 1].ifType) == t then 1 else 0
  }

  lemma {:induction false} AddedCounts(adapters: seq<Adapter>, t: nat)
    ensures |Added(adapters, t)| == KindCount(adapters, t)
    ensures forall p :: p in Added(adapters, t) ==> exists a :: a in adapters && Canonical(a.ifType) == t && a.pair == p
  {
    hide Canonical;
    if adapters != [] {
      var front, last := adapters[..|adapters| - 1], adapters[|adapters| - 1];
      AddedCounts(front, t);
      assert adapters == front + [last];
    }
  }

  /** On the first refresh the adapters of a kind are numbered in the order they are reported: the number
      of an adapter whose pair is new is how many of its kind came before. */
  lemma {:induction false} FirstNumbers(adapters: seq<Adapter>, k: nat)
    requires k < |adapters|
    requires forall j :: 0 <= j < k && Canonical(adapters[j].ifType) == Canonical(adapters[k].ifType) ==>
               adapters[j].pair != adapters[k].pair
    ensures NameIn([adapters], adapters[k])
         == IfComboName(adapters[k].ifType) + Dec(KindCount(adapters[..k], Canonical(adapters[k].ifType)))
  {
    hide Canonical, Added, KindCount;
    var a, front := adapters[k], adapters[..k];
    var t := Canonical(a.ifType);
    AddedCounts(front, t);
    AddedSplits(front + [a], adapters[k + 1..], t);
    AddedOneMore(front, a, t);
    assert front + [a] + adapters[k + 1..] == adapters;
    assert [adapters][..0] == [] && Table([], t) == [];
    assert Table([adapters], t) == Added(adapters, t);
    assert a.pair !in Added(front, t);
    FoundAt(Added(front, t), a.pair, Added(adapters[k + 1..], t));
  }

  lemma {:induction false} AddedSplits(a: seq<Adapter>, b: seq<Adapter>, t: nat)
    ensures Added(a + b, t) == Added(a, t) + Added(b, t)
    decreases |b|
  {
    hide Canonical, Added;
    AddedNothing(t);
    if b == [] {
      assert a + b == a;
    } else {
      var front, last := b[..|b| - 1], b[|b| - 1];
      AddedSplits(a, front, t);
      AddedOneMore(front, last, t);
      AddedOneMore(a + front, last, t);
      assert b == front + [last] && a + b == (a + front) + [last];
    }
  }

  lemma {:induction false} AddedNothing(t: nat)
    ensures Added([], t) == []
  {}

  lemma {:induction false} FoundAt(before: seq<Pair>, p: Pair, behind: seq<Pair>)
    requires p !in before
    ensures FindPair(before + [p] + behind, p) == |before|
  {
    var s := before + [p] + behind;
    assert s[|before|] == p && forall k :: 0 <= k < |before| ==> s[k] == before[k] && before[k] in before;
  }

  /** Two adapters without addresses, both with index pair (0, 0): the name of the tunnel finds the
      Ethernet adapter in front of it. */
  lemma {:induction false} LookupIgnoresType()
    ensures var e, t := Adapter(0, 6, Pair(0, 0)), Adapter(1, IF_TYPE_TUNNEL, Pair(0, 0));
            var h := [[e, t]];
            && NameIn(h, e) != NameIn(h, t)
            && HasEntry(h, NameIn(h, t)) && Lookup(h, h[0], NameIn(h, t)) == Some(e)
  {
    hide IndexOf, IfComboType, NameIn;
    var e, t := Adapter(0, 6, Pair(0, 0)), Adapter(1, IF_TYPE_TUNNEL, Pair(0, 0));
    var h := [[e, t]];
    assert e in h[0] && t in h[0] && Seen(h, e) && Seen(h, t);
    TableOfOne(h[0], Canonical(e.ifType));
    TableOfOne(h[0], Canonical(t.ifType));
    NamesAgreeIff(h, e, t);
    LookupFindsPair(h, h[0], t);
  }

  lemma {:induction false} TableOfOne(adapters: seq<Adapter>, t: nat)
    ensures |Table([adapters], t)| <= |adapters|
  {
    hide Canonical;
    assert [adapters][..0] == [];
    AddedBound(adapters, t);
  }

  lemma {:induction false} AddedBound(adapters: seq<Adapter>, t: nat)
    ensures |Added(adapters, t)| <= |adapters|
  {
    hide Canonical;
    if adapters != [] { AddedBound(adapters[..|adapters| - 1], t); }
  }

  // ---- the handle ----

  /** `struct ifcombo`: an array that is doubled when it is full. */
  class Combo {
    var idx: array?<Pair>
    var cnt: nat
    var max: nat

    ghost predicate Valid()
      reads this, idx
    {
      cnt <= max && if idx == null then max == 0 else max > 0 && idx.Length == max
    }

    ghost function Pairs(): seq<Pair>
      requires Valid()
      reads this, idx
    {
      if idx == null then [] else idx[..cnt]
    }

    constructor ()
      ensures Valid() && Pairs() == [] && idx == null
    {
      idx, cnt, max := null, 0, 0;
    }

    /** The search for an index pair */
    method Find(p: Pair) returns (i: nat)
      requires Valid()
      ensures i == FindPair(Pairs(), p)
    {
      i := 0;
      while i < cnt
        invariant i <= cnt && forall k :: 0 <= k < i ==> Pairs()[k] != p
      {
        if idx[i].ipv4 == p.ipv4 && idx[i].ipv6 == p.ipv6 { break; }
        i := i + 1;
      }
      FindPairIs(Pairs(), p, i);
    }

    /** `_ifcombo_add`, with memory to be had */
    method Add(ipv4: nat, ipv6: nat)
      requires Valid()
      modifies this, idx
      ensures Valid() && Pairs() == old(Pairs()) + [Pair(ipv4, ipv6)]
      ensures idx != null && (idx == old(idx) || fresh(idx))
    {
      if cnt == max { Grow(); }
      ghost var was := Pairs();
      idx[cnt] := Pair(ipv4, ipv6);
      assert idx[..cnt] == was;
      cnt := cnt + 1;
    }

    method Grow()
      requires Valid() && cnt == max
      modifies this
      ensures Valid() && cnt == old(cnt) < max && Pairs() == old(Pairs()) && idx != null && fresh(idx)
    {
      if idx != null {
        var wider := new Pair[2 * max];
        Memmove(wider, 0, idx, 0, cnt);
        assert wider[..cnt] == idx[..cnt];
        idx, max := wider, 2 * max;
      } else {
        max := 8;
        idx := new Pair[8];
      }
    }
  }

  /** `struct intf_handle` */
  class Handle {
    const ifcombo: seq<Combo>
    var iftable: seq<Adapter>

    ghost function Arrays(): (s: set<array?<Pair>>)
      reads ifcombo
      ensures forall c :: c in ifcombo ==> c.idx in s
    {
      set c | c in ifcombo :: c.idx
    }

    ghost predicate Valid()
      reads ifcombo, Arrays()
    {
      && |ifcombo| == MIB_IF_TYPE_MAX
      && (forall t :: 0 <= t < MIB_IF_TYPE_MAX ==> ifcombo[t].Valid())
      && (forall s, t {:trigger Apart(ifcombo[s], ifcombo[t])} ::
            0 <= s < MIB_IF_TYPE_MAX && 0 <= t < MIB_IF_TYPE_MAX && s != t ==> Apart(ifcombo[s], ifcombo[t]))
    }

    /** The tables are what the reports of all refreshes so far make them. */
    ghost predicate Reflects(h: seq<seq<Adapter>>)
      requires Valid()
      reads ifcombo, Arrays()
    {
      forall t :: 0 <= t < MIB_IF_TYPE_MAX ==> ifcombo[t].Pairs() == Table(h, t)
    }

    /** The same in the middle of a refresh, with `before` the adapters entered so far. */
    ghost predicate Entered(h: seq<seq<Adapter>>, before: seq<Adapter>)
      requires Valid()
      reads ifcombo, Arrays()
    {
      forall t :: 0 <= t < MIB_IF_TYPE_MAX ==> ifcombo[t].Pairs() == Table(h, t) + Added(before, t)
    }

    lemma {:induction false} HasAllTypes()
      requires Valid()
      ensures |ifcombo| == MIB_IF_TYPE_MAX
    {}

    lemma {:induction false} NoneEntered(h: seq<seq<Adapter>>)
      requires Valid() && Reflects(h)
      ensures Entered(h, [])
    {
      hide Table, Canonical, Apart;
    }

    lemma {:induction false} AllEntered(h: seq<seq<Adapter>>, adapters: seq<Adapter>)
      requires Valid() && Entered(h, adapters)
      ensures Reflects(h + [adapters])
    {
      hide Table, Canonical, Apart, Added;
      forall t | 0 <= t < MIB_IF_TYPE_MAX
        ensures ifcombo[t].Pairs() == Table(h + [adapters], t)
      {
        TableOneMore(h, adapters, t);
      }
    }

    /** `intf_open` */
    constructor ()
      ensures Valid() && Reflects([])
    {
      var s: seq<Combo> := [];
      for t := 0 to MIB_IF_TYPE_MAX
        invariant |s| == t
        invariant forall i :: 0 <= i < t ==> fresh(s[i]) && s[i].Valid() && s[i].idx == null && s[i].Pairs() == []
        invariant forall i, j :: 0 <= i < j < t ==> s[i] != s[j]
      {
        var c := new Combo();
        s := s + [c];
      }
      ifcombo, iftable := s, [];
    }

    /** One entry of the loop over the adapters in `_refresh_tables` */
    method AddOne(a: Adapter, ghost before: seq<Adapter>, ghost h: seq<seq<Adapter>>)
      requires Valid() && Entered(h, before)
      modifies ifcombo[Canonical(a.ifType)], ifcombo[Canonical(a.ifType)].idx
      ensures Valid() && Entered(h, before + [a])
      ensures forall t :: 0 <= t < MIB_IF_TYPE_MAX ==>
                ifcombo[t].idx == old(ifcombo[t].idx) || (ifcombo[t].idx != null && fresh(ifcombo[t].idx))
    {
      hide Added, Table, Canonical, Combo.Pairs, Combo.Valid;
      var c := Canonical(a.ifType);
      assert forall t :: 0 <= t < MIB_IF_TYPE_MAX && t != c ==> Apart(ifcombo[t], ifcombo[c]);
      ifcombo[c].Add(a.pair.ipv4, a.pair.ipv6);
      forall t | 0 <= t < MIB_IF_TYPE_MAX
        ensures ifcombo[t].Pairs() == Table(h, t) + Added(before + [a], t)
      {
        AddedOneMore(before, a, t);
      }
    }

    /** `_refresh_tables` once the adapters are known */
    method Refresh(adapters: seq<Adapter>, ghost h: seq<seq<Adapter>>)
      requires Valid() && Reflects(h)
      modifies this, ifcombo, Arrays()
      ensures Valid() && Reflects(h + [adapters]) && iftable == adapters
    {
      hide *;
      iftable := adapters;
      NoneEntered(h);
      AddAll(adapters, h);
      AllEntered(h, adapters);
    }

    /** The name assignment of `_adapter_address_to_entry` */
    method AssignName(a: Adapter, ghost h: seq<seq<Adapter>>) returns (name: cstring)
      requires Valid() && Reflects(h)
      ensures name == NameIn(h, a)
    {
      hide Table, Apart, Canonical, NameOf;
      var i := ifcombo[Canonical(a.ifType)].Find(a.pair);
      name := NameOf(a.ifType, i);
    }

    /** `_find_adapter_address`; with adapters to compare, the number in the name must be that of an
        entry. */
    method FindAdapterAddress(device: cstring, ghost h: seq<seq<Adapter>>) returns (r: Option<Adapter>)
      requires Valid() && Reflects(h)
      requires iftable == [] || HasEntry(h, device)
      ensures r == Lookup(h, iftable, device)
    {
      hide Table, Apart, IfComboType, IndexOf;
      var n, t := IndexOf(device), IfComboType(device);
      assert ifcombo[t].Pairs() == Table(h, t);
      r := None;
      var k := 0;
      while k < |iftable|
        invariant k <= |iftable|
        invariant iftable != [] ==> Lookup(h, iftable, device) == FirstWith(iftable[k..], EntryOf(h, device))
      {
        var p := ifcombo[t].idx[n];
        assert p == ifcombo[t].Pairs()[n] == EntryOf(h, device);
        if p.ipv4 == iftable[k].pair.ipv4 && p.ipv6 == iftable[k].pair.ipv6 {
          return Some(iftable[k]);
        }
        k := k + 1;
      }
    }

    method AddAll(adapters: seq<Adapter>, ghost h: seq<seq<Adapter>>)
      requires Valid() && Entered(h, [])
      modifies ifcombo, Arrays()
      ensures Valid() && Entered(h, adapters)
    {
      hide *;
      ghost var arrays := Arrays();
      HasAllTypes();
      var k := 0;
      assert adapters[..0] == [];
      while k < |adapters|
        invariant k <= |adapters| && Valid() && Entered(h, adapters[..k])
        invariant forall t :: 0 <= t < MIB_IF_TYPE_MAX ==> ifcombo[t].idx in arrays || fresh(ifcombo[t].idx)
      {
        AddOne(adapters[k], adapters[..k], h);
        assert adapters[..k] + [adapters[k]] == adapters[..k + 1];
        k := k + 1;
      }
      assert adapters[..|adapters|] == adapters;
    }
  }

  lemma {:induction false} AddedOneMore(before: seq<Adapter>, a: Adapter, t: nat)
    ensures Added(before + [a], t) == Added(before, t) + if Canonical(a.ifType) == t then [a.pair] else []
  {
    hide Canonical;
    assert (before + [a])[..|before|] == before;
  }

  ghost predicate Apart(c: Combo, d: Combo)
    reads c, d
  {
    c != d && (c.idx != null ==> c.idx != d.idx)
  }
}
