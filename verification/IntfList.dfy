/** The list of interfaces in src/ip-cooked.c, linked with the macros of include/queue.h
    (`LIST_INIT`, `LIST_INSERT_HEAD`, `LIST_REMOVE`, `LIST_FOREACH`), and its lookup, which moves a
    hit to the front. */
module IntfList {
  import opened Counting
  import opened Dnet
  import opened Memory

  /** `struct ip_intf`. The link `le_prev` points at the pointer that points at this node; here it is
      the node that pointer is in, or null when it is the head of the list. */
  class Intf {
    const name: string
    const ha: seq<byte>
    const pa: nat
    const mtu: nat
    var eth: bool
    var next: Intf?
    var prev: Intf?

    constructor (name: string, ha: seq<byte>, pa: nat, mtu: nat)
      ensures this.name == name && this.ha == ha && this.pa == pa && this.mtu == mtu && !eth
    {
      this.name, this.ha, this.pa, this.mtu, this.eth := name, ha, pa, mtu, false;
      next, prev := null, null;
    }
  }

  /** `s` with the node at `i` in front. */
  function ToFront<T>(s: seq<T>, i: nat): (r: seq<T>)
    requires i < |s|
    ensures |r| == |s|
  {
    [s[i]] + Without(s, i)
  }

  function Without<T>(s: seq<T>, i: nat): (r: seq<T>)
    requires i < |s|
    ensures |r| == |s| - 1
    ensures forall k :: 0 <= k < |r| ==> r[k] == if k < i then s[k] else s[k + 1]
  {
    s[..i] + s[i + 1..]
  }

  lemma {:induction false} WithoutDistinct<T>(s: seq<T>, i: nat)
    requires Distinct(s) && i < |s|
    ensures Distinct(Without(s, i)) && s[i] !in Without(s, i)
  {}

  lemma {:induction false} WithoutAt(s: seq<Intf>, i: nat, m: int)
    requires i < |s| && -1 <= m < |s| - 1
    ensures m >= 0 ==> Without(s, i)[m] == s[if m < i then m else m + 1]
    ensures At(Without(s, i), m + 1) == At(s, if m + 1 < i then m + 1 else m + 2)
    ensures m >= 0 ==> At(Without(s, i), m - 1) == At(s, if m - 1 < i then m - 1 else m)
  {}

  /** What `intf_loop` reports of an interface. */
  datatype Entry = Entry(name: string, typ: nat, flags: nat, mtu: nat, addrType: nat, addrIp: nat, linkType: nat,
                         linkAddr: seq<byte>)

  /** Ethernet, up, with an MTU that a frame can have, an IP address and a hardware address. */
  predicate Eligible(e: Entry) {
    e.typ == INTF_TYPE_ETH && e.flags % 2 == INTF_FLAG_UP && e.mtu >= ETH_LEN_MIN &&
    e.addrType == ADDR_TYPE_IP && e.linkType == ADDR_TYPE_ETH
  }

  /** `strlcpy` into a buffer of `size` characters */
  function Truncated(name: string, size: nat): (t: string)
    requires size > 0
    ensures |t| < size && t <= name && (t == name || |t| == size - 1)
  {
    if |name| < size then name else name[..size - 1]
  }

  predicate IsFor(n: Intf, e: Entry) {
    n.name == Truncated(e.name, INTF_NAME_LEN) && n.ha == e.linkAddr && n.pa == e.addrIp && n.mtu == e.mtu
  }

  /** The eligible interfaces, the last one first. */
  function Newest(es: seq<Entry>): seq<Entry> {
    if es == [] then []
    else (if Eligible(es[|es| - 1]) then [es[|es| - 1]] else []) + Newest(es[..|es| - 1])
  }

  ghost predicate Lists(nodes: seq<Intf>, es: seq<Entry>) {
    |nodes| == |Newest(es)| && forall k :: 0 <= k < |nodes| ==> IsFor(nodes[k], Newest(es)[k])
  }

  lemma {:induction false} ListsNothing()
    ensures Lists([], [])
  {}

  lemma {:induction false} ListsOneMore(before: seq<Intf>, after: seq<Intf>, es: seq<Entry>, e: Entry)
    requires Lists(before, es)
    requires if Eligible(e) then after != [] && after == [after[0]] + before && IsFor(after[0], e) else after == before
    ensures Lists(after, es + [e])
  {
    hide Eligible, IsFor;
    assert (es + [e])[..|es|] == es;
  }

  /** Every node of the list stands for an interface that was reported: with its addresses and MTU, as
      much of its name as fits 32 characters with a terminator, and an MTU that a frame can have. */
  lemma {:induction false} NodeIsFor(nodes: seq<Intf>, es: seq<Entry>, n: Intf) returns (e: Entry)
    requires Lists(nodes, es) && n in nodes
    ensures e in es && n.pa == e.addrIp && n.ha == e.linkAddr && n.mtu == e.mtu >= 64
    ensures n.name <= e.name && |n.name| <= 31 && (n.name == e.name || |n.name| == 31)
  {
    var k :| 0 <= k < |nodes| && nodes[k] == n;
    NewestAreEligible(es, k);
    e := Newest(es)[k];
    ListedIff(es, e);
  }

  lemma {:induction false} NewestAreEligible(es: seq<Entry>, k: nat)
    requires k < |Newest(es)|
    ensures Eligible(Newest(es)[k])
  {
    hide Eligible;
    var n := if Eligible(es[|es| - 1]) then 1 else 0;
    if k >= n { NewestAreEligible(es[..|es| - 1], k - n); }
  }

  /** Listed are the interfaces that are Ethernet and up, have an MTU of at least 64, an IP address and
      a hardware address. */
  lemma {:induction false} ListedIff(es: seq<Entry>, e: Entry)
    ensures e in Newest(es)
       <==> e in es && e.typ == 6 && e.flags % 2 == 1 && e.mtu >= 64 && e.addrType == 2 && e.linkType == 1
  {
    if es != [] {
      var front, last := es[..|es| - 1], es[|es| - 1];
      ListedIff(front, e);
      assert es == front + [last];
    }
  }

  /** What is reported later is in front. */
  lemma {:induction false} LaterInFront(a: seq<Entry>, b: seq<Entry>)
    ensures Newest(a + b) == Newest(b) + Newest(a)
    decreases |b|
  {
    hide Eligible, Newest;
    NewestNone();
    if b == [] {
      assert a + b == a;
    } else {
      var front, last := b[..|b| - 1], b[|b| - 1];
      LaterInFront(a, front);
      NewestOne(front, last);
      NewestOne(a + front, last);
      assert b == front + [last] && a + b == (a + front) + [last];
    }
  }

  lemma {:induction false} NewestNone()
    ensures Newest([]) == []
  {}

  lemma {:induction false} NewestOne(es: seq<Entry>, e: Entry)
    ensures Newest(es + [e]) == (if Eligible(e) then [e] else []) + Newest(es)
  {
    hide Eligible;
    assert (es + [e])[..|es|] == es;
  }

  /** The first node whose primary address is `src`, or the number of nodes. */
  function Find(s: seq<Intf>, src: nat): (i: nat)
    ensures i <= |s| && (i < |s| ==> s[i].pa == src)
    ensures forall k :: 0 <= k < i ==> s[k].pa != src
  {
    if s == [] || s[0].pa == src then 0 else 1 + Find(s[1..], src)
  }

  /** The order of the list and the nodes whose device is open. */
  datatype State = State(order: seq<Intf>, open: set<Intf>)

  /** A lookup: the source address the kernel picks for the destination, if it picks one, and whether
      the device of the hit could be opened. */
  datatype Request = Request(src: Option<nat>, opens: bool)

  predicate Hits(st: State, q: Request) {
    q.src.Some? && var i := Find(st.order, q.src.value); i < |st.order| && (st.order[i] in st.open || q.opens)
  }

  function Step(st: State, q: Request): State {
    if !Hits(st, q) then st
    else var i := Find(st.order, q.src.value); State(ToFront(st.order, i), st.open + {st.order[i]})
  }

  function Answer(st: State, q: Request): Intf? {
    if !Hits(st, q) then null else st.order[Find(st.order, q.src.value)]
  }

  class List {
    var first: Intf?
    ghost var nodes: seq<Intf>

    ghost predicate Valid()
      reads this, nodes
    {
      Distinct(nodes) && first == At(nodes, 0)
      && (forall i {:trigger nodes[i].next} :: 0 <= i < |nodes| ==> nodes[i].next == At(nodes, i + 1))
      && (forall i {:trigger nodes[i].prev} :: 0 <= i < |nodes| ==> nodes[i].prev == At(nodes, i - 1))
    }

    /** `LIST_INIT` */
    constructor ()
      ensures Valid() && nodes == []
    {
      first, nodes := null, [];
    }

    /** `LIST_INSERT_HEAD` */
    method InsertHead(elm: Intf)
      requires Valid() && elm !in nodes
      modifies `first, `nodes, nodes`prev, elm`next, elm`prev
      ensures Valid() && nodes == [elm] + old(nodes)
    {
      elm.next := first;
      if elm.next != null { first.prev := elm; }
      first := elm;
      elm.prev := null;
      nodes := [elm] + nodes;
    }

    /** `LIST_REMOVE` */
    method Remove(elm: Intf, ghost i: nat)
      requires Valid() && i < |nodes| && nodes[i] == elm
      modifies `first, `nodes, nodes`next, nodes`prev
      ensures Valid() && nodes == Without(old(nodes), i) && elm !in nodes
    {
      hide Distinct, Without, At;
      ghost var s, r := nodes, Without(nodes, i);
      WithoutDistinct(s, i);
      WithoutAt(s, i, -1);
      Unlink(elm, i);
      forall m | 0 <= m < |r|
        ensures r[m].next == At(r, m + 1) && r[m].prev == At(r, m - 1)
      {
        WithoutAt(s, i, m);
      }
      nodes := r;
    }

    method Unlink(elm: Intf, ghost i: nat)
      requires Valid() && i < |nodes| && nodes[i] == elm
      modifies `first, nodes`next, nodes`prev
      ensures first == if i == 0 then At(nodes, 1) else At(nodes, 0)
      ensures forall k {:trigger nodes[k].next} :: 0 <= k < |nodes| && k != i ==>
                nodes[k].next == At(nodes, if k == i - 1 then k + 2 else k + 1)
      ensures forall k {:trigger nodes[k].prev} :: 0 <= k < |nodes| && k != i ==>
                nodes[k].prev == At(nodes, if k == i + 1 then k - 2 else k - 1)
    {
      if elm.next != null { elm.next.prev := elm.prev; }
      if elm.prev == null { first := elm.next; } else { elm.prev.next := elm.next; }
    }

    ghost function Value(): State
      reads this, nodes
    {
      State(nodes, set n | n in nodes && n.eth)
    }

    /** `_add_ip_intf`; the allocation may fail. */
    method AddIpIntf(e: Entry, gotMemory: bool) returns (r: int)
      requires Valid()
      modifies this, nodes
      ensures Valid() && r == if Eligible(e) && !gotMemory then -1 else 0
      ensures !Eligible(e) || !gotMemory ==> Value() == old(Value())
      ensures Eligible(e) && gotMemory ==>
                nodes != [] && fresh(nodes[0]) && IsFor(nodes[0], e)
                && Value() == State([nodes[0]] + old(nodes), old(Value().open))
    {
      if e.typ == INTF_TYPE_ETH && e.flags % 2 == INTF_FLAG_UP && e.mtu >= ETH_LEN_MIN &&
         e.addrType == ADDR_TYPE_IP && e.linkType == ADDR_TYPE_ETH {
        if !gotMemory { return -1; }
        var ipi := new Intf(Truncated(e.name, INTF_NAME_LEN), e.linkAddr, e.addrIp, e.mtu);
        InsertHead(ipi);
      }
      r := 0;
    }

    /** The loop over all interfaces in `ip_open`; it stops when memory runs out. */
    method AddAll(es: seq<Entry>, memory: nat -> bool) returns (r: int)
      requires Valid() && nodes == []
      modifies this
      ensures Valid() && fresh(nodes) && Value().open == {}
      ensures r == 0 ==> Lists(nodes, es)
      ensures r == 0 <==> forall k :: 0 <= k < |es| && Eligible(es[k]) ==> memory(k)
    {
      hide Distinct, Eligible, Lists, IsFor;
      r := 0;
      assert es[..0] == [];
      ListsNothing();
      for k := 0 to |es|
        invariant Valid() && fresh(nodes) && Value().open == {} && Lists(nodes, es[..k])
        invariant forall j :: 0 <= j < k && Eligible(es[j]) ==> memory(j)
      {
        ghost var before := nodes;
        r := AddIpIntf(es[k], memory(k));
        if r != 0 { return; }
        ListsOneMore(before, nodes, es[..k], es[k]);
        assert es[..k] + [es[k]] == es[..k + 1];
      }
      assert es[..|es|] == es;
    }

    /** The search of `_lookup_ip_intf` (`LIST_FOREACH`) */
    method Search(src: nat) returns (ipi: Intf?, ghost i: nat)
      requires Valid()
      ensures ipi == Hit(nodes, src) && i == Find(nodes, src)
    {
      ipi, i := first, 0;
      while ipi != null
        invariant i <= |nodes| && ipi == At(nodes, i)
        invariant forall k :: 0 <= k < i ==> nodes[k].pa != src
        decreases |nodes| - i
      {
        if ipi.pa == src { break; }
        ipi, i := ipi.next, i + 1;
      }
      FindIs(nodes, src, i);
    }

    /** `_lookup_ip_intf` */
    method Lookup(q: Request) returns (r: Intf?)
      requires Valid()
      modifies this, nodes
      ensures Valid() && r == Answer(old(Value()), q) && Value() == Step(old(Value()), q)
    {
      hide Distinct, ToFront, Find;
      if q.src.None? { return null; }
      var ipi, i := Search(q.src.value);
      if ipi == null { return null; }
      if !ipi.eth && !q.opens { return null; }
      Use(ipi, i);
      r := ipi;
    }

    /** Opens the device of a hit unless it is open, and moves the hit to the front. */
    method Use(ipi: Intf, ghost i: nat)
      requires Valid() && i < |nodes| && nodes[i] == ipi
      modifies this, nodes
      ensures Valid() && Value() == State(ToFront(old(nodes), i), old(Value().open) + {ipi})
    {
      hide Distinct, ToFront;
      ghost var s, open := nodes, Value().open;
      if !ipi.eth { ipi.eth := true; }
      assert Valid();
      assert Value().open == open + {ipi};
      MoveToFront(ipi, i);
      ToFrontMembers(s, i);
      assert Value().open == open + {ipi};
    }

    method MoveToFront(ipi: Intf, ghost i: nat)
      requires Valid() && i < |nodes| && nodes[i] == ipi
      modifies `first, `nodes, nodes`next, nodes`prev
      ensures Valid() && nodes == ToFront(old(nodes), i)
    {
      if ipi != first {
        Remove(ipi, i);
        InsertHead(ipi);
      } else {
        assert nodes == ToFront(nodes, 0);
      }
    }
  }

  lemma {:induction false} ToFrontMembers(s: seq<Intf>, i: nat)
    requires i < |s|
    ensures forall x :: x in ToFront(s, i) <==> x in s
  {
    var r := ToFront(s, i);
    forall x | x in s
      ensures x in r
    {
      var k :| 0 <= k < |s| && s[k] == x;
      assert x == r[if k < i then k + 1 else if k == i then 0 else k];
    }
  }

  lemma {:induction false} FindIs(s: seq<Intf>, src: nat, i: nat)
    requires i <= |s| && (forall k :: 0 <= k < i ==> s[k].pa != src) && (i < |s| ==> s[i].pa == src)
    ensures i == Find(s, src)
  {}

  function At(s: seq<Intf>, i: int): Intf? {
    if 0 <= i < |s| then s[i] else null
  }

  // ---- runs of lookups ----

  function Run(st: State, qs: seq<Request>): State {
    if qs == [] then st else Step(Run(st, qs[..|qs| - 1]), qs[|qs| - 1])
  }

  /** What a search of the list for `src` comes to. */
  function Hit(s: seq<Intf>, src: nat): Intf? {
    At(s, Find(s, src))
  }

  lemma {:induction false} ToFrontKeepsSearch(s: seq<Intf>, p: nat, src: nat)
    requires Find(s, p) < |s|
    ensures Hit(ToFront(s, Find(s, p)), src) == Hit(s, src)
  {
    var i, j := Find(s, p), Find(s, src);
    var r := ToFront(s, i);
    assert forall k :: 0 <= k < |r| ==> r[k] == if k == 0 then s[i] else if k <= i then s[k - 1] else s[k];
    FindIs(r, src, if s[i].pa == src then 0 else if j < i then j + 1 else j);
    if s[i].pa == src { FindIs(s, src, i); }
  }

  /** Whatever was looked up before, a search finds the node it would have found in the list as it
      was at first, even if several nodes have the same address. */
  lemma {:induction false} SearchIsStable(st: State, qs: seq<Request>, src: nat)
    ensures Hit(Run(st, qs).order, src) == Hit(st.order, src)
  {
    hide Find, ToFront, At;
    if qs != [] {
      var prev, q := Run(st, qs[..|qs| - 1]), qs[|qs| - 1];
      SearchIsStable(st, qs[..|qs| - 1], src);
      if Hits(prev, q) { ToFrontKeepsSearch(prev.order, q.src.value, src); }
    }
  }

  /** So a lookup answers as a search of the first list does, if the device is or can be opened. */
  lemma {:induction false} AnswerIsSearch(st: State, qs: seq<Request>, q: Request)
    ensures var x := if q.src.Some? then Hit(st.order, q.src.value) else null;
            Answer(Run(st, qs), q) == if x != null && (x in Run(st, qs).open || q.opens) then x else null
  {
    hide Find, Run;
    if q.src.Some? { SearchIsStable(st, qs, q.src.value); }
  }

  /** Every run keeps the nodes, each once, and closes no device. */
  lemma {:induction false} RunKeepsNodes(st: State, qs: seq<Request>)
    requires Distinct(st.order)
    ensures Distinct(Run(st, qs).order) && |Run(st, qs).order| == |st.order|
    ensures forall x :: x in Run(st, qs).order <==> x in st.order
    ensures st.open <= Run(st, qs).open
  {
    hide Find, ToFront, Distinct;
    if qs != [] {
      var prev, q := Run(st, qs[..|qs| - 1]), qs[|qs| - 1];
      RunKeepsNodes(st, qs[..|qs| - 1]);
      if Hits(prev, q) {
        ToFrontMembers(prev.order, Find(prev.order, q.src.value));
        ToFrontDistinct(prev.order, Find(prev.order, q.src.value));
      }
    }
  }

  lemma {:induction false} ToFrontDistinct(s: seq<Intf>, i: nat)
    requires Distinct(s) && i < |s|
    ensures Distinct(ToFront(s, i))
  {
    hide Without;
    WithoutDistinct(s, i);
  }

  // ---- the order after a run ----

  /** `s` without `x`, in the same order. */
  function Minus(s: seq<Intf>, x: Intf): seq<Intf> {
    if s == [] then []
    else if s[|s| - 1] == x then Minus(s[..|s| - 1], x)
    else Minus(s[..|s| - 1], x) + [s[|s| - 1]]
  }

  /** The nodes that lookups returned, oldest first. */
  function Hitlist(st: State, qs: seq<Request>): seq<Intf> {
    if qs == [] then []
    else
      var prev, q := Run(st, qs[..|qs| - 1]), qs[|qs| - 1];
      Hitlist(st, qs[..|qs| - 1]) + if Hits(prev, q) then [prev.order[Find(prev.order, q.src.value)]] else []
  }

  /** Each of `hits` once, the one that comes last in front. */
  function Recent(hits: seq<Intf>): seq<Intf> {
    if hits == [] then [] else [hits[|hits| - 1]] + Minus(Recent(hits[..|hits| - 1]), hits[|hits| - 1])
  }

  /** `s` without any of `hits`, in the same order. */
  function Others(s: seq<Intf>, hits: seq<Intf>): seq<Intf> {
    if hits == [] then s else Minus(Others(s, hits[..|hits| - 1]), hits[|hits| - 1])
  }

  lemma {:induction false} MinusOfParts(a: seq<Intf>, b: seq<Intf>, x: Intf)
    ensures Minus(a + b, x) == Minus(a, x) + Minus(b, x)
  {
    if b == [] {
      assert a + b == a;
    } else {
      MinusOfParts(a, b[..|b| - 1], x);
      assert (a + b)[..|a + b| - 1] == a + b[..|b| - 1];
    }
  }

  lemma {:induction false} MinusAbsent(s: seq<Intf>, x: Intf)
    requires x !in s
    ensures Minus(s, x) == s
  {
    if s != [] {
      MinusAbsent(s[..|s| - 1], x);
      assert s == s[..|s| - 1] + [s[|s| - 1]];
    }
  }

  lemma {:induction false} WithoutIsMinus(s: seq<Intf>, i: nat)
    requires Distinct(s) && i < |s|
    ensures Without(s, i) == Minus(s, s[i])
  {
    hide Minus;
    var a, x: seq<Intf>, b := s[..i], [s[i]], s[i + 1..];
    assert s == (a + x) + b;
    MinusOfParts(a + x, b, s[i]);
    MinusOfParts(a, x, s[i]);
    MinusAbsent(a, s[i]);
    MinusAbsent(b, s[i]);
    MinusOfOne(s[i]);
  }

  lemma {:induction false} MinusOfOne(x: Intf)
    ensures Minus([x], x) == []
  {
    assert [x][..0] == [];
  }

  /** After a run the list holds the nodes that were hit, the most recent first, and then the others
      in the order they had. */
  lemma {:induction false} OrderAfterRun(st: State, qs: seq<Request>)
    requires Distinct(st.order)
    ensures Run(st, qs).order == Recent(Hitlist(st, qs)) + Others(st.order, Hitlist(st, qs))
  {
    hide Find, Distinct, Minus, Without;
    if qs != [] {
      var init := qs[..|qs| - 1];
      var prev, q, hits := Run(st, init), qs[|qs| - 1], Hitlist(st, init);
      OrderAfterRun(st, init);
      RunKeepsNodes(st, init);
      if Hits(prev, q) {
        var i := Find(prev.order, q.src.value);
        var x := prev.order[i];
        WithoutIsMinus(prev.order, i);
        MinusOfParts(Recent(hits), Others(st.order, hits), x);
        assert (hits + [x])[..|hits|] == hits;
      } else {
        assert hits + [] == hits;
      }
    }
  }
}
