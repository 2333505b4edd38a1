/** The RC4-style generator of src/rand.c: its 256-byte state, the seeding and the
    generating steps, and the block shuffle built on them. */
module Rand {
  import opened ByteOrder
  import opened Memory

  /** The value of a handle: the two indices and the table. */
  datatype State = State(i: byte, j: byte, s: seq<byte>) {
    predicate Valid() { |s| == 256 }

    /** The table holds every byte value exactly once. */
    ghost predicate Permutation() {
      && Valid()
      && (forall a, b :: 0 <= a < b < 256 ==> s[a] != s[b])
    }
  }

  function Swapped<T>(s: seq<T>, a: nat, b: nat): (r: seq<T>)
    requires a < |s| && b < |s|
    ensures |r| == |s|
  {
    s[a := s[b]][b := s[a]]
  }

  function Identity(n: nat): (r: seq<byte>)
    requires n <= 256
    ensures |r| == n && forall k :: 0 <= k < n ==> r[k] == k
  {
    if n == 0 then [] else Identity(n - 1) + [n - 1]
  }

  const INITIAL := State(0, 0, Identity(256))

  /** One seeding round with seed byte `b`. */
  function AddRound(st: State, b: byte): (r: State)
    requires st.Valid()
    ensures r.Valid()
  {
    var i := (st.i + 1) % 256;
    var j := (st.j + st.s[i] + b) % 256;
    State(i, j, Swapped(st.s, i, j))
  }

  function SeedByte(buf: seq<byte>, n: nat): byte
    requires |buf| > 0
  {
    buf[n % |buf|]
  }

  /** `k` seeding rounds, cycling through the seed. */
  function AddRounds(st: State, buf: seq<byte>, k: nat): (r: State)
    requires st.Valid() && |buf| > 0
    ensures r.Valid()
  {
    if k == 0 then st else AddRound(AddRounds(st, buf, k - 1), SeedByte(buf, k - 1))
  }

  function Added(st: State, buf: seq<byte>): (r: State)
    requires st.Valid() && |buf| > 0
    ensures r.Valid()
  {
    var t := AddRounds(st.(i := (st.i - 1) % 256), buf, 256);
    t.(j := t.i)
  }

  function Seeded(buf: seq<byte>): (r: State)
    requires |buf| > 0
    ensures r.Valid()
  {
    Added(Added(INITIAL, buf), buf)
  }

  /** The state change of one generated byte. */
  function Step(st: State): (r: State)
    requires st.Valid()
    ensures r.Valid()
  {
    var i := (st.i + 1) % 256;
    var j := (st.j + st.s[i]) % 256;
    State(i, j, Swapped(st.s, i, j))
  }

  /** The byte read out of a state that `Step` has just produced. */
  function Output(st: State): byte
    requires st.Valid()
  {
    var t: int := st.s[st.j];
    st.s[(t + st.s[st.i]) % 256]
  }

  function Steps(st: State, n: nat): (r: State)
    requires st.Valid()
    ensures r.Valid()
  {
    if n == 0 then st else Step(Steps(st, n - 1))
  }

  /** The first `n` bytes generated from `st`. */
  function Stream(st: State, n: nat): (r: seq<byte>)
    requires st.Valid()
    ensures |r| == n
  {
    if n == 0 then [] else Stream(st, n - 1) + [Output(Steps(st, n))]
  }

  function Word(b: seq<byte>): (r: nat)
    requires |b| == 4
    ensures r < 0x1_0000_0000
  {
    b[0] as nat * 0x100_0000 + b[1] as nat * 0x1_0000 + b[2] as nat * 0x100 + b[3]
  }

  /** The first byte is the most significant one. */
  lemma {:induction false} WordBytes(b: seq<byte>)
    requires |b| == 4
    ensures var v := Word(b);
            v / 0x100_0000 == b[0] && v / 0x1_0000 % 0x100 == b[1] && v / 0x100 % 0x100 == b[2] && v % 0x100 == b[3]
  {
    FourDigits(Word(b), b[3], b[2], b[1], b[0]);
  }

  // ---- the table stays a permutation ----

  lemma {:induction false} SwapKeepsDistinct<T>(s: seq<T>, a: nat, b: nat)
    requires a < |s| && b < |s|
    requires forall x, y :: 0 <= x < y < |s| ==> s[x] != s[y]
    ensures forall x, y :: 0 <= x < y < |s| ==> Swapped(s, a, b)[x] != Swapped(s, a, b)[y]
  {
    var r := Swapped(s, a, b);
    var f := (k: int) => if k == a then b else if k == b then a else k;
    assert forall k :: 0 <= k < |s| ==> 0 <= f(k) < |s| && r[k] == s[f(k)];
  }

  lemma {:induction false} AddRoundsKeepPermutation(st: State, buf: seq<byte>, k: nat)
    requires st.Permutation() && |buf| > 0
    ensures AddRounds(st, buf, k).Permutation()
  {
    if k > 0 {
      AddRoundsKeepPermutation(st, buf, k - 1);
      var t := AddRounds(st, buf, k - 1);
      var r := AddRounds(st, buf, k);
      SwapKeepsDistinct(t.s, r.i, r.j);
    }
  }

  /** What a caller can do to a handle. */
  datatype Op = Generate | AddSeed(buf: seq<byte>) | SetSeed(buf: seq<byte>) {
    predicate Ok() { this != Generate ==> |buf| > 0 }
  }

  function Apply(st: State, op: Op): (r: State)
    requires st.Valid() && op.Ok()
    ensures r.Valid()
  {
    match op
    case Generate => Step(st)
    case AddSeed(buf) => Added(st, buf)
    case SetSeed(buf) => Seeded(buf)
  }

  function Run(st: State, ops: seq<Op>): (r: State)
    requires st.Valid() && forall op :: op in ops ==> op.Ok()
    ensures r.Valid()
  {
    if ops == [] then st else Apply(Run(st, ops[..|ops| - 1]), ops[|ops| - 1])
  }

  lemma {:induction false} InitialPermutation()
    ensures INITIAL.Permutation()
  {}

  lemma {:induction false} AddedKeepsPermutation(st: State, buf: seq<byte>)
    requires st.Permutation() && |buf| > 0
    ensures Added(st, buf).Permutation()
  {
    AddRoundsKeepPermutation(st.(i := (st.i - 1) % 256), buf, 256);
  }

  lemma {:induction false} ApplyKeepsPermutation(st: State, op: Op)
    requires st.Permutation() && op.Ok()
    ensures Apply(st, op).Permutation()
  {
    match op
    case Generate =>
      SwapKeepsDistinct(st.s, Step(st).i, Step(st).j);
    case AddSeed(buf) =>
      AddedKeepsPermutation(st, buf);
    case SetSeed(buf) =>
      AddedKeepsPermutation(INITIAL, buf);
      AddedKeepsPermutation(Added(INITIAL, buf), buf);
  }

  /** Every run of seeding and generation from an opened handle keeps the table a permutation. */
  lemma {:induction false} RunKeepsPermutation(st: State, ops: seq<Op>)
    requires st.Permutation() && forall op :: op in ops ==> op.Ok()
    ensures Run(st, ops).Permutation()
  {
    if ops != [] {
      RunKeepsPermutation(st, ops[..|ops| - 1]);
      ApplyKeepsPermutation(Run(st, ops[..|ops| - 1]), ops[|ops| - 1]);
    }
  }

  // ---- generation can be run backwards ----

  function Unstep(st: State): (r: State)
    requires st.Valid()
    ensures r.Valid()
  {
    State((st.i - 1) % 256, (st.j - st.s[st.j]) % 256, Swapped(st.s, st.i, st.j))
  }

  lemma {:induction false} SwapInvolutive<T>(s: seq<T>, a: nat, b: nat)
    requires a < |s| && b < |s|
    ensures Swapped(Swapped(s, a, b), a, b) == s
  {}

  lemma {:induction false} SwapFacts<T>(s: seq<T>, a: nat, b: nat)
    requires a < |s| && b < |s|
    ensures forall j {:trigger Swapped(s, a, b)[j]} :: 0 <= j < |s| ==>
              Swapped(s, a, b)[j] == if j == a then s[b] else if j == b then s[a] else s[j]
    ensures Swapped(Swapped(s, a, b), a, b) == s
  {
    SwapInvolutive(s, a, b);
  }

  lemma {:induction false} WrapBackDown(x: byte, d: byte)
    ensures ((x + d) % 256 - d) % 256 == x
  {
    if x + d < 256 { assert (x + d) % 256 == x + d; } else { assert (x + d) % 256 == x + d - 256; }
  }

  lemma {:induction false} WrapBackUp(x: byte, d: byte)
    ensures ((x - d) % 256 + d) % 256 == x
  {
    if x >= d { assert (x - d) % 256 == x - d; } else { assert (x - d) % 256 == x - d + 256; }
  }

  lemma {:induction false} UnstepAfterStep(st: State)
    requires st.Valid()
    ensures Unstep(Step(st)) == st
  {
    hide Swapped;
    var t := Step(st);
    SwapFacts(st.s, t.i, t.j);
    WrapBackDown(st.i, 1);
    WrapBackDown(st.j, st.s[t.i]);
  }

  lemma {:induction false} StepAfterUnstep(st: State)
    requires st.Valid()
    ensures Step(Unstep(st)) == st
  {
    hide Swapped;
    SwapFacts(st.s, st.i, st.j);
    WrapBackUp(st.i, 1);
    WrapBackUp(st.j, st.s[st.j]);
  }

  /** `Unstep` is a two-sided inverse, so a generated byte loses no information
      about the state: the state change is a bijection. */
  lemma {:induction false} StepIsReversible(st: State)
    requires st.Valid()
    ensures Unstep(Step(st)) == st
    ensures Step(Unstep(st)) == st
  {
    hide Step, Unstep;
    UnstepAfterStep(st);
    StepAfterUnstep(st);
  }

  lemma {:induction false} StepsInjective(a: State, b: State, n: nat)
    requires a.Valid() && b.Valid() && Steps(a, n) == Steps(b, n)
    ensures a == b
  {
    hide Step, Unstep;
    if n > 0 {
      StepIsReversible(Steps(a, n - 1));
      StepIsReversible(Steps(b, n - 1));
      StepsInjective(a, b, n - 1);
    }
  }

  lemma {:induction false} StepsAdd(st: State, m: nat, n: nat)
    requires st.Valid()
    ensures Steps(Steps(st, m), n) == Steps(st, m + n)
  {
    hide Step;
    if n > 0 { StepsAdd(st, m, n - 1); }
  }

  /** The generated byte in terms of the table as it was: the entry whose index is the sum of the two
      entries exchanged, unless that is one of the two places itself. */
  lemma {:induction false} OutputOfOldTable(st: State)
    requires st.Valid()
    ensures var i := (st.i + 1) % 256;
            var a := st.s[i];
            var j := (st.j + a) % 256;
            var t := (a as int + st.s[j]) % 256;
            && Step(st).i == i && Step(st).j == j
            && Output(Step(st)) == if t == j then a else if t == i then st.s[j] else st.s[t]
  {}

  /** The first bytes of the table that is not seeded. */
  lemma {:induction false} UnseededBytes()
    ensures Stream(INITIAL, 3) == [2, 5, 7]
  {
    hide Step, Output;
    var s := Identity(256);
    var a, b, c := State(1, 1, s), State(2, 3, s[2 := 3][3 := 2]), State(3, 5, s[2 := 3][3 := 5][5 := 2]);
    UnseededSteps(s);
    assert Steps(INITIAL, 0) == INITIAL && Steps(INITIAL, 1) == a && Steps(INITIAL, 2) == b && Steps(INITIAL, 3) == c;
    assert Stream(INITIAL, 0) == [] && Stream(INITIAL, 1) == [2] && Stream(INITIAL, 2) == [2, 5];
  }

  lemma {:induction false} UnseededSteps(s: seq<byte>)
    requires s == Identity(256)
    ensures var a, b, c := State(1, 1, s), State(2, 3, s[2 := 3][3 := 2]), State(3, 5, s[2 := 3][3 := 5][5 := 2]);
            && Step(INITIAL) == a && Step(a) == b && Step(b) == c
            && Output(a) == 2 && Output(b) == 5 && Output(c) == 7
  {
    hide Identity;
    assert Swapped(s, 1, 1) == s;
  }

  // ---- what a seed determines ----

  function UnaddRound(st: State, b: byte): (r: State)
    requires st.Valid()
    ensures r.Valid()
  {
    State((st.i - 1) % 256, (st.j - b - st.s[st.j]) % 256, Swapped(st.s, st.i, st.j))
  }

  /** A seeding round is taken back with its seed byte, and every seed byte does something else. */
  lemma {:induction false} AddRoundIsReversible(st: State, b: byte, c: byte)
    requires st.Valid()
    ensures UnaddRound(AddRound(st, b), b) == st
    ensures AddRound(st, b) == AddRound(st, c) <==> b == c
  {
    hide Swapped;
    var t := AddRound(st, b);
    SwapFacts(st.s, t.i, t.j);
    WrapBackDown(st.i, 1);
    WrapBackTwice(st.j, st.s[t.i], b);
    WrapApart(st.j as int + st.s[t.i], b, c);
  }

  lemma {:induction false} WrapBackTwice(x: byte, d: byte, b: byte)
    ensures ((x + d + b) % 256 - b - d) % 256 == x
  {
    var q := (x as int + d + b) / 256;
    assert (x as int + d + b) % 256 - b - d == x - 256 * q && 0 <= q <= 2;
  }

  lemma {:induction false} WrapApart(x: int, b: byte, c: byte)
    ensures (x + b) % 256 == (x + c) % 256 <==> b == c
  {
    var p, q := (x + b) / 256, (x + c) / 256;
    assert x + b == 256 * p + (x + b) % 256 && x + c == 256 * q + (x + c) % 256;
  }

  function UnaddRounds(st: State, buf: seq<byte>, k: nat): (r: State)
    requires st.Valid() && |buf| > 0
    ensures r.Valid()
    decreases k
  {
    if k == 0 then st else UnaddRounds(UnaddRound(st, SeedByte(buf, k - 1)), buf, k - 1)
  }

  lemma {:induction false} AddRoundsTakenBack(st: State, buf: seq<byte>, k: nat)
    requires st.Valid() && |buf| > 0
    ensures UnaddRounds(AddRounds(st, buf, k), buf, k) == st
  {
    hide UnaddRound, AddRound, SeedByte;
    if k > 0 {
      var b := SeedByte(buf, k - 1);
      AddRoundsTakenBack(st, buf, k - 1);
      AddRoundIsReversible(AddRounds(st, buf, k - 1), b, b);
    }
  }

  lemma {:induction false} AddRoundsIndex(st: State, buf: seq<byte>, k: nat)
    requires st.Valid() && |buf| > 0
    ensures AddRounds(st, buf, k).i == (st.i + k) % 256
  {
    hide AddRound, SeedByte;
    if k > 0 {
      AddRoundsIndex(st, buf, k - 1);
      NextIndex(AddRounds(st, buf, k - 1), SeedByte(buf, k - 1));
      WrapsOn(st.i, k - 1);
    }
  }

  lemma {:induction false} NextIndex(st: State, b: byte)
    requires st.Valid()
    ensures AddRound(st, b).i == (st.i + 1) % 256
  {}

  lemma {:induction false} WrapsOn(i: byte, k: nat)
    ensures ((i + k) % 256 + 1) % 256 == (i + k + 1) % 256
  {}

  /** Seeding loses nothing but the second index, which ends up equal to the first: from that index
      on, the 256 rounds can be taken back with the seed. */
  lemma {:induction false} SeedingTakenBack(st: State, buf: seq<byte>) returns (j: byte)
    requires st.Valid() && |buf| > 0
    ensures Added(st, buf).i == Added(st, buf).j == (st.i + 255) % 256
    ensures UnaddRounds(Added(st, buf).(j := j), buf, 256) == st.(i := (st.i + 255) % 256)
  {
    hide AddRounds, UnaddRounds;
    var back := st.(i := (st.i - 1) % 256);
    AddRoundsTakenBack(back, buf, 256);
    AddRoundsIndex(back, buf, 256);
    j := AddRounds(back, buf, 256).j;
  }

  /** `rand_set` seeds the fresh table twice, and that is taken back in two steps. */
  lemma {:induction false} SettingTakenBack(buf: seq<byte>) returns (j: byte, k: byte)
    requires |buf| > 0
    ensures Seeded(buf).i == Seeded(buf).j == 254
    ensures var t := UnaddRounds(Seeded(buf).(j := j), buf, 256);
            UnaddRounds(t.(i := 255, j := k), buf, 256) == INITIAL.(i := 255)
  {
    hide AddRounds, UnaddRounds, Added;
    k := SeedingTakenBack(INITIAL, buf);
    j := SeedingTakenBack(Added(INITIAL, buf), buf);
  }

  lemma {:induction false} AddRoundsSeedsAgree(st: State, a: seq<byte>, b: seq<byte>, k: nat)
    requires st.Valid() && |a| > 0 && |b| > 0
    requires forall i :: 0 <= i < k ==> a[i % |a|] == b[i % |b|]
    ensures AddRounds(st, a, k) == AddRounds(st, b, k)
  {
    if k > 0 {
      AddRoundsSeedsAgree(st, a, b, k - 1);
      assert a[(k - 1) % |a|] == b[(k - 1) % |b|];
    }
  }

  lemma {:induction false} AddedSeedsAgree(st: State, a: seq<byte>, b: seq<byte>)
    requires st.Valid() && |a| > 0 && |b| > 0
    requires forall i :: 0 <= i < 256 ==> a[i % |a|] == b[i % |b|]
    ensures Added(st, a) == Added(st, b)
  {
    AddRoundsSeedsAgree(st.(i := (st.i - 1) % 256), a, b, 256);
  }

  /** Two seeds whose cyclic extensions agree on 256 bytes leave the same state, whatever
      the handle held before. */
  lemma {:induction false} SeedDeterminesState(a: seq<byte>, b: seq<byte>)
    requires |a| > 0 && |b| > 0
    requires forall i :: 0 <= i < 256 ==> a[i % |a|] == b[i % |b|]
    ensures Seeded(a) == Seeded(b)
  {
    AddedSeedsAgree(INITIAL, a, b);
    AddedSeedsAgree(Added(INITIAL, a), a, b);
  }

  /** Seed bytes past the 256th never matter. */
  lemma {:induction false} SeedIgnoresBytesPast256(a: seq<byte>)
    requires |a| > 256
    ensures Seeded(a) == Seeded(a[..256])
  {
    forall i | 0 <= i < 256
      ensures a[i % |a|] == a[..256][i % 256]
    {
      assert i % |a| == i && i % 256 == i;
    }
    SeedDeterminesState(a, a[..256]);
  }

  // ---- shuffling ----

  /** The partner that round `i` of a shuffle of `n` blocks draws. */
  function Partner(st: State, n: nat): (j: nat)
    requires st.Valid() && n >= 2
    ensures j + 1 < n
  {
    Reduce(Word(Stream(st, 4)), n)
  }

  function Reduce(u: nat, n: nat): (r: nat)
    requires n >= 2
    ensures r < n - 1 && exists q: nat {:trigger q * (n - 1)} :: u == q * (n - 1) + r
  {
    assert u == u / (n - 1) * (n - 1) + u % (n - 1);
    u % (n - 1)
  }

  /** Rounds `i..n` of the shuffle: the blocks and the generator state they leave. */
  function ShuffleFrom<T>(st: State, xs: seq<T>, i: nat): (r: (seq<T>, State))
    requires st.Valid() && |xs| >= 2 && i <= |xs|
    ensures |r.0| == |xs| && r.1.Valid()
    decreases |xs| - i
  {
    if i == |xs| then (xs, st)
    else ShuffleFrom(Steps(st, 4), Swapped(xs, i, Partner(st, |xs|)), i + 1)
  }

  lemma {:induction false} ShuffleEnd<T>(st: State, xs: seq<T>)
    requires st.Valid() && |xs| >= 2
    ensures ShuffleFrom(st, xs, |xs|) == (xs, st)
  {}

  lemma {:induction false} ShuffleRound<T>(st: State, xs: seq<T>, i: nat)
    requires st.Valid() && |xs| >= 2 && i < |xs|
    ensures ShuffleFrom(st, xs, i)
         == ShuffleFrom(Steps(st, 4), Swapped(xs, i, Reduce(Word(Stream(st, 4)), |xs|)), i + 1)
    ensures Swapped(xs, i, i) == xs
  {}

  lemma {:induction false} SwapKeepsMultiset<T>(s: seq<T>, a: nat, b: nat)
    requires a < |s| && b < |s|
    ensures multiset(Swapped(s, a, b)) == multiset(s)
  {}

  lemma {:induction false} ShuffleKeepsMultiset<T>(st: State, xs: seq<T>, i: nat)
    requires st.Valid() && |xs| >= 2 && i <= |xs|
    ensures multiset(ShuffleFrom(st, xs, i).0) == multiset(xs)
    decreases |xs| - i
  {
    if i < |xs| {
      var j := Partner(st, |xs|);
      SwapKeepsMultiset(xs, i, j);
      ShuffleKeepsMultiset(Steps(st, 4), Swapped(xs, i, j), i + 1);
    }
  }

  /** Every block takes one draw of four bytes. */
  lemma {:induction false} ShuffleDraws<T>(st: State, xs: seq<T>, i: nat)
    requires st.Valid() && |xs| >= 2 && i <= |xs|
    ensures ShuffleFrom(st, xs, i).1 == Steps(st, 4 * (|xs| - i))
    decreases |xs| - i
  {
    hide Partner, Steps, Swapped;
    if i < |xs| {
      ShuffleDraws(Steps(st, 4), Swapped(xs, i, Partner(st, |xs|)), i + 1);
      StepsAdd(st, 4, 4 * (|xs| - i - 1));
    } else {
      StepsOfNone(st);
    }
  }

  lemma {:induction false} StepsOfNone(st: State)
    requires st.Valid()
    ensures Steps(st, 0) == st
  {}

  // ---- the orders a shuffle can leave ----

  /** One draw for every round from `i` on, each below `n - 1`. */
  predicate DrawsFrom(ds: seq<nat>, n: nat, i: nat) {
    i <= n && |ds| == n - i && forall k :: 0 <= k < |ds| ==> ds[k] + 1 < n
  }

  /** Rounds `i..n` of the shuffle when the draws are `ds`. */
  function ShuffleBy<T>(xs: seq<T>, i: nat, ds: seq<nat>): (r: seq<T>)
    requires DrawsFrom(ds, |xs|, i)
    ensures |r| == |xs|
    decreases |ds|
  {
    if ds == [] then xs else ShuffleBy(Swapped(xs, i, ds[0]), i + 1, ds[1..])
  }

  /** The next `k` partners that the generator yields. */
  function Partners(st: State, n: nat, k: nat): (ds: seq<nat>)
    requires st.Valid() && n >= 2
    ensures |ds| == k && forall m :: 0 <= m < k ==> ds[m] + 1 < n
    decreases k
  {
    if k == 0 then [] else [Partner(st, n)] + Partners(Steps(st, 4), n, k - 1)
  }

  /** The shuffle is the one by the partners it draws. */
  lemma {:induction false} ShuffleIsByPartners<T>(st: State, xs: seq<T>, i: nat)
    requires st.Valid() && |xs| >= 2 && i <= |xs|
    ensures ShuffleFrom(st, xs, i).0 == ShuffleBy(xs, i, Partners(st, |xs|, |xs| - i))
    decreases |xs| - i
  {
    hide Partner, Steps;
    if i < |xs| {
      var ds := Partners(st, |xs|, |xs| - i);
      assert ds[1..] == Partners(Steps(st, 4), |xs|, |xs| - i - 1);
      ShuffleIsByPartners(Steps(st, 4), Swapped(xs, i, Partner(st, |xs|)), i + 1);
    }
  }

  lemma {:induction false} ShuffleByKeepsMultiset<T>(xs: seq<T>, i: nat, ds: seq<nat>)
    requires DrawsFrom(ds, |xs|, i)
    ensures multiset(ShuffleBy(xs, i, ds)) == multiset(xs)
    decreases |ds|
  {
    hide Swapped;
    if ds != [] {
      SwapKeepsMultiset(xs, i, ds[0]);
      ShuffleByKeepsMultiset(Swapped(xs, i, ds[0]), i + 1, ds[1..]);
    }
  }

  /** The exchanges taken back, the last one first. */
  function Unshuffled<T>(ts: seq<T>, i: nat, ds: seq<nat>): (r: seq<T>)
    requires DrawsFrom(ds, |ts|, i)
    ensures |r| == |ts|
    decreases |ds|
  {
    if ds == [] then ts else Swapped(Unshuffled(ts, i + 1, ds[1..]), i, ds[0])
  }

  /** Who knows the draws can put the blocks back. */
  lemma {:induction false} ShuffleTakenBack<T>(xs: seq<T>, i: nat, ds: seq<nat>)
    requires DrawsFrom(ds, |xs|, i)
    ensures Unshuffled(ShuffleBy(xs, i, ds), i, ds) == xs
    decreases |ds|
  {
    hide Swapped;
    if ds != [] {
      ShuffleTakenBack(Swapped(xs, i, ds[0]), i + 1, ds[1..]);
      SwapInvolutive(xs, i, ds[0]);
    }
  }

  /** Only the last round touches the last slot, and it puts the block from there where it draws. */
  lemma {:induction false} LastGoesWhereDrawn<T>(xs: seq<T>, i: nat, ds: seq<nat>)
    requires DrawsFrom(ds, |xs|, i) && i < |xs|
    ensures ShuffleBy(xs, i, ds)[ds[|ds| - 1]] == xs[|xs| - 1]
    decreases |ds|
  {
    var ys := Swapped(xs, i, ds[0]);
    if i < |xs| - 1 {
      LastGoesWhereDrawn(ys, i + 1, ds[1..]);
    } else {
      assert ShuffleBy(ys, i + 1, ds[1..]) == ys;
    }
  }

  /** Draws for the rounds from `i` on that turn `xs` into `ts`, which has the last block of `xs`
      at `k`: each round fetches its block from the slots not yet settled, and the last one
      exchanges the last slot with slot `k`. */
  lemma {:induction false} FindDraws<T>(xs: seq<T>, ts: seq<T>, i: nat, k: nat) returns (ds: seq<nat>)
    requires |xs| == |ts| && i < |xs| && k + 1 < |xs| && multiset(xs) == multiset(ts)
    requires Swapped(ts, |xs| - 1, k)[..i] == xs[..i] && ts[k] == xs[|xs| - 1]
    ensures DrawsFrom(ds, |xs|, i) && ShuffleBy(xs, i, ds) == ts
    decreases |xs| - i
  {
    hide Swapped;
    var n := |xs|;
    var goal := Swapped(ts, n - 1, k);
    SwapFacts(ts, n - 1, k);
    if i == n - 1 {
      assert goal == goal[..i] + [goal[i]] && xs == xs[..i] + [xs[i]];
      ds := [k];
      assert ShuffleBy(Swapped(xs, i, k), i + 1, ds[1..]) == Swapped(xs, i, k);
    } else {
      SwapKeepsMultiset(ts, n - 1, k);
      var m := Unsettled(xs, goal, i);
      var ys := Swapped(xs, i, m);
      SwapFacts(xs, i, m);
      SwapKeepsMultiset(xs, i, m);
      assert goal[..i + 1] == ys[..i + 1];
      var rest := FindDraws(ys, ts, i + 1, k);
      ds := [m] + rest;
      assert ds[1..] == rest;
    }
  }

  /** The block that belongs into slot `i` is found behind the settled slots and in front of the
      last one. */
  lemma {:induction false} Unsettled<T>(xs: seq<T>, goal: seq<T>, i: nat) returns (m: nat)
    requires |xs| == |goal| && i + 1 < |xs| && multiset(xs) == multiset(goal)
    requires goal[..i] == xs[..i] && goal[|xs| - 1] == xs[|xs| - 1]
    ensures i <= m && m + 1 < |xs| && xs[m] == goal[i]
  {
    var n := |xs|;
    var a, b := xs[i..n - 1], goal[i..n - 1];
    var last := [xs[n - 1]];
    assert xs == xs[..i] + a + last && goal == xs[..i] + b + last;
    SameMiddle(xs[..i], a, b, last);
    assert b[0] in multiset(b);
    var j :| 0 <= j < |a| && a[j] == b[0];
    m := i + j;
  }

  lemma {:induction false} SameMiddle<T>(p: seq<T>, a: seq<T>, b: seq<T>, q: seq<T>)
    requires multiset(p + a + q) == multiset(p + b + q)
    ensures multiset(a) == multiset(b)
  {
    assert multiset(p + a + q) == multiset(p) + multiset(a) + multiset(q);
    assert multiset(p + b + q) == multiset(p) + multiset(b) + multiset(q);
    var m := multiset(p) + multiset(q);
    assert multiset(a) == multiset(p + a + q) - m && multiset(b) == multiset(p + b + q) - m;
  }

  /** The draws that make an order come out. */
  ghost predicate Outcome<T(!new)>(xs: seq<T>, ts: seq<T>) {
    exists ds :: DrawsFrom(ds, |xs|, 0) && ShuffleBy(xs, 0, ds) == ts
  }

  /** An order comes out for some draws exactly when it is a rearrangement with a block equal to the
      last one somewhere in front of the last slot. */
  lemma {:induction false} OutcomeIff<T(!new)>(xs: seq<T>, ts: seq<T>)
    requires |xs| >= 2
    ensures Outcome(xs, ts)
       <==> |ts| == |xs| && multiset(ts) == multiset(xs) && exists k :: 0 <= k < |xs| - 1 && ts[k] == xs[|xs| - 1]
  {
    hide ShuffleBy;
    if ds :| DrawsFrom(ds, |xs|, 0) && ShuffleBy(xs, 0, ds) == ts {
      ShuffleByKeepsMultiset(xs, 0, ds);
      LastGoesWhereDrawn(xs, 0, ds);
    }
    if |ts| == |xs| && multiset(ts) == multiset(xs) && exists k :: 0 <= k < |xs| - 1 && ts[k] == xs[|xs| - 1] {
      var k :| 0 <= k < |xs| - 1 && ts[k] == xs[|xs| - 1];
      var ds := FindDraws(xs, ts, 0, k);
    }
  }

  /** An order of distinct blocks comes out for some draws exactly when its last block is not the
      one that was last: the original order, for one, never does. */
  lemma {:induction false} DistinctOutcomeIff<T(!new)>(xs: seq<T>, ts: seq<T>)
    requires |xs| >= 2 && forall a, b :: 0 <= a < b < |xs| ==> xs[a] != xs[b]
    ensures Outcome(xs, ts)
       <==> |ts| == |xs| && multiset(ts) == multiset(xs) && ts[|xs| - 1] != xs[|xs| - 1]
  {
    hide Outcome;
    OutcomeIff(xs, ts);
    if |ts| == |xs| && multiset(ts) == multiset(xs) {
      var last := xs[|xs| - 1];
      assert last in multiset(ts);
      assert exists k :: 0 <= k < |ts| && ts[k] == last;
      LastOccursOnce(xs);
      if k :| 0 <= k < |xs| - 1 && ts[k] == last && ts[|xs| - 1] == last { OccursTwice(ts, k, |xs| - 1); }
    }
  }

  lemma {:induction false} LastOccursOnce<T>(xs: seq<T>)
    requires xs != [] && forall a, b :: 0 <= a < b < |xs| ==> xs[a] != xs[b]
    ensures multiset(xs)[xs[|xs| - 1]] == 1
  {
    var front, last := xs[..|xs| - 1], xs[|xs| - 1];
    assert xs == front + [last] && last !in front;
    assert last !in multiset(front);
  }

  lemma {:induction false} OccursTwice<T>(ts: seq<T>, j: nat, k: nat)
    requires j < k < |ts| && ts[j] == ts[k]
    ensures multiset(ts)[ts[k]] >= 2
  {
    var rest := ts[..j] + ts[j + 1..];
    assert ts == ts[..j] + [ts[j]] + ts[j + 1..];
    assert multiset(ts) == multiset(rest) + multiset{ts[j]};
    assert rest[k - 1] == ts[k];
    assert ts[k] in multiset(rest);
  }

  // ---- blocks of a byte array ----

  /** The offset of block `k`: `size * k`. */
  function Off(size: nat, k: nat): nat {
    if k == 0 then 0 else Off(size, k - 1) + size
  }

  lemma {:induction false} OffIsProduct(size: nat, k: nat)
    ensures Off(size, k) == size * k
  {
    if k > 0 {
      OffIsProduct(size, k - 1);
      assert size * k == size * (k - 1) + size;
    }
  }

  lemma {:induction false} BlockFits(size: nat, k: nat, n: nat)
    requires k < n
    ensures Off(size, k) + size <= Off(size, n)
  {
    if k < n - 1 { BlockFits(size, k, n - 1); }
  }

  /** The `n` blocks of `size` bytes that start at `start`. */
  ghost function Blocks(b: seq<byte>, start: nat, n: nat, size: nat): (r: seq<seq<byte>>)
    requires start + Off(size, n) <= |b|
    ensures |r| == n
  {
    if n == 0 then []
    else Blocks(b, start, n - 1, size) + [b[start + Off(size, n - 1)..start + Off(size, n)]]
  }

  /** Writing one block changes that block and no other. */
  lemma {:induction false} BlocksOfSplice(b: seq<byte>, start: nat, n: nat, size: nat, k: nat, d: seq<byte>)
    requires k < n && |d| == size && start + Off(size, n) <= |b| && start + Off(size, k) + size <= |b|
    ensures Blocks(Splice(b, start + Off(size, k), d), start, n, size) == Blocks(b, start, n, size)[k := d]
  {
    var c := Splice(b, start + Off(size, k), d);
    var lo, hi := start + Off(size, n - 1), start + Off(size, n);
    if k == n - 1 {
      BlocksPrefix(b, c, start, k, size);
      assert c[lo..hi] == d;
    } else {
      BlockFits(size, k, n - 1);
      BlocksOfSplice(b, start, n - 1, size, k, d);
      assert c[lo..hi] == b[lo..hi];
    }
  }

  lemma {:induction false} BlocksPrefix(b: seq<byte>, c: seq<byte>, start: nat, n: nat, size: nat)
    requires start + Off(size, n) <= |b| && start + Off(size, n) <= |c|
    requires b[..start + Off(size, n)] == c[..start + Off(size, n)]
    ensures Blocks(b, start, n, size) == Blocks(c, start, n, size)
  {
    if n > 0 {
      var lo, hi := start + Off(size, n - 1), start + Off(size, n);
      assert b[lo..hi] == b[..hi][lo..hi] == c[..hi][lo..hi] == c[lo..hi];
      assert b[..lo] == b[..hi][..lo] == c[..hi][..lo] == c[..lo];
      BlocksPrefix(b, c, start, n - 1, size);
    }
  }

  lemma {:induction false} BlockAt(b: seq<byte>, start: nat, n: nat, size: nat, k: nat)
    requires k < n && start + Off(size, n) <= |b|
    ensures start + Off(size, k) + size <= start + Off(size, n) <= |b|
    ensures Blocks(b, start, n, size)[k] == b[start + Off(size, k)..start + Off(size, k) + size]
  {
    BlockFits(size, k, n);
    if k < n - 1 { BlockAt(b, start, n - 1, size, k); }
  }

  /** `a` and `b` differ at most in the span from `lo` to `hi`. */
  ghost predicate SameOutside(a: seq<byte>, b: seq<byte>, lo: nat, hi: nat)
    requires lo <= hi <= |a|
  {
    |a| == |b| && a[..lo] == b[..lo] && a[hi..] == b[hi..]
  }

  lemma {:induction false} SpliceKeepsOutside(b: seq<byte>, off: nat, d: seq<byte>, lo: nat, hi: nat)
    requires lo <= off && off + |d| <= hi <= |b|
    ensures SameOutside(b, Splice(b, off, d), lo, hi)
  {}

  /** Exchanging two blocks by copying one over the other and the saved one back. */
  lemma {:induction false} BlocksExchanged(b: seq<byte>, start: nat, n: nat, size: nat, k: nat, m: nat,
                                           x: seq<byte>, y: seq<byte>)
    requires k < n && m < n && k != m && start + Off(size, n) <= |b|
    requires start + Off(size, k) + size <= |b| && start + Off(size, m) + size <= |b|
    requires x == Blocks(b, start, n, size)[k] && y == Blocks(b, start, n, size)[m] && |x| == |y| == size
    ensures var c := Splice(Splice(b, start + Off(size, m), x), start + Off(size, k), y);
            && Blocks(c, start, n, size) == Swapped(Blocks(b, start, n, size), k, m)
            && SameOutside(b, c, start, start + Off(size, n))
  {
    hide Blocks, Splice, Off, SameOutside;
    var b1 := Splice(b, start + Off(size, m), x);
    BlocksOfSplice(b, start, n, size, m, x);
    BlocksOfSplice(b1, start, n, size, k, y);
    BlockFits(size, k, n);
    BlockFits(size, m, n);
    SpliceKeepsOutside(b, start + Off(size, m), x, start, start + Off(size, n));
    SpliceKeepsOutside(b1, start + Off(size, k), y, start, start + Off(size, n));
    OutsideThrough(b, b1, Splice(b1, start + Off(size, k), y), start, start + Off(size, n));
  }

  // ---- the handle ----

  class Handle {
    var i: byte
    var j: byte
    const s: array<byte>
    var tmp: array?<byte>
    var tmplen: nat

    ghost predicate Valid()
      reads this
    {
      && s.Length == 256
      && (tmp == null ==> tmplen == 0)
      && (tmp != null ==> tmp.Length == tmplen && tmp != s)
    }

    ghost function Value(): (r: State)
      requires Valid()
      reads this, s
      ensures r.Valid()
    {
      State(i, j, s[..])
    }

    /** `rand_open` with `noise` for the operating system's entropy. */
    constructor Open(noise: seq<byte>)
      requires |noise| == 256
      ensures Valid() && fresh(s) && tmp == null
      ensures Value() == Added(Added(INITIAL, noise[..128]), noise[128..]) && Value().Permutation()
    {
      i, j, tmp, tmplen := 0, 0, null, 0;
      s := new byte[256];
      new;
      Init();
      AddRandom(noise[..128]);
      AddRandom(noise[128..]);
      InitialPermutation();
      AddedKeepsPermutation(INITIAL, noise[..128]);
      AddedKeepsPermutation(Added(INITIAL, noise[..128]), noise[128..]);
    }

    method Init()
      requires Valid()
      modifies `i, `j, s
      ensures Valid() && Value() == INITIAL
    {
      for k := 0 to 256
        invariant forall m :: 0 <= m < k ==> s[m] == m
      {
        s[k] := k;
      }
      i, j := 0, 0;
      assert s[..] == INITIAL.s;
    }

    method AddRandom(buf: seq<byte>)
      requires Valid() && |buf| > 0
      modifies `i, `j, s
      ensures Valid() && Value() == Added(old(Value()), buf)
    {
      i := (i - 1) % 256;
      ghost var start := Value();
      for k := 0 to 256
        invariant Valid() && Value() == AddRounds(start, buf, k)
      {
        AddByte(buf[k % |buf|]);
      }
      j := i;
    }

    method AddByte(b: byte)
      requires Valid()
      modifies `i, `j, s
      ensures Valid() && Value() == AddRound(old(Value()), b)
    {
      i := (i + 1) % 256;
      var si := s[i];
      j := (j + si + b) % 256;
      s[i] := s[j];
      s[j] := si;
    }

    method GetByte() returns (r: byte)
      requires Valid()
      modifies `i, `j, s
      ensures Valid() && Value() == Step(old(Value())) && r == Output(Value())
    {
      i := (i + 1) % 256;
      var si: int := s[i];
      j := (j + si) % 256;
      var sj := s[j];
      s[i] := sj;
      s[j] := si;
      r := s[(si + sj) % 256];
    }

    /** `rand_get`: `n` bytes, returned instead of stored through a pointer. */
    method Get(n: nat) returns (buf: seq<byte>)
      requires Valid()
      modifies `i, `j, s
      ensures Valid() && Value() == Steps(old(Value()), n) && buf == Stream(old(Value()), n)
    {
      buf := [];
      for k := 0 to n
        invariant Valid() && Value() == Steps(old(Value()), k) && buf == Stream(old(Value()), k)
      {
        var b := GetByte();
        buf := buf + [b];
      }
    }

    method Set(buf: seq<byte>)
      requires Valid() && |buf| > 0
      modifies `i, `j, s
      ensures Valid() && Value() == Seeded(buf)
    {
      Init();
      AddRandom(buf);
      AddRandom(buf);
    }

    method Uint32() returns (val: nat)
      requires Valid()
      modifies `i, `j, s
      ensures Valid() && Value() == Steps(old(Value()), 4) && val == Word(Stream(old(Value()), 4))
    {
      ghost var st := Value();
      var b0 := GetByte();
      var b1 := GetByte();
      var b2 := GetByte();
      var b3 := GetByte();
      val := Word([b0, b1, b2, b3]);
      FourSteps(st);
    }

    /** Shuffles the `nmemb` blocks of `size` bytes at `start` of `base`. `allocOk` says
        whether growing the scratch block succeeds. */
    method Shuffle(base: array<byte>, start: nat, nmemb: nat, size: nat, allocOk: bool) returns (ok: bool)
      requires Valid() && base != s && base != tmp
      requires nmemb < 0x1_0000_0000 && start + Off(size, nmemb) <= base.Length
      modifies this, s, tmp, base
      ensures Valid()
      ensures ok == (nmemb < 2 || old(tmplen) >= size || allocOk)
      ensures !ok || nmemb < 2 ==> base[..] == old(base[..]) && Value() == old(Value())
      ensures ok && nmemb >= 2 ==>
                (Blocks(base[..], start, nmemb, size), Value())
                == ShuffleFrom(old(Value()), Blocks(old(base[..]), start, nmemb, size), 0)
      ensures SameOutside(old(base[..]), base[..], start, start + Off(size, nmemb))
    {
      if nmemb < 2 { return true; }
      if tmplen < size {
        if !allocOk { return false; }
        tmp := new byte[size];
        tmplen := size;
      }
      Rounds(base, start, nmemb, size);
      return true;
    }

    /** The shuffling loop. */
    method Rounds(base: array<byte>, start: nat, nmemb: nat, size: nat)
      requires Valid() && base != s && base != tmp && tmplen >= size
      requires nmemb >= 2 && start + Off(size, nmemb) <= base.Length
      modifies `i, `j, s, tmp, base
      ensures Valid()
      ensures (Blocks(base[..], start, nmemb, size), Value())
              == ShuffleFrom(old(Value()), Blocks(old(base[..]), start, nmemb, size), 0)
      ensures SameOutside(old(base[..]), base[..], start, start + Off(size, nmemb))
    {
      hide Blocks, ShuffleFrom, Off, SameOutside;
      ghost var b, end := base[..], start + Off(size, nmemb);
      ghost var goal := ShuffleFrom(Value(), Blocks(b, start, nmemb, size), 0);
      OutsideSelf(b, start, end);
      for k := 0 to nmemb
        invariant Valid()
        invariant goal == ShuffleFrom(Value(), Blocks(base[..], start, nmemb, size), k)
        invariant SameOutside(b, base[..], start, end)
      {
        ghost var was := base[..];
        Round(base, start, nmemb, size, k);
        OutsideThrough(b, was, base[..], start, end);
      }
      ShuffleEnd(Value(), Blocks(base[..], start, nmemb, size));
    }

    /** The body of the shuffling loop. */
    method Round(base: array<byte>, start: nat, nmemb: nat, size: nat, k: nat)
      requires Valid() && base != s && base != tmp && tmplen >= size
      requires k < nmemb && nmemb >= 2 && start + Off(size, nmemb) <= base.Length
      modifies `i, `j, s, tmp, base
      ensures Valid()
      ensures ShuffleFrom(old(Value()), Blocks(old(base[..]), start, nmemb, size), k)
           == ShuffleFrom(Value(), Blocks(base[..], start, nmemb, size), k + 1)
      ensures SameOutside(old(base[..]), base[..], start, start + Off(size, nmemb))
    {
      hide Blocks, ShuffleFrom, Off, SameOutside, Swapped, Steps, Stream, Word;
      ShuffleRound(Value(), Blocks(base[..], start, nmemb, size), k);
      OutsideSelf(base[..], start, start + Off(size, nmemb));
      var u := Uint32();
      var m := Reduce(u, nmemb);
      if m != k {
        OffIsProduct(size, k);
        OffIsProduct(size, m);
        SwapBlocks(base, start, nmemb, size, k, m, start + size * k, start + size * m);
      }
    }

    method SwapBlocks(base: array<byte>, ghost start: nat, ghost nmemb: nat, size: nat, ghost k: nat, ghost m: nat,
                      src: nat, dst: nat)
      requires Valid() && base != s && base != tmp && tmplen >= size
      requires k < nmemb && m < nmemb && k != m && start + Off(size, nmemb) <= base.Length
      requires src == start + Off(size, k) && dst == start + Off(size, m)
      modifies tmp, base
      ensures Blocks(base[..], start, nmemb, size) == Swapped(old(Blocks(base[..], start, nmemb, size)), k, m)
      ensures SameOutside(old(base[..]), base[..], start, start + Off(size, nmemb))
    {
      hide Blocks, Splice, Swapped, Off, SameOutside;
      ghost var b, xs := base[..], Blocks(base[..], start, nmemb, size);
      BlockAt(b, start, nmemb, size, k);
      BlockAt(b, start, nmemb, size, m);
      BlocksExchanged(b, start, nmemb, size, k, m, xs[k], xs[m]);
      if tmp != null {
        Exchange(base, src, dst, size, tmp);
      } else {
        SwapOfEqual(xs, k, m);
        OutsideSelf(b, start, start + Off(size, nmemb));
      }
    }
  }

  lemma {:induction false} SwapOfEqual<T>(xs: seq<T>, k: nat, m: nat)
    requires k < |xs| && m < |xs| && xs[k] == xs[m]
    ensures Swapped(xs, k, m) == xs
  {}

  lemma {:induction false} OutsideSelf(b: seq<byte>, lo: nat, hi: nat)
    requires lo <= hi <= |b|
    ensures SameOutside(b, b, lo, hi)
  {}

  lemma {:induction false} OutsideThrough(a: seq<byte>, b: seq<byte>, c: seq<byte>, lo: nat, hi: nat)
    requires lo <= hi <= |a| && SameOutside(a, b, lo, hi) && |b| == |a| && SameOutside(b, c, lo, hi)
    ensures SameOutside(a, c, lo, hi)
  {}

  /** Three copies through `save`: one span over the other, then the saved one back. */
  method Exchange(base: array<byte>, src: nat, dst: nat, size: nat, save: array<byte>)
    requires base != save && size <= save.Length
    requires src + size <= base.Length && dst + size <= base.Length
    modifies base, save
    ensures var b := old(base[..]);
            base[..] == Splice(Splice(b, dst, b[src..src + size]), src, b[dst..dst + size])
  {
    hide Splice;
    ghost var b := base[..];
    assert base[dst..dst + size] == b[dst..dst + size] && base[src..src + size] == b[src..src + size];
    Memmove(save, 0, base, dst, size);
    assert save[0..size] == b[dst..dst + size] by {
      assert save[0..size] == save[..][0..0 + size];
    }
    Memmove(base, dst, base, src, size);
    Memmove(base, src, save, 0, size);
  }

  lemma {:induction false} FourSteps(st: State)
    requires st.Valid()
    ensures Steps(st, 4) == Step(Step(Step(Step(st))))
    ensures Stream(st, 4) == [Output(Step(st)), Output(Step(Step(st))), Output(Step(Step(Step(st)))),
                              Output(Step(Step(Step(Step(st)))))]
  {
    assert Steps(st, 1) == Step(st);
    assert Steps(st, 2) == Step(Step(st));
    assert Steps(st, 3) == Step(Step(Step(st)));
    assert Stream(st, 1) == [Output(Steps(st, 1))];
    assert Stream(st, 2) == Stream(st, 1) + [Output(Steps(st, 2))];
    assert Stream(st, 3) == Stream(st, 2) + [Output(Steps(st, 3))];
  }
}
