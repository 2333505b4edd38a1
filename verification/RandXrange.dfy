/** The random-permutation iterator of the Python binding (`__rand_xrange`): a keyed
    mixing function over `[0, 2^bits)` whose outputs at or above `max` are skipped. */
module RandXrange {
  import opened Bits
  import opened ByteOrder
  import opened Counting
  import opened Memory
  import Rand

  const TEADELTA: nat := 0x9e3779b9
  const TEAROUNDS: nat := 32
  const TEASBOXSIZE: nat := 128
  const TEASBOXSHIFT: nat := 7
  const UINT_BITS: nat := 32

  /** What `__init__` fixes: the key table and the numbers derived from `max`.
      `w` is the width of `unsigned long` in bits, `rounds` the number of mixing rounds
      (`TEAROUNDS - 1` in an iterator; nothing below depends on it). */
  datatype Params = Params(w: nat, rounds: nat, sbox: seq<nat>, max: nat, bits: nat, left: nat, right: nat,
                           mask: nat, sboxmask: nat, kshift: nat)
  {
    ghost predicate Valid() {
      && bits <= 30 && UINT_BITS <= w
      && |sbox| == TEASBOXSIZE
      && left + right == bits && left <= right
      && mask == Pow2(bits) - 1
      && kshift <= left && kshift <= TEASBOXSHIFT
      && sboxmask == Pow2(kshift) - 1
      && max <= Pow2(bits)
    }
  }

  // ---- the mixing function ----

  /** `c ^ (sbox[(c ^ sum) & sboxmask] << kshift)`; the shift is on a 32-bit unsigned. */
  function Keyed(p: Params, c: nat, sum: nat): nat
    requires p.Valid()
  {
    IndexInTable(p, Xor(c, sum));
    Xor(c, Low(Shl(p.sbox[And(Xor(c, sum), p.sboxmask)], p.kshift), UINT_BITS))
  }

  /** `((z << left) | (z >> right)) & mask` */
  function Rotated(p: Params, z: nat): nat {
    And(Or(Low(Shl(z, p.left), p.w), Shr(z, p.right)), p.mask)
  }

  /** One round of the mix. */
  function Round(p: Params, c: nat, sum: nat): nat
    requires p.Valid()
  {
    Rotated(p, And(Low(Keyed(p, c, sum) + sum, p.w), p.mask))
  }

  lemma {:induction false} IndexInTable(p: Params, v: nat)
    requires p.Valid()
    ensures And(v, p.sboxmask) < |p.sbox|
  {
    AndMask(v, p.kshift);
    LowBelow(v, p.kshift);
    Pow2Monotone(p.kshift, TEASBOXSHIFT);
    assert Pow2(7) == 128;
  }

  /** The running `sum` of round `i`. */
  function Sum(w: nat, i: nat): nat {
    if i == 0 then 0 else Low(Sum(w, i - 1) + TEADELTA, w)
  }

  function Rounds(p: Params, c: nat, i: nat): nat
    requires p.Valid()
  {
    if i == 0 then c else Round(p, Rounds(p, c, i - 1), Sum(p.w, i))
  }

  function Mix(p: Params, c: nat): nat
    requires p.Valid()
  {
    Rounds(p, c, p.rounds)
  }

  // ---- each step of a round is injective ----

  /** The last step of a round rotates `bits` bits, because the two shifts add up to `bits`:
      the low `right` bits move up and the high `left` bits come in below them. */
  lemma {:induction false} RotatesBits(p: Params, z: nat)
    requires p.Valid() && z < Pow2(p.bits)
    ensures Rotated(p, z) == Shl(Low(z, p.right), p.left) + Shr(z, p.right)
    ensures Shr(z, p.right) < Pow2(p.left)
  {
    hide And, Or, Pow2, Low, Shl, Shr;
    var hi, lo := Low(Shl(z, p.left), p.w), Shr(z, p.right);
    ShrBelow(z, p.left, p.right);
    Pow2Monotone(p.left, p.bits);
    LowOfSmall(lo, p.bits);
    AndMask(Or(hi, lo), p.bits);
    OrLow(hi, lo, p.bits);
    LowLow(Shl(z, p.left), p.bits, p.w);
    LowOfShl(z, p.left, p.right);
    OrAdds(Low(z, p.right), lo, p.left);
  }

  lemma {:induction false} RotationInjective(p: Params, a: nat, b: nat)
    requires p.Valid() && a < Pow2(p.bits) && b < Pow2(p.bits)
    requires Rotated(p, a) == Rotated(p, b)
    ensures a == b
  {
    hide Rotated, Pow2, Low, Shl, Shr;
    RotatesBits(p, a);
    RotatesBits(p, b);
    JoinUnique(Low(a, p.right), Shr(a, p.right), Low(b, p.right), Shr(b, p.right), p.left);
    SplitAt(a, p.right);
    SplitAt(b, p.right);
  }

  lemma {:induction false} LowOfShlZero(s: nat, k: nat)
    ensures Low(Shl(s, k), k) == 0
  {
    if k > 0 {
      LowOfShlZero(s, k - 1);
      assert Shl(s, k) / 2 == Shl(s, k - 1);
    }
  }

  /** The value XORed in is a multiple of `2^k`, so the low `k` bits survive. */
  lemma {:induction false} XorKeepsLow(c: nat, s: nat, k: nat)
    requires k <= UINT_BITS
    ensures Low(Xor(c, Low(Shl(s, k), UINT_BITS)), k) == Low(c, k)
  {
    hide Low, Shl, Xor;
    XorLow(c, Low(Shl(s, k), UINT_BITS), k);
    LowLow(Shl(s, k), k, UINT_BITS);
    LowOfShlZero(s, k);
    XorZero(Low(c, k));
  }

  /** The key index reads only the low `k` bits. */
  lemma {:induction false} IndexReadsLow(c: nat, sum: nat, k: nat)
    ensures And(Xor(c, sum), Pow2(k) - 1) == Xor(Low(c, k), Low(sum, k))
  {
    AndMask(Xor(c, sum), k);
    XorLow(c, sum, k);
  }

  lemma {:induction false} XorInjectiveBelow(a: nat, b: nat, v: nat, k: nat)
    requires a < Pow2(k) && b < Pow2(k)
    requires Low(Xor(a, v), k) == Low(Xor(b, v), k)
    ensures a == b
  {
    hide Low, Xor;
    LowOfSmall(a, k);
    LowOfSmall(b, k);
    XorLow(a, v, k);
    XorLow(b, v, k);
    XorCancels(a, Low(v, k));
    XorCancels(b, Low(v, k));
  }

  /** Below `2^bits` the keyed XOR is injective even after the high bits are dropped: equal
      results have equal low bits, hence equal indices, hence the same value was XORed in. */
  lemma {:induction false} KeyedInjective(p: Params, c: nat, d: nat, sum: nat)
    requires p.Valid() && c < Pow2(p.bits) && d < Pow2(p.bits)
    requires Low(Keyed(p, c, sum), p.bits) == Low(Keyed(p, d, sum), p.bits)
    ensures c == d
  {
    hide Low, Xor, And, Shl, Pow2;
    IndexInTable(p, Xor(c, sum));
    IndexInTable(p, Xor(d, sum));
    var s, t := p.sbox[And(Xor(c, sum), p.sboxmask)], p.sbox[And(Xor(d, sum), p.sboxmask)];
    var k := p.kshift;
    assert Low(c, k) == Low(d, k) by {
      XorKeepsLow(c, s, k);
      XorKeepsLow(d, t, k);
      LowLow(Keyed(p, c, sum), k, p.bits);
      LowLow(Keyed(p, d, sum), k, p.bits);
    }
    IndexReadsLow(c, sum, k);
    IndexReadsLow(d, sum, k);
    assert s == t;
    XorInjectiveBelow(c, d, Low(Shl(s, k), UINT_BITS), p.bits);
  }

  /** The masked sum depends on the keyed value modulo `2^bits`. */
  lemma {:induction false} MaskedSum(p: Params, x: nat, sum: nat)
    requires p.Valid()
    ensures And(Low(x + sum, p.w), p.mask) == Low(x + sum, p.bits)
  {
    AndMask(Low(x + sum, p.w), p.bits);
    LowLow(x + sum, p.bits, p.w);
  }

  lemma {:induction false} RoundBelow(p: Params, c: nat, sum: nat)
    requires p.Valid()
    ensures Round(p, c, sum) < Pow2(p.bits)
  {
    hide Keyed, And, Or, Low, Pow2;
    var z := And(Low(Keyed(p, c, sum) + sum, p.w), p.mask);
    var x := Or(Low(Shl(z, p.left), p.w), Shr(z, p.right));
    AndMask(x, p.bits);
    LowBelow(x, p.bits);
  }

  lemma {:induction false} RoundInjective(p: Params, c: nat, d: nat, sum: nat)
    requires p.Valid() && c < Pow2(p.bits) && d < Pow2(p.bits)
    requires Round(p, c, sum) == Round(p, d, sum)
    ensures c == d
  {
    hide Keyed, Rotated, And, Low, Pow2;
    var x, y := Keyed(p, c, sum), Keyed(p, d, sum);
    MaskedSum(p, x, sum);
    MaskedSum(p, y, sum);
    LowBelow(x + sum, p.bits);
    LowBelow(y + sum, p.bits);
    RotationInjective(p, Low(x + sum, p.bits), Low(y + sum, p.bits));
    LowAddInjective(x, y, sum, p.bits);
    KeyedInjective(p, c, d, sum);
  }

  // ---- a round can be taken back by who has the key ----

  /** Rotates back, takes the sum off, and XORs the word of the key again; its index can be told from
      the bits that the XOR leaves alone. */
  function Unround(p: Params, v: nat, sum: nat): nat
    requires p.Valid()
  {
    var x := Low(Shl(Low(v, p.left), p.right) + Shr(v, p.left) - sum, p.bits);
    Xor(x, KeyWord(p, x, sum))
  }

  /** The bits that a word of the key can change in a value `c`. */
  function KeyWord(p: Params, c: nat, sum: nat): nat
    requires p.Valid()
  {
    hide Low, Xor, And, Shl, Pow2;
    IndexReadsLow(c, sum, p.kshift);
    IndexInTable(p, Xor(c, sum));
    Low(Shl(p.sbox[Xor(Low(c, p.kshift), Low(sum, p.kshift))], p.kshift), p.bits)
  }

  lemma {:induction false} RotatedBack(p: Params, y: nat)
    requires p.Valid() && y < Pow2(p.bits)
    ensures Shl(Low(Rotated(p, y), p.left), p.right) + Shr(Rotated(p, y), p.left) == y
  {
    hide Rotated, Pow2, Low, Shl, Shr;
    RotatesBits(p, y);
    LowOfJoin(Low(y, p.right), Shr(y, p.right), p.left, p.left);
    LowOfSmall(Shr(y, p.right), p.left);
    ShrOfJoin(Low(y, p.right), Shr(y, p.right), p.left);
    SplitAt(y, p.right);
  }

  /** What the keyed XOR leaves in the low bits. */
  lemma {:induction false} KeyedLow(p: Params, c: nat, sum: nat)
    requires p.Valid() && c < Pow2(p.bits)
    ensures Low(Keyed(p, c, sum), p.bits) == Xor(c, KeyWord(p, c, sum))
    ensures KeyWord(p, Low(Keyed(p, c, sum), p.bits), sum) == KeyWord(p, c, sum)
  {
    hide Low, Xor, And, Shl, Pow2;
    IndexReadsLow(c, sum, p.kshift);
    IndexInTable(p, Xor(c, sum));
    var s := p.sbox[And(Xor(c, sum), p.sboxmask)];
    XorLow(c, Low(Shl(s, p.kshift), UINT_BITS), p.bits);
    LowOfSmall(c, p.bits);
    LowLow(Shl(s, p.kshift), p.bits, UINT_BITS);
    XorKeepsLow(c, s, p.kshift);
    LowLow(Keyed(p, c, sum), p.kshift, p.bits);
  }

  lemma {:induction false} RoundTakenBack(p: Params, c: nat, sum: nat)
    requires p.Valid() && c < Pow2(p.bits)
    ensures Unround(p, Round(p, c, sum), sum) == c
  {
    hide Keyed, Rotated, KeyWord, And, Low, Pow2, Shl, Shr, Xor;
    var x := Keyed(p, c, sum);
    MaskedSum(p, x, sum);
    LowBelow(x + sum, p.bits);
    RotatedBack(p, Low(x + sum, p.bits));
    LowAdd(x + sum, 0 - sum, p.bits);
    KeyedLow(p, c, sum);
    XorCancels(c, KeyWord(p, c, sum));
  }

  /** The key matters: two tables do the same to `c` exactly when their words at the one index that
      `c` selects agree in the bits that count. */
  lemma {:induction false} KeyMatters(p: Params, q: Params, c: nat, sum: nat)
    requires p.Valid() && q.Valid() && q == p.(sbox := q.sbox) && c < Pow2(p.bits)
    ensures Round(p, c, sum) == Round(q, c, sum) <==> KeyWord(p, c, sum) == KeyWord(q, c, sum)
  {
    hide Keyed, Rotated, KeyWord, And, Low, Pow2, Shl, Shr, Xor;
    var x, y := Keyed(p, c, sum), Keyed(q, c, sum);
    KeyedLow(p, c, sum);
    KeyedLow(q, c, sum);
    if KeyWord(p, c, sum) == KeyWord(q, c, sum) {
      SameLowSameRound(p, q, c, sum);
    } else {
      var k, l := KeyWord(p, c, sum), KeyWord(q, c, sum);
      XorCommutes(c, k);
      XorCommutes(c, l);
      XorCancels(k, c);
      XorCancels(l, c);
      assert Low(x, p.bits) != Low(y, p.bits);
      if Round(p, c, sum) == Round(q, c, sum) { SameRoundSameLow(p, q, c, sum); }
    }
  }

  lemma {:induction false} SameLowSameRound(p: Params, q: Params, c: nat, sum: nat)
    requires p.Valid() && q.Valid() && q == p.(sbox := q.sbox)
    requires Low(Keyed(p, c, sum), p.bits) == Low(Keyed(q, c, sum), p.bits)
    ensures Round(p, c, sum) == Round(q, c, sum)
  {
    hide Keyed, And, Low;
    MaskedSum(p, Keyed(p, c, sum), sum);
    MaskedSum(q, Keyed(q, c, sum), sum);
    LowAdd(Keyed(p, c, sum), sum, p.bits);
    LowAdd(Keyed(q, c, sum), sum, p.bits);
  }

  lemma {:induction false} SameRoundSameLow(p: Params, q: Params, c: nat, sum: nat)
    requires p.Valid() && q.Valid() && q == p.(sbox := q.sbox)
    requires Round(p, c, sum) == Round(q, c, sum)
    ensures Low(Keyed(p, c, sum), p.bits) == Low(Keyed(q, c, sum), p.bits)
  {
    hide Keyed, And, Low, Shl, Shr, Pow2;
    var x, y := Keyed(p, c, sum), Keyed(q, c, sum);
    MaskedSum(p, x, sum);
    MaskedSum(q, y, sum);
    LowBelow(x + sum, p.bits);
    LowBelow(y + sum, p.bits);
    RotationInjective(p, Low(x + sum, p.bits), Low(y + sum, p.bits));
    LowAddInjective(x, y, sum, p.bits);
  }

  /** The running sum is a multiple of the constant. */
  lemma {:induction false} SumIsMultiple(w: nat, i: nat)
    ensures Sum(w, i) == Low(i * 0x9e3779b9, w)
  {
    hide Low;
    if i == 0 {
      LowOfZero(w);
    } else {
      SumIsMultiple(w, i - 1);
      LowAdd((i - 1) * 0x9e3779b9, 0x9e3779b9, w);
      assert (i - 1) * 0x9e3779b9 + 0x9e3779b9 == i * 0x9e3779b9;
    }
  }

  lemma {:induction false} LowOfZero(w: nat)
    ensures Low(0, w) == 0
  {
    if w > 0 { LowOfZero(w - 1); }
  }

  function Unrounds(p: Params, v: nat, i: nat): nat
    requires p.Valid()
    decreases i
  {
    if i == 0 then v else Unrounds(p, Unround(p, v, Sum(p.w, i)), i - 1)
  }

  /** Where in the sequence of indices a value comes from. */
  function Unmix(p: Params, v: nat): nat
    requires p.Valid()
  {
    Unrounds(p, v, p.rounds)
  }

  lemma {:induction false} RoundsTakenBack(p: Params, c: nat, i: nat)
    requires p.Valid() && c < Pow2(p.bits)
    ensures Unrounds(p, Rounds(p, c, i), i) == c
  {
    hide Round, Unround, Pow2, Sum;
    if i > 0 {
      RoundsBijective(p, c, c, i - 1);
      RoundTakenBack(p, Rounds(p, c, i - 1), Sum(p.w, i));
      RoundsTakenBack(p, c, i - 1);
    }
  }

  /** The mix is undone with the key. */
  lemma {:induction false} MixTakenBack(p: Params, c: nat)
    requires p.Valid() && c < Pow2(p.bits)
    ensures Unmix(p, Mix(p, c)) == c
  {
    hide Rounds, Unrounds;
    RoundsTakenBack(p, c, p.rounds);
  }

  lemma {:induction false} RoundsBijective(p: Params, c: nat, d: nat, i: nat)
    requires p.Valid() && c < Pow2(p.bits) && d < Pow2(p.bits)
    ensures Rounds(p, c, i) < Pow2(p.bits)
    ensures Rounds(p, c, i) == Rounds(p, d, i) ==> c == d
    decreases i
  {
    hide Round, Pow2, Sum;
    if i > 0 {
      var a, b, sum := Rounds(p, c, i - 1), Rounds(p, d, i - 1), Sum(p.w, i);
      RoundsBijective(p, c, d, i - 1);
      RoundsBijective(p, d, c, i - 1);
      RoundBelow(p, a, sum);
      if Round(p, a, sum) == Round(p, b, sum) {
        RoundInjective(p, a, b, sum);
      }
    }
  }

  /** One of the first `n` indices mixes to `v`. */
  ghost predicate Reached(p: Params, n: nat, v: nat)
    requires p.Valid()
  {
    exists c :: 0 <= c < n && Mix(p, c) == v
  }

  /** The whole mix permutes `[0, 2^bits)`, for every key table. */
  lemma {:induction false} MixBijective(p: Params)
    requires p.Valid()
    ensures forall c :: 0 <= c < Pow2(p.bits) ==> Mix(p, c) < Pow2(p.bits)
    ensures forall c, d :: 0 <= c < d < Pow2(p.bits) ==> Mix(p, c) != Mix(p, d)
    ensures forall v: nat :: Reached(p, Pow2(p.bits), v) <==> v < Pow2(p.bits)
  {
    hide Pow2, Rounds;
    var n := Pow2(p.bits);
    forall c, d | 0 <= c < n && 0 <= d < n
      ensures Mix(p, c) < n && (Mix(p, c) == Mix(p, d) ==> c == d)
    {
      RoundsBijective(p, c, d, p.rounds);
    }
    var image := seq(n, c requires 0 <= c < n => Mix(p, c));
    forall v: nat | v < n
      ensures Reached(p, n, v)
    {
      DistinctBelowIsOnto(image, v);
      var c :| 0 <= c < n && image[c] == v;
    }
  }

  // ---- the order of the outputs ----

  /** The outputs below `max` among the mixes of the first `n` indices. */
  function Emitted(p: Params, n: nat): seq<nat>
    requires p.Valid()
  {
    if n == 0 then []
    else Emitted(p, n - 1) + (if Mix(p, n - 1) < p.max then [Mix(p, n - 1)] else [])
  }

  /** The order in which an iterator visits `[0, max)`. */
  function Order(p: Params): seq<nat>
    requires p.Valid()
  {
    Emitted(p, Pow2(p.bits))
  }

  lemma {:induction false} EmittedMembers(p: Params, n: nat, v: nat)
    requires p.Valid()
    ensures v in Emitted(p, n) <==> v < p.max && Reached(p, n, v)
  {
    hide Mix, Pow2;
    if n > 0 {
      EmittedMembers(p, n - 1, v);
      assert Reached(p, n, v) <==> Reached(p, n - 1, v) || Mix(p, n - 1) == v;
    }
  }

  lemma {:induction false} EmittedDistinct(p: Params, n: nat)
    requires p.Valid() && n <= Pow2(p.bits)
    ensures Distinct(Emitted(p, n))
  {
    hide Pow2, Mix;
    if n > 0 {
      EmittedDistinct(p, n - 1);
      MixBijective(p);
      EmittedMembers(p, n - 1, Mix(p, n - 1));
    }
  }

  lemma {:induction false} EmittedPrefix(p: Params, n: nat, m: nat)
    requires p.Valid() && n <= m
    ensures Emitted(p, n) <= Emitted(p, m)
    decreases m
  {
    hide Mix, Pow2;
    if n < m { EmittedPrefix(p, n, m - 1); }
  }

  /** Every index below `max` is visited exactly once. */
  lemma {:induction false} OrderIsPermutation(p: Params)
    requires p.Valid()
    ensures |Order(p)| == p.max
    ensures Distinct(Order(p))
    ensures forall v: nat :: v in Order(p) <==> v < p.max
  {
    hide Emitted, Mix, Pow2;
    var n := Pow2(p.bits);
    MixBijective(p);
    EmittedDistinct(p, n);
    forall v: nat
      ensures v in Order(p) <==> v < p.max
    {
      EmittedMembers(p, n, v);
    }
    DistinctCoverLength(Order(p), p.max);
  }

  /** The values below `max` come in the order of the indices they are mixed from. */
  lemma {:induction false} OrderFollowsIndices(p: Params, n: nat)
    requires p.Valid() && n <= Pow2(p.bits)
    ensures forall i, j :: 0 <= i < j < |Emitted(p, n)| ==> Unmix(p, Emitted(p, n)[i]) < Unmix(p, Emitted(p, n)[j])
    ensures forall i :: 0 <= i < |Emitted(p, n)| ==> Unmix(p, Emitted(p, n)[i]) < n
  {
    hide Pow2, Mix, Unmix;
    if n > 0 {
      OrderFollowsIndices(p, n - 1);
      MixTakenBack(p, n - 1);
    }
  }

  /** While fewer than `max` outputs have been made, an unused index that mixes below `max`
      is left: the search for the next output cannot run past `2^bits`. */
  lemma {:induction false} UnusedIndexRemains(p: Params, n: nat)
    requires p.Valid() && n <= Pow2(p.bits) && |Emitted(p, n)| < p.max
    ensures n < Pow2(p.bits)
    ensures exists c :: n <= c < Pow2(p.bits) && Mix(p, c) < p.max
  {
    hide Pow2, Mix, Emitted;
    OrderIsPermutation(p);
    MixBijective(p);
    EmittedDistinct(p, n);
    if forall c :: n <= c < Pow2(p.bits) ==> Mix(p, c) >= p.max {
      forall v: nat
        ensures v in Emitted(p, n) <==> v < p.max
      {
        EmittedMembers(p, n, v);
        if v < p.max {
          assert Reached(p, Pow2(p.bits), v);
        }
      }
      DistinctCoverLength(Emitted(p, n), p.max);
    }
  }

  /** `start + v` as an `unsigned long` of `w` bits. */
  function Plus(w: nat, start: nat, v: nat): nat {
    Low(start + v, w)
  }

  /** What `__next__` returns, call by call: the order shifted by `start`. */
  function Outputs(p: Params, start: nat): (r: seq<nat>)
    requires p.Valid()
    ensures |r| == |Order(p)|
  {
    seq(|Order(p)|, k requires 0 <= k < |Order(p)| => Plus(p.w, start, Order(p)[k]))
  }

  lemma {:induction false} PlusInjective(w: nat, start: nat, a: nat, b: nat)
    requires a < Pow2(w) && b < Pow2(w) && Plus(w, start, a) == Plus(w, start, b)
    ensures a == b
  {
    LowAddInjective(a, b, start, w);
    LowOfSmall(a, w);
    LowOfSmall(b, w);
  }

  /** The results are `max` different values, and they are exactly the integers of
      `[start, start + max)` (as `unsigned long`). */
  lemma {:induction false} OutputsOnceEach(p: Params, start: nat)
    requires p.Valid()
    ensures |Outputs(p, start)| == p.max
    ensures Distinct(Outputs(p, start))
    ensures forall v: nat :: v < p.max ==> Plus(p.w, start, v) in Outputs(p, start)
    ensures forall x :: x in Outputs(p, start) ==> exists v: nat :: v < p.max && x == Plus(p.w, start, v)
  {
    hide Pow2, Order, Plus;
    var o: seq<nat>, xs: seq<nat> := Order(p), Outputs(p, start);
    OrderIsPermutation(p);
    Pow2StrictlyMonotone(p.bits, p.w);
    forall i, j | 0 <= i < j < |xs|
      ensures xs[i] != xs[j]
    {
      assert o[i] in o && o[j] in o && o[i] != o[j];
      if xs[i] == xs[j] { PlusInjective(p.w, start, o[i], o[j]); }
    }
    forall v: nat | v < p.max
      ensures Plus(p.w, start, v) in xs
    {
      assert v in o;
      var k :| 0 <= k < |o| && o[k] == v;
      assert xs[k] == Plus(p.w, start, v);
    }
    forall x | x in xs
      ensures exists v: nat :: v < p.max && x == Plus(p.w, start, v)
    {
      var k :| 0 <= k < |xs| && xs[k] == x;
      assert o[k] in o;
    }
  }

  /** Taking `start` off a result and undoing the mix gives its index; the results come in the order of
      these indices. */
  lemma {:induction false} OutputsFollowIndices(p: Params, start: nat)
    requires p.Valid()
    ensures forall i, j :: 0 <= i < j < |Outputs(p, start)| ==>
              Unmix(p, Low(Outputs(p, start)[i] - start, p.w)) < Unmix(p, Low(Outputs(p, start)[j] - start, p.w))
  {
    hide Pow2, Emitted, Low, Unmix;
    var o: seq<nat> := Order(p);
    OrderFollowsIndices(p, Pow2(p.bits));
    OrderIsPermutation(p);
    Pow2StrictlyMonotone(p.bits, p.w);
    forall k | 0 <= k < |o|
      ensures Low(Outputs(p, start)[k] - start, p.w) == o[k]
    {
      assert o[k] in o;
      LowAdd(start + o[k], 0 - start, p.w);
      LowOfSmall(o[k], p.w);
    }
  }

  // ---- the iterator object ----

  /** The bytes drawn for the key table, read as host-order 32-bit words. */
  function SboxWords(b: seq<byte>, n: nat): (r: seq<nat>)
    requires |b| == 4 * n
    ensures |r| == n
  {
    seq(n, k requires 0 <= k < n =>
      b[4 * k] as nat + 0x100 * b[4 * k + 1] as nat + 0x1_0000 * b[4 * k + 2] as nat + 0x100_0000 * b[4 * k + 3] as nat)
  }

  lemma {:induction false} SboxWordBytes(b: seq<byte>, n: nat, k: nat)
    requires |b| == 4 * n && k < n
    ensures var v := SboxWords(b, n)[k];
            && v < 0x1_0000_0000 && v % 0x100 == b[4 * k] && v / 0x100 % 0x100 == b[4 * k + 1]
            && v / 0x1_0000 % 0x100 == b[4 * k + 2] && v / 0x100_0000 == b[4 * k + 3]
  {
    FourDigits(SboxWords(b, n)[k], b[4 * k], b[4 * k + 1], b[4 * k + 2], b[4 * k + 3]);
  }

  class RandXrangeIter {
    const w: nat          // bits of `unsigned long`
    var cur: nat
    var enc: nat
    var max: nat
    var mask: nat
    var start: nat
    var sboxmask: nat
    var sbox: array<nat>
    var left: nat
    var right: nat
    var kshift: nat

    ghost function P(): Params
      reads this, sbox
    {
      Params(w, TEAROUNDS - 1, sbox[..], max, left + right, left, right, mask, sboxmask, kshift)
    }

    /** The counters agree: exactly `cur` of the first `enc` indices mixed below `max`. */
    ghost predicate Valid()
      reads this, sbox
    {
      && P().Valid()
      && enc <= Pow2(P().bits)
      && cur == |Emitted(P(), enc)|
    }

    /** `__init__` with integer arguments, converted to `unsigned long`. */
    constructor (r: Rand.Handle, w: nat, startArg: int, stopArg: int)
      requires r.Valid() && w >= UINT_BITS
      requires Low(stopArg - startArg, w) <= Pow2(30)
      modifies r, r.s
      ensures r.Valid() && r.Value() == Rand.Steps(old(r.Value()), 4 * TEASBOXSIZE)
      ensures fresh(sbox) && sbox[..] == SboxWords(Rand.Stream(old(r.Value()), 4 * TEASBOXSIZE), TEASBOXSIZE)
      ensures this.w == w && start == Low(startArg, w) && max == Low(stopArg - startArg, w)
      ensures P().Valid() && P().rounds == 31
      ensures left == P().bits / 2 && cur == 0 && enc == 0
      ensures P().bits == 0 || Pow2(P().bits - 1) < max
      ensures kshift == (if left < TEASBOXSHIFT then left else TEASBOXSHIFT)
    {
      hide And, Or, Xor, Low, Shl, Shr, Mix, Pow2, SboxWords;
      this.w := w;
      start := Low(startArg, w);
      var m := Low(stopArg - startArg, w);
      max := m;
      var noise := r.Get(4 * TEASBOXSIZE);
      var words := SboxWords(noise, TEASBOXSIZE);
      sbox := new nat[TEASBOXSIZE](k requires 0 <= k < |words| => words[k]);
      var bits := CountBits(m);
      var left' := bits / 2;
      left := left';
      right := bits - left';
      mask := Pow2(bits) - 1;
      ShiftChoice(left');
      if TEASBOXSIZE < Pow2(left') {
        sboxmask := TEASBOXSIZE - 1;
        kshift := TEASBOXSHIFT;
      } else {
        sboxmask := Pow2(left') - 1;
        kshift := left';
      }
      cur, enc := 0, 0;
      new;
      assert sbox[..] == words;
    }

    method Iter()
      requires P().Valid()
      modifies `cur, `enc
      ensures Valid() && cur == 0 && P() == old(P())
    {
      cur, enc := 0, 0;
    }

    /** `__next__`: the next element of the order, or `StopIteration`. */
    method Next() returns (r: Option<nat>)
      requires Valid()
      modifies `cur, `enc
      ensures Valid() && P() == old(P())
      ensures old(cur) <= |Outputs(P(), start)| == max
      ensures r.None? <==> old(cur) == max
      ensures r.None? ==> cur == old(cur) && enc == old(enc)
      ensures r.Some? ==> cur == old(cur) + 1 && r.value == Outputs(P(), start)[old(cur)]
    {
      hide And, Or, Xor, Pow2, Low, Mix;
      ghost var p := P();
      ghost var n := Pow2(p.bits);
      OrderIsPermutation(p);
      EmittedPrefix(p, enc, n);
      if cur == max { return None; }
      cur := cur + 1;
      while true
        invariant P() == p && cur == old(cur) + 1
        invariant enc <= n && old(cur) == |Emitted(p, enc)| < max
        decreases n - enc
      {
        UnusedIndexRemains(p, enc);
        var c := Encipher(enc);
        enc := enc + 1;
        if c < max {
          EmittedPrefix(p, enc, n);
          return Some(Low(start + c, w));
        }
      }
    }

    /** The round loop of `__next__`. */
    method Encipher(enc: nat) returns (c: nat)
      requires P().Valid()
      ensures c == Mix(P(), enc)
    {
      hide And, Or, Xor, Pow2, Low, Shl, Shr;
      ghost var p := P();
      c := enc;
      var sum := 0;
      for i := 1 to TEAROUNDS
        invariant c == Rounds(p, enc, i - 1) && sum == Sum(w, i - 1)
      {
        ghost var c0 := c;
        sum := Low(sum + TEADELTA, w);
        IndexInTable(p, Xor(c, sum));
        c := Xor(c, Low(Shl(sbox[And(Xor(c, sum), sboxmask)], kshift), UINT_BITS));
        assert c == Keyed(p, c0, sum);
        c := Low(c + sum, w);
        c := And(c, mask);
        c := And(Or(Low(Shl(c, left), w), Shr(c, right)), mask);
        assert c == Round(p, c0, sum);
      }
    }

    /** `list(it)`: the first `max` results after `Iter` are the integers of
        `[start, start + max)`, each exactly once, and then the iterator stops. */
    method List() returns (xs: seq<nat>)
      requires P().Valid()
      modifies `cur, `enc
      ensures P() == old(P()) && Valid() && cur == max
      ensures xs == Outputs(P(), start)
    {
      hide And, Or, Xor, Pow2, Low, Mix, Emitted;
      ghost var p := P();
      OutputsOnceEach(p, start);
      Iter();
      xs := [];
      var r := Next();
      while r.Some?
        invariant P() == p && Valid() && |xs| <= max
        invariant r.Some? ==> cur == |xs| + 1 && cur <= max && r.value == Outputs(p, start)[|xs|]
        invariant r.None? ==> cur == |xs| == max
        invariant xs == Outputs(p, start)[..|xs|]
        decreases max - |xs|
      {
        xs := xs + [r.value];
        r := Next();
      }
    }
  }

  /** The loop of `__init__` that finds the least `bits` with `max <= 1 << bits`. */
  method CountBits(max: nat) returns (bits: nat)
    requires max <= Pow2(30)
    ensures bits <= 30 && max <= Pow2(bits) && (bits == 0 || Pow2(bits - 1) < max)
  {
    bits := 0;
    while max > Pow2(bits)
      invariant bits <= 30 && (bits == 0 || Pow2(bits - 1) < max)
      decreases 30 - bits
    {
      if bits == 30 { assert false; }
      bits := bits + 1;
    }
  }

  lemma {:induction false} ShiftChoice(left: nat)
    ensures TEASBOXSIZE == Pow2(TEASBOXSHIFT)
    ensures TEASBOXSIZE < Pow2(left) <==> TEASBOXSHIFT < left
  {
    assert Pow2(7) == 128;
    if left <= 7 { Pow2Monotone(left, 7); } else { Pow2StrictlyMonotone(7, left); }
  }
}
