/** CRC-32C as SCTP uses it: `_crc32c` of src/ip-util.c with the table of src/crc32ct.h. */
module Crc32c {
  import opened Memory

  const ROW_0: seq<bv32> := [
    0x00000000, 0xF26B8303, 0xE13B70F7, 0x1350F3F4, 0xC79A971F, 0x35F1141C, 0x26A1E7E8, 0xD4CA64EB,
    0x8AD958CF, 0x78B2DBCC, 0x6BE22838, 0x9989AB3B, 0x4D43CFD0, 0xBF284CD3, 0xAC78BF27, 0x5E133C24]

  const ROW_1: seq<bv32> := [
    0x105EC76F, 0xE235446C, 0xF165B798, 0x030E349B, 0xD7C45070, 0x25AFD373, 0x36FF2087, 0xC494A384,
    0x9A879FA0, 0x68EC1CA3, 0x7BBCEF57, 0x89D76C54, 0x5D1D08BF, 0xAF768BBC, 0xBC267848, 0x4E4DFB4B]

  const ROW_2: seq<bv32> := [
    0x20BD8EDE, 0xD2D60DDD, 0xC186FE29, 0x33ED7D2A, 0xE72719C1, 0x154C9AC2, 0x061C6936, 0xF477EA35,
    0xAA64D611, 0x580F5512, 0x4B5FA6E6, 0xB93425E5, 0x6DFE410E, 0x9F95C20D, 0x8CC531F9, 0x7EAEB2FA]

  const ROW_3: seq<bv32> := [
    0x30E349B1, 0xC288CAB2, 0xD1D83946, 0x23B3BA45, 0xF779DEAE, 0x05125DAD, 0x1642AE59, 0xE4292D5A,
    0xBA3A117E, 0x4851927D, 0x5B016189, 0xA96AE28A, 0x7DA08661, 0x8FCB0562, 0x9C9BF696, 0x6EF07595]

  const ROW_4: seq<bv32> := [
    0x417B1DBC, 0xB3109EBF, 0xA0406D4B, 0x522BEE48, 0x86E18AA3, 0x748A09A0, 0x67DAFA54, 0x95B17957,
    0xCBA24573, 0x39C9C670, 0x2A993584, 0xD8F2B687, 0x0C38D26C, 0xFE53516F, 0xED03A29B, 0x1F682198]

  const ROW_5: seq<bv32> := [
    0x5125DAD3, 0xA34E59D0, 0xB01EAA24, 0x42752927, 0x96BF4DCC, 0x64D4CECF, 0x77843D3B, 0x85EFBE38,
    0xDBFC821C, 0x2997011F, 0x3AC7F2EB, 0xC8AC71E8, 0x1C661503, 0xEE0D9600, 0xFD5D65F4, 0x0F36E6F7]

  const ROW_6: seq<bv32> := [
    0x61C69362, 0x93AD1061, 0x80FDE395, 0x72966096, 0xA65C047D, 0x5437877E, 0x4767748A, 0xB50CF789,
    0xEB1FCBAD, 0x197448AE, 0x0A24BB5A, 0xF84F3859, 0x2C855CB2, 0xDEEEDFB1, 0xCDBE2C45, 0x3FD5AF46]

  const ROW_7: seq<bv32> := [
    0x7198540D, 0x83F3D70E, 0x90A324FA, 0x62C8A7F9, 0xB602C312, 0x44694011, 0x5739B3E5, 0xA55230E6,
    0xFB410CC2, 0x092A8FC1, 0x1A7A7C35, 0xE811FF36, 0x3CDB9BDD, 0xCEB018DE, 0xDDE0EB2A, 0x2F8B6829]

  const ROW_8: seq<bv32> := [
    0x82F63B78, 0x709DB87B, 0x63CD4B8F, 0x91A6C88C, 0x456CAC67, 0xB7072F64, 0xA457DC90, 0x563C5F93,
    0x082F63B7, 0xFA44E0B4, 0xE9141340, 0x1B7F9043, 0xCFB5F4A8, 0x3DDE77AB, 0x2E8E845F, 0xDCE5075C]

  const ROW_9: seq<bv32> := [
    0x92A8FC17, 0x60C37F14, 0x73938CE0, 0x81F80FE3, 0x55326B08, 0xA759E80B, 0xB4091BFF, 0x466298FC,
    0x1871A4D8, 0xEA1A27DB, 0xF94AD42F, 0x0B21572C, 0xDFEB33C7, 0x2D80B0C4, 0x3ED04330, 0xCCBBC033]

  const ROW_A: seq<bv32> := [
    0xA24BB5A6, 0x502036A5, 0x4370C551, 0xB11B4652, 0x65D122B9, 0x97BAA1BA, 0x84EA524E, 0x7681D14D,
    0x2892ED69, 0xDAF96E6A, 0xC9A99D9E, 0x3BC21E9D, 0xEF087A76, 0x1D63F975, 0x0E330A81, 0xFC588982]

  const ROW_B: seq<bv32> := [
    0xB21572C9, 0x407EF1CA, 0x532E023E, 0xA145813D, 0x758FE5D6, 0x87E466D5, 0x94B49521, 0x66DF1622,
    0x38CC2A06, 0xCAA7A905, 0xD9F75AF1, 0x2B9CD9F2, 0xFF56BD19, 0x0D3D3E1A, 0x1E6DCDEE, 0xEC064EED]

  const ROW_C: seq<bv32> := [
    0xC38D26C4, 0x31E6A5C7, 0x22B65633, 0xD0DDD530, 0x0417B1DB, 0xF67C32D8, 0xE52CC12C, 0x1747422F,
    0x49547E0B, 0xBB3FFD08, 0xA86F0EFC, 0x5A048DFF, 0x8ECEE914, 0x7CA56A17, 0x6FF599E3, 0x9D9E1AE0]

  const ROW_D: seq<bv32> := [
    0xD3D3E1AB, 0x21B862A8, 0x32E8915C, 0xC083125F, 0x144976B4, 0xE622F5B7, 0xF5720643, 0x07198540,
    0x590AB964, 0xAB613A67, 0xB831C993, 0x4A5A4A90, 0x9E902E7B, 0x6CFBAD78, 0x7FAB5E8C, 0x8DC0DD8F]

  const ROW_E: seq<bv32> := [
    0xE330A81A, 0x115B2B19, 0x020BD8ED, 0xF0605BEE, 0x24AA3F05, 0xD6C1BC06, 0xC5914FF2, 0x37FACCF1,
    0x69E9F0D5, 0x9B8273D6, 0x88D28022, 0x7AB90321, 0xAE7367CA, 0x5C18E4C9, 0x4F48173D, 0xBD23943E]

  const ROW_F: seq<bv32> := [
    0xF36E6F75, 0x0105EC76, 0x12551F82, 0xE03E9C81, 0x34F4F86A, 0xC69F7B69, 0xD5CF889D, 0x27A40B9E,
    0x79B737BA, 0x8BDCB4B9, 0x988C474D, 0x6AE7C44E, 0xBE2DA0A5, 0x4C4623A6, 0x5F16D052, 0xAD7D5351]

  /** The table `crc_c`, sixteen rows of sixteen entries. */
  function Row(i: nat): (r: seq<bv32>)
    requires i < 16
    ensures |r| == 16
  {
    match i
    case 0 => ROW_0
    case 1 => ROW_1
    case 2 => ROW_2
    case 3 => ROW_3
    case 4 => ROW_4
    case 5 => ROW_5
    case 6 => ROW_6
    case 7 => ROW_7
    case 8 => ROW_8
    case 9 => ROW_9
    case 10 => ROW_A
    case 11 => ROW_B
    case 12 => ROW_C
    case 13 => ROW_D
    case 14 => ROW_E
    case _ => ROW_F
  }

  /** `crc_c[x]` */
  function Entry(x: bv32): bv32
    requires x <= 0xFF
  {
    Row((x >> 4) as int)[(x & 0xF) as int]
  }

  /** Addition of polynomials over two elements. */
  function Plus(a: bv32, b: bv32): bv32 { a ^ b }

  function Word(d: byte): (r: bv32)
    ensures r <= 0xFF
  {
    Octet(d) as bv32
  }

  function Complement(c: bv32): bv32 { !c }

  /** The bytes of `c` in network order. */
  function NetBytes(c: bv32): (r: seq<byte>)
    ensures |r| == 4
  {
    [(c >> 24) as int, ((c >> 16) & 0xFF) as int, ((c >> 8) & 0xFF) as int, (c & 0xFF) as int]
  }

  predicate Odd(c: bv32) { c & 1 == 1 }

  function Half(c: bv32): bv32 { c >> 1 }

  /** One bit of the reflected Castagnoli division. */
  function Step(c: bv32): bv32 {
    if Odd(c) then Plus(Half(c), 0x82F63B78) else Half(c)
  }

  function TwoSteps(c: bv32): bv32 { Step(Step(c)) }

  function FourSteps(c: bv32): bv32 { TwoSteps(TwoSteps(c)) }

  function EightSteps(c: bv32): bv32 { FourSteps(FourSteps(c)) }

  /** The running value: each byte is added to the low end and then divided out bit by bit. */
  function Run(c: bv32, m: seq<byte>): bv32 {
    if m == [] then c else EightSteps(Plus(Run(c, m[..|m| - 1]), Word(m[|m| - 1])))
  }

  /** The CRC of a message: ones to start with, complemented at the end, bytes reversed. */
  function Castagnoli(m: seq<byte>): bv32 {
    ReverseBytes(Complement(Run(0xFFFFFFFF, m)))
  }

  function ReverseBytes(c: bv32): bv32 {
    (c << 24) | ((c & 0xFF00) << 8) | ((c >> 8) & 0xFF00) | (c >> 24)
  }

  // ---- the table holds eight steps of every byte ----

  lemma {:induction false} HalfLinear(a: bv32, b: bv32)
    ensures Half(Plus(a, b)) == Plus(Half(a), Half(b))
    ensures Odd(Plus(a, b)) <==> Odd(a) != Odd(b)
  {
    assert (a ^ b) & 1 == (a & 1) ^ (b & 1);
    assert a & 1 == 0 || a & 1 == 1;
    assert b & 1 == 0 || b & 1 == 1;
  }

  lemma {:induction false} PlusRearranges(x: bv32, y: bv32, p: bv32)
    ensures Plus(Plus(x, p), y) == Plus(Plus(x, y), p)
    ensures Plus(x, Plus(y, p)) == Plus(Plus(x, y), p)
    ensures Plus(Plus(x, p), Plus(y, p)) == Plus(x, y)
  {}

  lemma {:induction false} StepLinear(a: bv32, b: bv32)
    ensures Step(Plus(a, b)) == Plus(Step(a), Step(b))
  {
    hide Plus, Half, Odd;
    HalfLinear(a, b);
    PlusRearranges(Half(a), Half(b), 0x82F63B78);
  }

  /** Eight steps of a sum are the sum of eight steps. */
  lemma {:induction false} EightStepsLinear(a: bv32, b: bv32)
    ensures EightSteps(Plus(a, b)) == Plus(EightSteps(a), EightSteps(b))
  {
    hide TwoSteps, Plus;
    FourStepsLinear(a, b);
    FourStepsLinear(FourSteps(a), FourSteps(b));
  }

  lemma {:induction false} FourStepsLinear(a: bv32, b: bv32)
    ensures FourSteps(Plus(a, b)) == Plus(FourSteps(a), FourSteps(b))
  {
    hide Step, Plus;
    TwoStepsLinear(a, b);
    TwoStepsLinear(TwoSteps(a), TwoSteps(b));
  }

  lemma {:induction false} TwoStepsLinear(a: bv32, b: bv32)
    ensures TwoSteps(Plus(a, b)) == Plus(TwoSteps(a), TwoSteps(b))
  {
    hide Step, Plus;
    StepLinear(a, b);
    StepLinear(Step(a), Step(b));
  }

  lemma {:induction false} Sixteen(k: bv32)
    requires k < 16
    ensures k == 0 || k == 1 || k == 2 || k == 3 || k == 4 || k == 5 || k == 6 || k == 7
         || k == 8 || k == 9 || k == 10 || k == 11 || k == 12 || k == 13 || k == 14 || k == 15
  {}

  /** Four entries of the first row and every fourth one; the others are sums of two of these. */
  lemma {:induction false} FirstFour(j: bv32)
    requires j < 4
    ensures Row(0)[j as int] == EightSteps(j)
  {
    hide EightSteps;
    Four(j);
    StepsOfFew();
  }

  lemma {:induction false} EveryFourth(j: bv32)
    requires j < 4
    ensures Row(0)[4 * j as int] == EightSteps(j << 2)
  {
    hide EightSteps;
    Four(j);
    StepsOfFew();
  }

  lemma {:induction false} StepsOfFew()
    ensures EightSteps(0) == 0 && EightSteps(1) == 0xF26B8303 && EightSteps(2) == 0xE13B70F7
         && EightSteps(3) == 0x1350F3F4 && EightSteps(4) == 0xC79A971F && EightSteps(8) == 0x8AD958CF
         && EightSteps(12) == 0x4D43CFD0
  {}

  lemma {:induction false} Four(j: bv32)
    requires j < 4
    ensures j == 0 || j == 1 || j == 2 || j == 3
  {}

  lemma {:induction false} FirstRowIsSum(i: nat, j: nat)
    requires i < 4 && j < 4
    ensures Row(0)[4 * i + j] == Plus(Row(0)[4 * i], Row(0)[j])
  {
    match i
    case 0 => case 1 => case 2 => case _ =>
  }

  lemma {:induction false} FirstRowHolds(k: bv32)
    requires k < 16
    ensures Row(0)[k as int] == EightSteps(k)
  {
    hide EightSteps, Row, Plus;
    var i, j := k >> 2, k & 3;
    EveryFourth(i);
    FirstFour(j);
    FirstRowIsSum(i as nat, j as nat);
    EightStepsLinear(i << 2, j);
    Pairs(k);
  }

  lemma {:induction false} Pairs(k: bv32)
    requires k < 16
    ensures k == Plus(k >> 2 << 2, k & 3)
    ensures 4 * ((k >> 2) as nat) + (k & 3) as nat == k as nat
  {}

  lemma {:induction false} RowHeads(h: bv32)
    requires h < 16
    ensures Row(h as nat)[0] == EightSteps(h << 4)
  {
    Sixteen(h);
    match h
    case 0 => case 1 => case 2 => case 3 => case 4 => case 5 => case 6 => case 7 =>
    case 8 => case 9 => case 10 => case 11 => case 12 => case 13 => case 14 => case _ =>
  }

  /** Every entry is the sum of the head of its row and the entry of the first row above it. */
  lemma {:induction false} RowIsSum(h: nat, k: nat)
    requires h < 16 && k < 16
    ensures Row(h)[k] == Plus(Row(h)[0], Row(0)[k])
  {
    if h == 0 { PlusZero(Row(0)[k]); } else if h < 8 { EarlyRowIsSum(h, k); } else { LateRowIsSum(h, k); }
  }

  lemma {:induction false} EarlyRowIsSum(h: nat, k: nat)
    requires 1 <= h < 8 && k < 16
    ensures Row(h)[k] == Plus(Row(h)[0], Row(0)[k])
  {
    assert h == 1 || h == 2 || h == 3 || h == 4 || h == 5 || h == 6 || h == 7;
    match k
    case 0 => case 1 => case 2 => case 3 => case 4 => case 5 => case 6 => case 7 =>
    case 8 => case 9 => case 10 => case 11 => case 12 => case 13 => case 14 => case _ =>
  }

  lemma {:induction false} LateRowIsSum(h: nat, k: nat)
    requires 8 <= h < 16 && k < 16
    ensures Row(h)[k] == Plus(Row(h)[0], Row(0)[k])
  {
    match k
    case 0 => case 1 => case 2 => case 3 => case 4 => case 5 => case 6 => case 7 =>
    case 8 => case 9 => case 10 => case 11 => case 12 => case 13 => case 14 => case _ =>
  }

  /** The table is eight steps of its index, throughout. */
  lemma {:induction false} TableHolds(x: bv32)
    requires x <= 0xFF
    ensures Entry(x) == EightSteps(x)
  {
    hide EightSteps, Row, Plus;
    var h, k := x >> 4, x & 0xF;
    FirstRowHolds(k);
    RowHeads(h);
    RowIsSum(h as nat, k as nat);
    EightStepsLinear(h << 4, k);
    Nibbles(x);
  }

  lemma {:induction false} Nibbles(x: bv32)
    ensures x == Plus(x >> 4 << 4, x & 0xF)
  {}

  // ---- the table-driven loop ----

  /** The macro `CRC32C(c, d)` */
  function Crc32cByte(c: bv32, d: byte): (r: bv32)
    ensures r == EightSteps(Plus(c, Word(d)))
  {
    hide EightSteps, Entry, Plus, Word, LowByte, DropByte;
    MacroDividesByte(c, Word(d));
    Plus(DropByte(c), Entry(LowByte(Plus(c, Word(d)))))
  }

  function LowByte(x: bv32): (r: bv32)
    ensures r <= 0xFF
  {
    x & 0xFF
  }

  function DropByte(x: bv32): bv32 { x >> 8 }

  function HighBytes(x: bv32): bv32 { x & 0xFFFFFF00 }

  /** One macro call divides one byte out of the running value. */
  lemma {:induction false} MacroDividesByte(c: bv32, d: bv32)
    requires d <= 0xFF
    ensures Plus(DropByte(c), Entry(LowByte(Plus(c, d)))) == EightSteps(Plus(c, d))
  {
    hide EightSteps, Entry, Plus, LowByte, HighBytes, DropByte;
    var x := Plus(c, d);
    HighAndLow(c, d);
    ByteDivides(x, HighBytes(x), LowByte(x));
  }

  lemma {:induction false} ByteDivides(x: bv32, hi: bv32, lo: bv32)
    requires x == Plus(hi, lo) && LowByte(hi) == 0 && lo <= 0xFF
    ensures EightSteps(x) == Plus(DropByte(hi), Entry(lo))
  {
    hide EightSteps, Entry, Plus, LowByte, DropByte;
    TableHolds(lo);
    EightStepsLinear(hi, lo);
    ClearLowByte(hi);
  }

  lemma {:induction false} HighAndLow(c: bv32, d: bv32)
    requires d <= 0xFF
    ensures var x := Plus(c, d);
            x == Plus(HighBytes(x), LowByte(x)) && DropByte(HighBytes(x)) == DropByte(c) && LowByte(HighBytes(x)) == 0
  {
    hide Plus;
    HighPlusLow(Plus(c, d));
    DropIgnoresByte(c, d);
  }

  lemma {:induction false} HighPlusLow(x: bv32)
    ensures x == Plus(HighBytes(x), LowByte(x))
    ensures DropByte(HighBytes(x)) == DropByte(x) && LowByte(HighBytes(x)) == 0
  {}

  lemma {:induction false} DropIgnoresByte(c: bv32, d: bv32)
    requires d <= 0xFF
    ensures DropByte(Plus(c, d)) == DropByte(c)
  {}

  lemma {:induction false} ClearLowByte(x: bv32)
    requires LowByte(x) == 0
    ensures EightSteps(x) == DropByte(x)
  {}

  /** `_crc32c` */
  method Crc32c(buf: array<byte>, off: nat, len: nat) returns (crc: bv32)
    requires off + len <= buf.Length
    ensures crc == Castagnoli(buf[off..off + len])
  {
    hide EightSteps, Plus, Word, ReverseBytes, Entry;
    var crc32: bv32 := 0xFFFFFFFF;
    for i := 0 to len
      invariant crc32 == Run(0xFFFFFFFF, buf[off..off + i])
    {
      crc32 := Crc32cByte(crc32, buf[off + i]);
      assert buf[off..off + i + 1][..i] == buf[off..off + i];
    }
    crc := SwapResult(Complement(crc32));
  }

  /** The bytes of the result, taken out and put back in the opposite order. */
  method SwapResult(result: bv32) returns (crc: bv32)
    ensures crc == ReverseBytes(result)
  {
    var byte0 := result & 0xFF;
    var byte1 := (result >> 8) & 0xFF;
    var byte2 := (result >> 16) & 0xFF;
    var byte3 := (result >> 24) & 0xFF;
    crc := (byte0 << 24) | (byte1 << 16) | (byte2 << 8) | byte3;
  }

  // ---- properties of the CRC ----

  /** The running value over a concatenation goes on from that of the first part. */
  lemma {:induction false} RunConcatenates(c: bv32, a: seq<byte>, b: seq<byte>)
    ensures Run(c, a + b) == Run(Run(c, a), b)
  {
    hide EightSteps, Plus, Word;
    if b == [] {
      assert a + b == a;
    } else {
      RunConcatenates(c, a, b[..|b| - 1]);
      assert (a + b)[..|a + b| - 1] == a + b[..|b| - 1];
    }
  }

  function Unstep(c: bv32): bv32 {
    if c & 0x80000000 != 0 then ((c ^ 0x82F63B78) << 1) | 1 else c << 1
  }

  lemma {:induction false} ShiftsBack(c: bv32)
    ensures (c >> 1) & 0x80000000 == 0 && ((c >> 1) ^ 0x82F63B78) & 0x80000000 != 0
    ensures c == ((c >> 1) << 1) | (c & 1)
  {}

  lemma {:induction false} EvenBack(c: bv32)
    requires c & 1 != 1
    ensures Unstep(c >> 1) == c
  {
    ShiftsBack(c);
  }

  lemma {:induction false} OddBack(c: bv32)
    requires c & 1 == 1
    ensures Unstep((c >> 1) ^ 0x82F63B78) == c
  {
    ShiftsBack(c);
    assert ((c >> 1) ^ 0x82F63B78) ^ 0x82F63B78 == c >> 1;
  }

  lemma {:induction false} StepReverses(c: bv32)
    ensures Unstep(Step(c)) == c
  {
    hide Unstep;
    if Odd(c) { OddBack(c); } else { EvenBack(c); }
  }

  lemma {:induction false} EightStepsInjective(a: bv32, b: bv32)
    requires EightSteps(a) == EightSteps(b)
    ensures a == b
  {
    hide TwoSteps;
    FourStepsInjective(FourSteps(a), FourSteps(b));
    FourStepsInjective(a, b);
  }

  lemma {:induction false} FourStepsInjective(a: bv32, b: bv32)
    requires FourSteps(a) == FourSteps(b)
    ensures a == b
  {
    hide Step, Unstep;
    TwoStepsInjective(TwoSteps(a), TwoSteps(b));
    TwoStepsInjective(a, b);
  }

  lemma {:induction false} TwoStepsInjective(a: bv32, b: bv32)
    requires TwoSteps(a) == TwoSteps(b)
    ensures a == b
  {
    hide Step, Unstep;
    StepReverses(Step(a));
    StepReverses(Step(b));
    StepReverses(a);
    StepReverses(b);
  }

  lemma {:induction false} PlusInjective(x: bv32, y: bv32, z: bv32)
    ensures Plus(x, z) == Plus(y, z) ==> x == y
    ensures Plus(z, x) == Plus(z, y) ==> x == y
  {
    assert (x ^ z) ^ z == x && (y ^ z) ^ z == y && (z ^ x) ^ z == x && (z ^ y) ^ z == y;
  }

  lemma {:induction false} RunInjective(c: bv32, d: bv32, m: seq<byte>)
    requires Run(c, m) == Run(d, m)
    ensures c == d
  {
    hide EightSteps, Plus, Word;
    if m != [] {
      var p, z := m[..|m| - 1], Word(m[|m| - 1]);
      EightStepsInjective(Plus(Run(c, p), z), Plus(Run(d, p), z));
      PlusInjective(Run(c, p), Run(d, p), z);
      RunInjective(c, d, p);
    }
  }

  lemma {:induction false} WordInjective(x: byte, y: byte)
    requires Word(x) == Word(y)
    ensures x == y
  {
    hide Octet;
    OctetBack(x);
    OctetBack(y);
    assert Octet(x) as bv32 == Octet(y) as bv32;
  }

  lemma {:induction false} ResultInjective(a: bv32, b: bv32)
    requires ReverseBytes(Complement(a)) == ReverseBytes(Complement(b))
    ensures a == b
  {
    hide ReverseBytes, Complement;
    ReversesBack(Complement(a));
    ReversesBack(Complement(b));
    ComplementsBack(a);
    ComplementsBack(b);
  }

  lemma {:induction false} ReversesBack(a: bv32)
    ensures ReverseBytes(ReverseBytes(a)) == a
  {}

  lemma {:induction false} ComplementsBack(a: bv32)
    ensures Complement(Complement(a)) == a
  {}

  function Up(v: bv32): bv32 { v << 8 }

  /** Up to four bytes as one word, the first one lowest. */
  function Packed(x: seq<byte>): bv32 {
    if x == [] then 0 else Plus(Word(x[0]), Up(Packed(x[1..])))
  }

  /** The bits above the lowest `n` bytes. */
  function Above(n: nat): bv32 {
    if n == 0 then 0xFFFFFFFF else Up(Above(n - 1))
  }

  /** A word that `n` bytes can hold. */
  predicate Short(v: bv32, n: nat) { Disjoint(v, Above(n)) }

  predicate Disjoint(v: bv32, m: bv32) { v & m == 0 }

  lemma {:induction false} ShortShifts(v: bv32, n: nat)
    requires Short(v, n)
    ensures Short(Up(v), n + 1)
  {
    ShiftedTogether(v, Above(n));
  }

  lemma {:induction false} ShiftedTogether(v: bv32, m: bv32)
    requires Disjoint(v, m)
    ensures Disjoint(Up(v), Up(m))
  {}

  lemma {:induction false} ShortPlus(u: bv32, v: bv32, n: nat)
    requires Short(u, n) && Short(v, n)
    ensures Short(Plus(u, v), n)
  {
    hide Above, Plus, Disjoint;
    MaskedTogether(u, v, Above(n));
  }

  lemma {:induction false} MaskedTogether(u: bv32, v: bv32, m: bv32)
    requires Disjoint(u, m) && Disjoint(v, m)
    ensures Disjoint(Plus(u, v), m)
  {
    assert (u ^ v) & m == (u & m) ^ (v & m);
  }

  /** One byte fits every length but none. */
  lemma {:induction false} ByteIsShort(d: bv32, n: nat)
    requires d <= 0xFF
    ensures Short(d, n + 1)
  {
    ClearBelow(d, Above(n));
  }

  lemma {:induction false} ClearBelow(d: bv32, m: bv32)
    requires d <= 0xFF
    ensures Disjoint(d, Up(m))
  {}

  lemma {:induction false} AboveThree(n: nat)
    requires n < 4
    ensures Above(n) & 0xFF000000 == 0xFF000000
  {
    assert Above(1) == 0xFFFFFF00 && Above(2) == 0xFFFF0000 && Above(3) == 0xFF000000;
  }

  lemma {:induction false} TopIsClear(v: bv32, m: bv32)
    requires Disjoint(v, m) && m & 0xFF000000 == 0xFF000000
    ensures Disjoint(v, 0xFF000000)
  {}

  /** A word of less than four bytes survives being shifted up. */
  lemma {:induction false} ShiftsUp(v: bv32, n: nat)
    requires n < 4 && Short(v, n)
    ensures LowByte(Up(v)) == 0 && DropByte(Up(v)) == v
  {
    hide Above, Up, LowByte, DropByte, Disjoint;
    AboveThree(n);
    TopIsClear(v, Above(n));
    ShiftsBackDown(v);
  }

  lemma {:induction false} ShiftsBackDown(v: bv32)
    requires Disjoint(v, 0xFF000000)
    ensures LowByte(Up(v)) == 0 && DropByte(Up(v)) == v
  {}

  lemma {:induction false} BytesApart(d: bv32, w: bv32)
    requires d <= 0xFF && LowByte(w) == 0
    ensures LowByte(Plus(d, w)) == d && DropByte(Plus(d, w)) == DropByte(w)
  {}

  lemma {:induction false} PackedIsShort(x: seq<byte>)
    ensures Short(Packed(x), |x|)
  {
    hide Short, Word, Plus, Up;
    if x == [] {
      ZeroIsShort();
    } else {
      PackedIsShort(x[1..]);
      ShortShifts(Packed(x[1..]), |x| - 1);
      ByteIsShort(Word(x[0]), |x| - 1);
      ShortPlus(Word(x[0]), Up(Packed(x[1..])), |x|);
    }
  }

  lemma {:induction false} ZeroIsShort()
    ensures Short(0, 0)
  {}

  lemma {:induction false} PackedParts(x: seq<byte>)
    requires 0 < |x| <= 4
    ensures LowByte(Packed(x)) == Word(x[0]) && DropByte(Packed(x)) == Packed(x[1..])
  {
    hide Plus, Short, LowByte, DropByte, Word, Up;
    PackedIsShort(x[1..]);
    ShiftsUp(Packed(x[1..]), |x| - 1);
    BytesApart(Word(x[0]), Up(Packed(x[1..])));
  }

  lemma {:induction false} PackedInjective(x: seq<byte>, y: seq<byte>)
    requires |x| == |y| <= 4 && Packed(x) == Packed(y)
    ensures x == y
  {
    hide Packed, LowByte, DropByte, Word;
    if x != [] {
      PackedParts(x);
      PackedParts(y);
      WordInjective(x[0], y[0]);
      PackedInjective(x[1..], y[1..]);
      assert x == [x[0]] + x[1..] && y == [y[0]] + y[1..];
    }
  }

  lemma {:induction false} RunFirst(c: bv32, x: seq<byte>)
    requires x != []
    ensures Run(c, x) == Run(EightSteps(Plus(c, Word(x[0]))), x[1..])
  {
    hide EightSteps, Plus, Word;
    assert x == [x[0]] + x[1..];
    RunConcatenates(c, [x[0]], x[1..]);
    assert [x[0]][..0] == [];
  }

  /** Two runs over up to four bytes meet only where the bytes make up for the difference they
      started with. */
  lemma {:induction false} RunsMeet(c: bv32, d: bv32, x: seq<byte>, y: seq<byte>)
    requires |x| == |y| <= 4 && Run(c, x) == Run(d, y)
    ensures Plus(c, d) == Plus(Packed(x), Packed(y))
    decreases |x|
  {
    hide EightSteps, Plus, Word, LowByte, DropByte, Short, Up;
    if x == [] {
      PlusSelf(c);
    } else {
      var u, v, p, q := Packed(x[1..]), Packed(y[1..]), Word(x[0]), Word(y[0]);
      RunFirst(c, x);
      RunFirst(d, y);
      RunsMeet(EightSteps(Plus(c, p)), EightSteps(Plus(d, q)), x[1..], y[1..]);
      EightStepsLinear(Plus(c, p), Plus(d, q));
      PackedIsShort(x[1..]);
      PackedIsShort(y[1..]);
      ShortPlus(u, v, |x| - 1);
      ShiftsUp(Plus(u, v), |x| - 1);
      UpLinear(u, v);
      ClearLowByte(Up(Plus(u, v)));
      EightStepsInjective(Plus(Plus(c, p), Plus(d, q)), Up(Plus(u, v)));
      PlusExchanges(c, p, d, q, Up(u), Up(v));
    }
  }

  lemma {:induction false} PlusSelf(c: bv32)
    ensures Plus(c, c) == 0 && Plus(0, 0) == 0
  {}

  lemma {:induction false} UpLinear(u: bv32, v: bv32)
    ensures Up(Plus(u, v)) == Plus(Up(u), Up(v))
  {
    assert (u ^ v) << 8 == (u << 8) ^ (v << 8);
  }

  lemma {:induction false} PlusExchanges(c: bv32, p: bv32, d: bv32, q: bv32, u: bv32, v: bv32)
    requires Plus(Plus(c, p), Plus(d, q)) == Plus(u, v)
    ensures Plus(c, d) == Plus(Plus(p, u), Plus(q, v))
  {
    hide Plus;
    PlusRegroups(c, p, d, q);
    PlusRegroups(p, u, q, v);
    PlusCancels(Plus(c, d), Plus(p, q));
  }

  lemma {:induction false} PlusRegroups(c: bv32, p: bv32, d: bv32, q: bv32)
    ensures Plus(Plus(c, p), Plus(d, q)) == Plus(Plus(c, d), Plus(p, q))
  {
    hide Plus;
    PlusAssociates(Plus(c, p), d, q);
    PlusMoves(c, p, d);
    PlusAssociates(Plus(c, d), p, q);
  }

  lemma {:induction false} PlusCancels(x: bv32, y: bv32)
    ensures Plus(y, Plus(x, y)) == x
  {}

  /** Damage confined to four bytes in a row always changes the CRC. */
  lemma {:induction false} FourBytesAreDetected(a: seq<byte>, x: seq<byte>, y: seq<byte>, b: seq<byte>)
    requires |x| == |y| <= 4
    ensures Castagnoli(a + x + b) == Castagnoli(a + y + b) <==> x == y
  {
    hide Run, ReverseBytes, Complement, Plus, Packed;
    if Castagnoli(a + x + b) == Castagnoli(a + y + b) {
      var c: bv32 := 0xFFFFFFFF;
      ResultInjective(Run(c, a + x + b), Run(c, a + y + b));
      RunConcatenates(c, a + x, b);
      RunConcatenates(c, a + y, b);
      RunInjective(Run(c, a + x), Run(c, a + y), b);
      RunConcatenates(c, a, x);
      RunConcatenates(c, a, y);
      RunsMeet(Run(c, a), Run(c, a), x, y);
      PlusSelf(Run(c, a));
      PlusIsZero(Packed(x), Packed(y));
      PackedInjective(x, y);
    }
  }

  lemma {:induction false} PlusIsZero(a: bv32, b: bv32)
    requires Plus(a, b) == 0
    ensures a == b
  {
    assert (a ^ b) ^ b == a;
  }

  // ---- a message with its CRC behind it ----

  function Zeros(n: nat): (z: seq<byte>)
    ensures |z| == n
  {
    if n == 0 then [] else [0] + Zeros(n - 1)
  }

  /** Up to four bytes act like zeros on a value that they were added to before. */
  lemma {:induction false} RunOfPacked(c: bv32, x: seq<byte>)
    requires |x| <= 4
    ensures Run(c, x) == Run(Plus(c, Packed(x)), Zeros(|x|))
    decreases |x|
  {
    hide EightSteps, Plus, Word, LowByte, DropByte, Short, Up;
    if x == [] {
      PlusZero(c);
    } else {
      var u, p := Packed(x[1..]), Word(x[0]);
      RunFirst(c, x);
      RunOfPacked(EightSteps(Plus(c, p)), x[1..]);
      PackedIsShort(x[1..]);
      ShiftsUp(u, |x| - 1);
      ClearLowByte(Up(u));
      EightStepsLinear(Plus(c, p), Up(u));
      PlusAssociates(c, p, Up(u));
      RunFirst(Plus(c, Packed(x)), Zeros(|x|));
      WordOfZero(Plus(c, Packed(x)));
      assert Zeros(|x|)[1..] == Zeros(|x| - 1);
    }
  }

  lemma {:induction false} WordOfZero(c: bv32)
    ensures Plus(c, Word(0)) == c
  {}

  lemma {:induction false} WordOfByte(v: bv32)
    requires v <= 0xFF
    ensures Word(v as int) == v
  {
    var u := v as bv8;
    assert u as int == v as int;
    OctetOfInt(u, v as int);
  }

  /** The four bytes that are sent spell the complement of the running value, low byte first. */
  lemma {:induction false} SentBytes(r: bv32)
    ensures Packed(NetBytes(ReverseBytes(Complement(r)))) == Complement(r)
  {
    hide Word, Plus, Up, ReverseBytes;
    var v := Complement(r);
    var x := NetBytes(ReverseBytes(v));
    BytesOfReverse(v);
    WordOfByte(v & 0xFF);
    WordOfByte((v >> 8) & 0xFF);
    WordOfByte((v >> 16) & 0xFF);
    WordOfByte(v >> 24);
    FourPacked(x);
    FromBytes(v);
  }

  lemma {:induction false} BytesOfReverse(v: bv32)
    ensures NetBytes(ReverseBytes(v))
         == [(v & 0xFF) as int, ((v >> 8) & 0xFF) as int, ((v >> 16) & 0xFF) as int, (v >> 24) as int]
  {
    hide ReverseBytes;
    OuterReversed(v);
    InnerReversed(v);
  }

  lemma {:induction false} OuterReversed(v: bv32)
    ensures ReverseBytes(v) >> 24 == v & 0xFF && ReverseBytes(v) & 0xFF == v >> 24
  {}

  lemma {:induction false} InnerReversed(v: bv32)
    ensures (ReverseBytes(v) >> 16) & 0xFF == (v >> 8) & 0xFF
    ensures (ReverseBytes(v) >> 8) & 0xFF == (v >> 16) & 0xFF
  {}

  lemma {:induction false} FourPacked(x: seq<byte>)
    requires |x| == 4
    ensures Packed(x) == Plus(Word(x[0]), Up(Plus(Word(x[1]), Up(Plus(Word(x[2]), Up(Plus(Word(x[3]), Up(0))))))))
  {
    hide Word, Plus, Up;
    assert x[1..][1..] == x[2..] && x[2..][1..] == x[3..] && x[3..][1..] == [];
    assert Packed(x[3..]) == Plus(Word(x[3]), Up(Packed([])));
    assert Packed(x[2..]) == Plus(Word(x[2]), Up(Packed(x[3..])));
    assert Packed(x[1..]) == Plus(Word(x[1]), Up(Packed(x[2..])));
  }

  lemma {:induction false} FromBytes(v: bv32)
    ensures Plus(v & 0xFF, Up(Plus((v >> 8) & 0xFF, Up(Plus((v >> 16) & 0xFF, Up(Plus(v >> 24, Up(0)))))))) == v
  {}

  /** What a receiver of a message with its CRC behind it ends up with, whatever the message is. */
  lemma {:induction false} Residue(m: seq<byte>)
    ensures Run(0xFFFFFFFF, m + NetBytes(Castagnoli(m))) == 0xB798B438
  {
    hide Run, NetBytes, ReverseBytes, Complement, Plus, Packed;
    var r := Run(0xFFFFFFFF, m);
    RunConcatenates(0xFFFFFFFF, m, NetBytes(Castagnoli(m)));
    RunOfPacked(r, NetBytes(Castagnoli(m)));
    SentBytes(r);
    PlusComplement(r);
    RunOfZeros();
  }

  lemma {:induction false} PlusComplement(r: bv32)
    ensures Plus(r, Complement(r)) == 0xFFFFFFFF
  {}

  lemma {:induction false} RunOfZeros()
    ensures Run(0xFFFFFFFF, Zeros(4)) == 0xB798B438
  {
    hide EightSteps, Plus, Word;
    ZeroRuns(0xFFFFFFFF, 4);
    ZeroRuns(EightSteps(0xFFFFFFFF), 3);
    ZeroRuns(EightSteps(EightSteps(0xFFFFFFFF)), 2);
    ZeroRuns(EightSteps(EightSteps(EightSteps(0xFFFFFFFF))), 1);
    OnesDivided();
    assert Zeros(0) == [];
  }

  lemma {:induction false} ZeroRuns(c: bv32, n: nat)
    requires n > 0
    ensures Run(c, Zeros(n)) == Run(EightSteps(c), Zeros(n - 1))
  {
    hide EightSteps, Plus, Word;
    RunFirst(c, Zeros(n));
    WordOfZero(c);
    assert Zeros(n)[1..] == Zeros(n - 1);
  }

  lemma {:induction false} OnesDivided()
    ensures EightSteps(EightSteps(EightSteps(EightSteps(0xFFFFFFFF)))) == 0xB798B438
  {}

  /** The CRC of nothing is 0, that of the digits 1 to 9 the check value of the polynomial with its
      bytes in opposite order. */
  lemma {:induction false} CheckValues()
    ensures Castagnoli([]) == 0
    ensures Castagnoli([0x31, 0x32, 0x33, 0x34, 0x35, 0x36, 0x37, 0x38, 0x39]) == 0x839206E3
  {
    assert Run(0xFFFFFFFF, []) == 0xFFFFFFFF;
    assert ReverseBytes(Complement(0xFFFFFFFF)) == 0 && ReverseBytes(Complement(0x1CF96D7C)) == 0x839206E3;
    hide Run;
    RunOfDigits();
  }

  lemma {:induction false} RunOfDigits()
    ensures Run(0xFFFFFFFF, [0x31, 0x32, 0x33, 0x34, 0x35, 0x36, 0x37, 0x38, 0x39]) == 0x1CF96D7C
  {
    hide EightSteps, Plus, Word;
    DigitSteps();
    RunOfNothing(0xFFFFFFFF);
    RunOneMore([], 0x31, 0xFFFFFFFF, [0x31]);
    RunOneMore([0x31], 0x32, 0x6F0A661C, [0x31, 0x32]);
    RunOneMore([0x31, 0x32], 0x33, 0x8CAA3B9F, [0x31, 0x32, 0x33]);
    RunOneMore([0x31, 0x32, 0x33], 0x34, 0xEF84D04D, [0x31, 0x32, 0x33, 0x34]);
    RunOneMore([0x31, 0x32, 0x33, 0x34], 0x35, 0x09C50B11, [0x31, 0x32, 0x33, 0x34, 0x35]);
    RunOneMore([0x31, 0x32, 0x33, 0x34, 0x35], 0x36, 0xE72EDCCA, [0x31, 0x32, 0x33, 0x34, 0x35, 0x36]);
    RunOneMore([0x31, 0x32, 0x33, 0x34, 0x35, 0x36], 0x37, 0xBECA8E79, [0x31, 0x32, 0x33, 0x34, 0x35, 0x36, 0x37]);
    RunOneMore([0x31, 0x32, 0x33, 0x34, 0x35, 0x36, 0x37], 0x38, 0xEDBD6815,
               [0x31, 0x32, 0x33, 0x34, 0x35, 0x36, 0x37, 0x38]);
    RunOneMore([0x31, 0x32, 0x33, 0x34, 0x35, 0x36, 0x37, 0x38], 0x39, 0x9F787F65,
               [0x31, 0x32, 0x33, 0x34, 0x35, 0x36, 0x37, 0x38, 0x39]);
  }

  lemma {:induction false} RunOfNothing(c: bv32)
    ensures Run(c, []) == c
  {}

  lemma {:induction false} RunOneMore(m: seq<byte>, d: byte, was: bv32, more: seq<byte>)
    requires Run(0xFFFFFFFF, m) == was && more == m + [d]
    ensures Run(0xFFFFFFFF, more) == EightSteps(Plus(was, Word(d)))
  {
    hide EightSteps, Plus, Word;
    assert more[..|more| - 1] == m;
  }

  lemma {:induction false} DigitSteps()
    ensures EightSteps(Plus(0xFFFFFFFF, Word(0x31))) == 0x6F0A661C
         && EightSteps(Plus(0x6F0A661C, Word(0x32))) == 0x8CAA3B9F
         && EightSteps(Plus(0x8CAA3B9F, Word(0x33))) == 0xEF84D04D
         && EightSteps(Plus(0xEF84D04D, Word(0x34))) == 0x09C50B11
         && EightSteps(Plus(0x09C50B11, Word(0x35))) == 0xE72EDCCA
         && EightSteps(Plus(0xE72EDCCA, Word(0x36))) == 0xBECA8E79
         && EightSteps(Plus(0xBECA8E79, Word(0x37))) == 0xEDBD6815
         && EightSteps(Plus(0xEDBD6815, Word(0x38))) == 0x9F787F65
         && EightSteps(Plus(0x9F787F65, Word(0x39))) == 0x1CF96D7C
  {}

  // ---- a wider `unsigned long` ----

  /** The register of `_crc32c` where `unsigned long` has 64 bits: its high and its low word.
      The macro's shift then moves bits of the high word into the low one. */
  datatype Wide = Wide(high: bv32, low: bv32)

  /** The bits that the shift moves across. */
  function Spill(high: bv32): bv32 { high << 24 }

  function WideByte(c: Wide, d: byte): Wide {
    Wide(DropByte(c.high), Plus(Plus(DropByte(c.low), Spill(c.high)), Entry(LowByte(Plus(c.low, Word(d))))))
  }

  function AsOne(c: Wide): bv64 {
    ((c.high as bv64) << 32) | (c.low as bv64)
  }

  /** In 64 bits this is the macro: the value shifted down by a byte, plus the table entry. */
  lemma {:induction false} WideByteIsMacro(c: Wide, d: byte)
    ensures AsOne(WideByte(c, d)) == (AsOne(c) >> 8) ^ (Entry(LowByte(Plus(c.low, Word(d)))) as bv64)
    ensures LowByte(Plus(c.low, Word(d))) as bv64 == (AsOne(c) ^ (Word(d) as bv64)) & 0xFF
  {
    hide Entry, Word;
    ShiftedWhole(c.high, c.low, Entry(LowByte(Plus(c.low, Word(d)))));
    LowOfWhole(c.high, c.low, Word(d));
  }

  lemma {:induction false} ShiftedWhole(high: bv32, low: bv32, e: bv32)
    ensures (((high >> 8) as bv64) << 32) | (((low >> 8) ^ (high << 24) ^ e) as bv64)
         == ((((high as bv64) << 32) | (low as bv64)) >> 8) ^ (e as bv64)
  {}

  lemma {:induction false} LowOfWhole(high: bv32, low: bv32, d: bv32)
    ensures ((low ^ d) & 0xFF) as bv64 == ((((high as bv64) << 32) | (low as bv64)) ^ (d as bv64)) & 0xFF
  {}

  function WideRun(m: seq<byte>): Wide {
    if m == [] then Wide(0xFFFFFFFF, 0xFFFFFFFF) else WideByte(WideRun(m[..|m| - 1]), m[|m| - 1])
  }

  /** The high word after `n` bytes. */
  function HighAfter(n: nat): bv32 {
    if n == 0 then 0xFFFFFFFF else DropByte(HighAfter(n - 1))
  }

  /** What the high word has added to the low word after `n` bytes, whatever the bytes were. */
  function Skew(n: nat): bv32 {
    if n == 0 then 0 else Plus(EightSteps(Skew(n - 1)), Spill(HighAfter(n - 1)))
  }

  lemma {:induction false} WideRunIsSkewed(m: seq<byte>)
    ensures WideRun(m) == Wide(HighAfter(|m|), Plus(Run(0xFFFFFFFF, m), Skew(|m|)))
  {
    hide Spill, EightSteps, Plus, DropByte, LowByte, Word, Entry;
    if m == [] {
      PlusZero(0xFFFFFFFF);
    } else {
      var p, d := m[..|m| - 1], m[|m| - 1];
      WideRunIsSkewed(p);
      SkewedByte(Run(0xFFFFFFFF, p), Skew(|p|), Spill(HighAfter(|p|)), Word(d));
    }
  }

  lemma {:induction false} SkewedByte(c: bv32, s: bv32, h: bv32, d: bv32)
    requires d <= 0xFF
    ensures Plus(Plus(DropByte(Plus(c, s)), h), Entry(LowByte(Plus(Plus(c, s), d))))
         == Plus(EightSteps(Plus(c, d)), Plus(EightSteps(s), h))
  {
    hide EightSteps, Plus, DropByte, LowByte, Entry;
    MacroDividesByte(Plus(c, s), d);
    PlusMoves(DropByte(Plus(c, s)), h, Entry(LowByte(Plus(Plus(c, s), d))));
    PlusMoves(c, s, d);
    EightStepsLinear(Plus(c, d), s);
    PlusAssociates(EightSteps(Plus(c, d)), EightSteps(s), h);
  }

  lemma {:induction false} PlusMoves(a: bv32, b: bv32, c: bv32)
    ensures Plus(Plus(a, b), c) == Plus(Plus(a, c), b)
  {
    hide Plus;
    PlusAssociates(a, b, c);
    PlusCommutes(b, c);
    PlusAssociates(a, c, b);
  }

  lemma {:induction false} PlusCommutes(a: bv32, b: bv32)
    ensures Plus(a, b) == Plus(b, a)
  {}

  lemma {:induction false} PlusAssociates(a: bv32, b: bv32, c: bv32)
    ensures Plus(Plus(a, b), c) == Plus(a, Plus(b, c))
  {}

  lemma {:induction false} PlusZero(a: bv32)
    ensures Plus(a, 0) == a && Plus(0, a) == a
    ensures forall b: bv32 :: Plus(a, b) == a ==> b == 0
  {
    forall b: bv32 | Plus(a, b) == a
      ensures b == 0
    {
      assert (a ^ b) ^ a == b;
    }
  }

  lemma {:induction false} SkewOfFew()
    ensures Skew(1) != 0 && Skew(2) != 0 && Skew(3) != 0 && Skew(4) != 0 && HighAfter(4) == 0
  {
    assert HighAfter(1) == 0x00FFFFFF && HighAfter(2) == 0x0000FFFF && HighAfter(3) == 0x000000FF;
    assert Skew(1) == 0xFF000000;
  }

  lemma {:induction false} SkewStays(n: nat)
    requires n >= 1
    ensures Skew(n) != 0 && (n >= 4 ==> HighAfter(n) == 0)
  {
    hide EightSteps, Plus;
    SkewOfFew();
    if n > 4 {
      SkewStays(n - 1);
      PlusZero(EightSteps(Skew(n - 1)));
      ZeroSteps();
      if EightSteps(Skew(n - 1)) == 0 { EightStepsInjective(Skew(n - 1), 0); }
    }
  }

  lemma {:induction false} ZeroSteps()
    ensures EightSteps(0) == 0
  {}

  /** With a 64-bit `unsigned long` the result is right for the empty message only. */
  lemma {:induction false} WideLongSpoilsCrc(m: seq<byte>)
    ensures ReverseBytes(Complement(WideRun(m).low)) == Castagnoli(m) <==> m == []
  {
    hide EightSteps, Plus, ReverseBytes, Complement, WideByte;
    WideRunIsSkewed(m);
    var c := Run(0xFFFFFFFF, m);
    PlusZero(c);
    if m != [] {
      SkewStays(|m|);
      if ReverseBytes(Complement(WideRun(m).low)) == Castagnoli(m) {
        ResultInjective(WideRun(m).low, c);
      }
    }
  }

  // ---- the polynomial ----

  /** The bits of a word in opposite order. */
  function Mirror(c: bv32): bv32 {
    var a := ((c & 0x55555555) << 1) | ((c >> 1) & 0x55555555);
    var b := ((a & 0x33333333) << 2) | ((a >> 2) & 0x33333333);
    var d := ((b & 0x0F0F0F0F) << 4) | ((b >> 4) & 0x0F0F0F0F);
    ReverseBytes(d)
  }

  /** One step of division by `CRC32C_POLY`, leading bit first. */
  function Divide(c: bv32): bv32 {
    if c & 0x80000000 != 0 then Plus(c << 1, 0x1EDC6F41) else c << 1
  }

  /** A step is division by the Castagnoli polynomial, read from the other end of the word. */
  lemma {:induction false} StepMirrorsDivision(c: bv32)
    ensures Mirror(Step(c)) == Divide(Mirror(c))
  {
    hide Mirror, Plus;
    MirrorOfHalf(c);
    MirrorTopBit(c);
    MirrorLinear(Half(c), 0x82F63B78);
    MirrorOfPoly();
  }

  lemma {:induction false} MirrorTopBit(c: bv32)
    ensures Mirror(c) & 0x80000000 != 0 <==> c & 1 == 1
  {}

  lemma {:induction false} MirrorOfHalf(c: bv32)
    ensures Mirror(c >> 1) == Mirror(c) << 1
  {}

  lemma {:induction false} MirrorLinear(a: bv32, b: bv32)
    ensures Mirror(Plus(a, b)) == Plus(Mirror(a), Mirror(b))
  {}

  lemma {:induction false} MirrorOfPoly()
    ensures Mirror(0x82F63B78) == 0x1EDC6F41
  {}
}
