/** The growable buffer of src/blob.c with its cursor. */
module Blob {
  import opened Memory

  const SEEK_SET := 0
  const SEEK_CUR := 1
  const SEEK_END := 2

  /** A blob as its user sees it: the bytes, the cursor, and how much was allocated. */
  datatype Value = Value(data: seq<byte>, off: nat, size: nat)

  predicate Proper(v: Value) {
    v.off <= |v.data| <= v.size && v.size > 0
  }

  // ---- the operations on values ----

  /** The allocation after room for `need` bytes was made: rounded up when it exceeds the unit. */
  function NewSize(size: nat, need: nat, unit: nat): nat
    requires unit > 0
  {
    if need <= size then size
    else if need > unit then (need / unit + 1) * unit
    else need
  }

  lemma {:induction false} NewSizeIsEnough(size: nat, need: nat, unit: nat)
    requires unit > 0
    ensures size <= NewSize(size, need, unit) && need <= NewSize(size, need, unit)
  {
    assert need == need / unit * unit + need % unit;
  }

  /** None is taken if there is room; else what is needed up to a unit, and beyond that whole units, at
      most one more than is needed. */
  lemma {:induction false} NewSizeRule(size: nat, need: nat, unit: nat) returns (units: nat)
    requires unit > 0
    ensures var n := NewSize(size, need, unit);
            && (need <= size ==> n == size)
            && (size < need <= unit ==> n == need)
            && (size < need && unit < need ==> n == units * unit && need < n <= need + unit)
  {
    units := need / unit + 1;
    assert need == need / unit * unit + need % unit && units * unit == need / unit * unit + unit;
  }

  /** Whether a request for `need` bytes can be met. */
  predicate Granted(v: Value, need: nat, memory: bool) {
    need <= v.size || memory
  }

  function Overwritten(data: seq<byte>, off: nat, d: seq<byte>): seq<byte>
    requires off <= |data|
  {
    data[..off] + d + if off + |d| <= |data| then data[off + |d|..] else []
  }

  function Written(v: Value, d: seq<byte>, memory: bool, unit: nat): Value
    requires Proper(v) && unit > 0
  {
    var need := v.off + |d|;
    if need <= |v.data| then Value(Overwritten(v.data, v.off, d), need, v.size)
    else if Granted(v, need, memory) then Value(Overwritten(v.data, v.off, d), need, NewSize(v.size, need, unit))
    else v
  }

  /** How far the `memmove` of `blob_insert` writes: the end has been moved when it runs, so it moves
      `len` bytes too many. */
  function MoveEnd(v: Value, len: nat): int {
    v.off + len + (|v.data| + len - v.off)
  }

  /** Room for the data and twice the insertion. */
  predicate InsertFits(v: Value, len: nat, unit: nat)
    requires unit > 0
  {
    |v.data| + 2 * len <= NewSize(v.size, |v.data| + len, unit)
  }

  /** An insertion that is refused writes nothing; any other must fit. */
  predicate InsertSafe(v: Value, len: nat, memory: bool, unit: nat)
    requires unit > 0
  {
    Granted(v, |v.data| + len, memory) ==> InsertFits(v, len, unit)
  }

  function Inserted(v: Value, d: seq<byte>, memory: bool, unit: nat): Value
    requires Proper(v) && unit > 0 && InsertSafe(v, |d|, memory, unit)
  {
    var need := |v.data| + |d|;
    if Granted(v, need, memory) then
      Value(v.data[..v.off] + d + v.data[v.off..], v.off + |d|, NewSize(v.size, need, unit))
    else v
  }

  function Deleted(v: Value, len: nat): Value
    requires Proper(v)
  {
    if v.off + len <= |v.data| then v.(data := v.data[..v.off] + v.data[v.off + len..]) else v
  }

  /** What `blob_read` copies out. */
  function Taken(v: Value, len: nat): seq<byte>
    requires Proper(v)
  {
    v.data[v.off..v.off + Least(len, |v.data| - v.off)]
  }

  function Target(v: Value, off: int, whence: int): int {
    if whence == SEEK_CUR then off + v.off else if whence == SEEK_END then off + |v.data| else off
  }

  function Sought(v: Value, off: int, whence: int): Value {
    if 0 <= Target(v, off, whence) <= |v.data| then v.(off := Target(v, off, whence)) else v
  }

  /** Seeking from the start, from the cursor and from the end; outside the data nothing moves. */
  lemma {:induction false} SeekRule(v: Value, o: int)
    requires Proper(v)
    ensures Sought(v, o, 0) == if 0 <= o <= |v.data| then v.(off := o) else v
    ensures Sought(v, o, 1) == Sought(v, v.off + o, 0) && Sought(v, o, 2) == Sought(v, |v.data| + o, 0)
  {}

  predicate MatchAt(data: seq<byte>, d: seq<byte>, i: int) {
    0 <= i && i + |d| <= |data| && data[i..i + |d|] == d
  }

  // ---- the blob ----

  class Blob {
    var base: array<byte>
    var off: nat
    var end: nat
    var size: nat
    /** `bl_size` */
    const unit: nat

    ghost predicate Valid()
      reads this, base
    {
      off <= end <= size && size == base.Length && size > 0 && unit > 0
    }

    ghost function Val(): (v: Value)
      requires Valid()
      reads this, base
      ensures Proper(v)
    {
      Value(base[..end], off, size)
    }

    /** `blob_new` when its allocations succeed */
    constructor (unit: nat)
      requires unit > 0
      ensures Valid() && Val() == Value([], 0, unit) && this.unit == unit && fresh(base)
    {
      this.unit := unit;
      base := new byte[unit];
      off, end, size := 0, 0, unit;
    }

    /** `blob_reserve`; `memory` tells whether `realloc` succeeds. */
    method Reserve(len: nat, memory: bool) returns (ok: bool)
      requires Valid()
      modifies this
      ensures Valid() && off == old(off) && (base == old(base) || fresh(base))
      ensures ok <==> old(end) + len <= old(size) || memory
      ensures end == if ok then old(end) + len else old(end)
      ensures size == if ok then NewSize(old(size), old(end) + len, unit) else old(size)
      ensures base[..old(end)] == old(base[..end])
    {
      NewSizeIsEnough(size, end + len, unit);
      if size < end + len {
        var nsize := end + len;
        if nsize > unit {
          nsize := (nsize / unit + 1) * unit;
        }
        if !memory { return false; }
        var p := new byte[nsize];
        Memmove(p, 0, base, 0, end);
        assert p[..end] == base[..end];
        base, size := p, nsize;
      }
      end := end + len;
      ok := true;
    }

    /** `memcpy` out of the data */
    method Copy(o: nat, n: nat) returns (d: seq<byte>)
      requires o + n <= end <= base.Length
      ensures d == base[..end][o..o + n]
    {
      d := base[o..o + n];
      assert |d| == |base[..end][o..o + n]|;
      assert forall k :: 0 <= k < n ==> d[k] == base[o + k] == base[..end][o..o + n][k];
    }

    /** `blob_read` */
    method Read(len: nat) returns (d: seq<byte>)
      requires Valid()
      modifies `off
      ensures Valid() && d == Taken(old(Val()), len) && Val() == old(Val()).(off := old(off) + |d|)
    {
      var n := if end - off < len then end - off else len;
      d := Copy(off, n);
      off := off + n;
    }

    /** `blob_write` */
    method Write(d: seq<byte>, memory: bool) returns (r: int)
      requires Valid()
      modifies this, base
      ensures Valid() && (base == old(base) || fresh(base))
      ensures Val() == Written(old(Val()), d, memory, unit)
      ensures r == if old(off) + |d| <= old(end) || Granted(old(Val()), old(off) + |d|, memory) then |d| else -1
    {
      ghost var data := base[..end];
      if off + |d| > end {
        var ok := Reserve(off + |d| - end, memory);
        if !ok { return -1; }
      }
      ghost var was := base[..];
      assert was[..|data|] == data;
      Memcpy(base, off, d);
      OverwriteIsSplice(was, data, off, d, end);
      off := off + |d|;
      r := |d|;
    }

    /** `blob_insert` */
    method Insert(d: seq<byte>, memory: bool) returns (r: int)
      requires Valid() && InsertSafe(Val(), |d|, memory, unit)
      modifies this, base
      ensures Valid() && (base == old(base) || fresh(base))
      ensures Val() == Inserted(old(Val()), d, memory, unit)
      ensures r == if Granted(old(Val()), old(end) + |d|, memory) then |d| else -1
    {
      hide NewSize, Splice;
      ghost var data := base[..end];
      var ok := Reserve(|d|, memory);
      if !ok { return -1; }
      PutIn(d, data);
      off := off + |d|;
      r := |d|;
    }

    /** Opens a gap at the cursor and fills it, once the end was moved. */
    method PutIn(d: seq<byte>, ghost data: seq<byte>)
      requires off <= |data| && end == |data| + |d| && end + |d| <= base.Length && base[..|data|] == data
      modifies base
      ensures base[..end] == data[..off] + d + data[off..]
    {
      hide *;
      ghost var was := base[..];
      assert was[..|data|] == data;
      MoveUp(|d|);
      Memcpy(base, off, d);
      InsertIsSplices(was, data, off, d, end);
      assert base[..end] == base[..][..end];
    }

    method MoveUp(len: nat)
      requires off <= end && end + len <= base.Length
      modifies base
      ensures base[..] == Splice(old(base[..]), off + len, old(base[..])[off..end])
    {
      hide *;
      ghost var was := base[..];
      assert base[off..end] == was[off..end];
      if end - off > 0 {
        Memmove(base, off + len, base, off, end - off);
      } else {
        NothingMoved(was, off + len, off, end);
      }
    }

    /** `blob_delete`; the deleted bytes are copied out. */
    method Delete(len: nat) returns (r: int, d: seq<byte>)
      requires Valid()
      modifies this, base
      ensures Valid() && base == old(base)
      ensures Val() == Deleted(old(Val()), len)
      ensures if old(off) + len <= old(end) then r == len && d == Taken(old(Val()), len) else r == -1 && d == []
    {
      if off + len <= end {
        d := Copy(off, len);
        CloseUp(len);
        end := end - len;
        return len, d;
      }
      return -1, [];
    }

    /** Moves what is behind the gap over it. */
    method CloseUp(len: nat)
      requires off + len <= end <= base.Length
      modifies base
      ensures base[..end - len] == old(base[..end])[..off] + old(base[..end])[off + len..]
    {
      hide Splice;
      ghost var was := base[..];
      var n := end - (off + len);
      assert base[off + len..off + len + n] == was[off + len..end];
      Memmove(base, off, base, off + len, n);
      SpliceAt(was, off, was[off + len..end]);
      assert forall k :: 0 <= k < base.Length ==> base[k] == base[..][k];
    }

    /** `blob_seek` */
    method Seek(o: int, whence: int) returns (r: int)
      requires Valid()
      modifies `off
      ensures Valid() && Val() == Sought(old(Val()), o, whence)
      ensures r == if 0 <= Target(old(Val()), o, whence) <= old(end) then off else -1
    {
      var t := o;
      if whence == SEEK_CUR {
        t := t + off;
      } else if whence == SEEK_END {
        t := t + end;
      }
      if t < 0 || t > end { return -1; }
      off := t;
      r := off;
    }

    method Memcmp(i: nat, d: seq<byte>) returns (same: bool)
      requires Valid() && i + |d| <= end
      ensures same <==> MatchAt(Val().data, d, i)
    {
      var s := Copy(i, |d|);
      same := s == d;
    }

    /** `blob_index`: the least match from the cursor on. */
    method Index(d: seq<byte>) returns (i: int)
      requires Valid()
      ensures i == -1 <==> forall k :: off <= k ==> !MatchAt(Val().data, d, k)
      ensures i != -1 ==> off <= i && MatchAt(Val().data, d, i) && forall k :: off <= k < i ==> !MatchAt(Val().data, d, k)
    {
      i := off;
      while i <= end - |d|
        invariant off <= i
        invariant forall k :: off <= k < i ==> !MatchAt(Val().data, d, k)
      {
        var same := Memcmp(i, d);
        if same { return; }
        i := i + 1;
      }
      i := -1;
    }

    /** `blob_rindex`: the greatest match anywhere. */
    method Rindex(d: seq<byte>) returns (i: int)
      requires Valid()
      ensures i == -1 <==> forall k :: !MatchAt(Val().data, d, k)
      ensures i != -1 ==> MatchAt(Val().data, d, i) && forall k :: i < k ==> !MatchAt(Val().data, d, k)
    {
      i := end - |d|;
      while i >= 0
        invariant i >= 0 ==> i + |d| <= end
        invariant forall k :: i < k ==> !MatchAt(Val().data, d, k)
      {
        var same := Memcmp(i, d);
        if same { return; }
        i := i - 1;
      }
      i := -1;
    }
  }

  lemma {:induction false} OverwriteIsSplice(b: seq<byte>, data: seq<byte>, off: nat, d: seq<byte>, end: nat)
    requires |data| <= end <= |b| && b[..|data|] == data && off <= |data| && off + |d| <= end
    requires end == if off + |d| <= |data| then |data| else off + |d|
    ensures Splice(b, off, d)[..end] == Overwritten(data, off, d)
  {}

  lemma {:induction false} NothingMoved(b: seq<byte>, to: nat, off: nat, end: nat)
    requires off == end && end <= |b| && to <= |b|
    ensures Splice(b, to, b[off..end]) == b
  {}

  lemma {:induction false} InsertIsSplices(b: seq<byte>, data: seq<byte>, off: nat, d: seq<byte>, end: nat)
    requires off <= |data| && end == |data| + |d| && end + |d| <= |b| && b[..|data|] == data
    ensures Splice(Splice(b, off + |d|, b[off..end]), off, d)[..end] == data[..off] + d + data[off..]
  {
    hide Splice;
    var n := |d|;
    var moved := Splice(b, off + n, b[off..end]);
    var r := Splice(moved, off, d);
    assert r[..off] == moved[..off] && moved[..off] == moved[..off + n][..off] && b[..off] == b[..off + n][..off];
    assert r[..off] == data[..off] by {
      assert b[..|data|][..off] == b[..off];
    }
    assert r[off..off + n] == d;
    forall k | off + n <= k < end
      ensures r[k] == data[k - n]
    {
      assert r[k] == r[off + n..][k - off - n] == moved[off + n..][k - off - n];
      assert moved[k] == moved[off + n..off + n + |b[off..end]|][k - off - n];
      assert b[k - n] == b[..|data|][k - n];
    }
    assert r[off + n..end] == data[off..];
    assert r[..end] == r[..off] + r[off..off + n] + r[off + n..end];
  }

  // ---- properties ----

  /** An operation and whether memory can be had for it. */
  datatype Op =
    | ReadOp(len: nat)
    | WriteOp(d: seq<byte>, memory: bool)
    | SeekOp(off: int, whence: int)
    | InsertOp(d: seq<byte>, memory: bool)
    | DeleteOp(len: nat)
  {
    /** It writes inside the allocation. */
    predicate Safe(v: Value, unit: nat)
      requires unit > 0
    {
      InsertOp? ==> InsertSafe(v, |d|, memory, unit)
    }
  }

  function Apply(v: Value, op: Op, unit: nat): Value
    requires Proper(v) && unit > 0 && op.Safe(v, unit)
  {
    match op
    case ReadOp(len) => v.(off := v.off + |Taken(v, len)|)
    case WriteOp(d, memory) => Written(v, d, memory, unit)
    case SeekOp(off, whence) => Sought(v, off, whence)
    case InsertOp(d, memory) => Inserted(v, d, memory, unit)
    case DeleteOp(len) => Deleted(v, len)
  }

  /** Every operation keeps the cursor inside the data and the data inside the allocation, which
      never shrinks. */
  lemma {:induction false} ApplyKeepsProper(v: Value, op: Op, unit: nat)
    requires Proper(v) && unit > 0 && op.Safe(v, unit)
    ensures Proper(Apply(v, op, unit)) && v.size <= Apply(v, op, unit).size
  {
    hide NewSize;
    match op
    case ReadOp(len) =>
    case WriteOp(d, memory) => NewSizeIsEnough(v.size, v.off + |d|, unit);
    case SeekOp(off, whence) =>
    case InsertOp(d, memory) => NewSizeIsEnough(v.size, |v.data| + |d|, unit);
    case DeleteOp(len) =>
  }

  /** Every operation of a run is safe where it comes. */
  predicate AllSafe(v: Value, ops: seq<Op>, unit: nat)
    requires Proper(v) && unit > 0
    decreases |ops|
  {
    ops != [] ==>
      ops[0].Safe(v, unit) && (ApplyKeepsProper(v, ops[0], unit); AllSafe(Apply(v, ops[0], unit), ops[1..], unit))
  }

  /** Every run of such operations keeps the bounds too. */
  function Run(v: Value, ops: seq<Op>, unit: nat): (w: Value)
    requires Proper(v) && unit > 0 && AllSafe(v, ops, unit)
    ensures Proper(w) && v.size <= w.size
    decreases |ops|
  {
    if ops == [] then v
    else
      ApplyKeepsProper(v, ops[0], unit);
      Run(Apply(v, ops[0], unit), ops[1..], unit)
  }

  /** The two copies of an insertion stay inside the allocation exactly when it fits. */
  lemma {:induction false} InsertStaysInsideIff(v: Value, len: nat, unit: nat)
    requires Proper(v) && unit > 0
    ensures var size := NewSize(v.size, |v.data| + len, unit);
            (|v.data| + len > v.off ==> MoveEnd(v, len) <= size) && v.off + len <= size <==> InsertFits(v, len, unit)
  {
    hide NewSize;
    NewSizeIsEnough(v.size, |v.data| + len, unit);
  }

  /** Five bytes written to a new blob of eight and three inserted in front of them: the result would
      fit, but the move writes eleven bytes. */
  lemma {:induction false} InsertCanOverrun()
    ensures var v := Sought(Written(Value([], 0, 8), [1, 2, 3, 4, 5], true, 8), 0, SEEK_SET);
            Proper(v) && Granted(v, |v.data| + 3, true) && NewSize(v.size, |v.data| + 3, 8) == 8
            && MoveEnd(v, 3) == 11 && !InsertSafe(v, 3, true, 8)
  {}

  /** Seeking back and deleting undoes an insertion, and yields what was inserted. */
  lemma {:induction false} DeleteUndoesInsert(v: Value, d: seq<byte>, memory: bool, unit: nat)
    requires Proper(v) && unit > 0 && Granted(v, |v.data| + |d|, memory) && InsertFits(v, |d|, unit)
    ensures var w := Sought(Inserted(v, d, memory, unit), v.off, SEEK_SET);
            Proper(w) && Taken(w, |d|) == d && Deleted(w, |d|) == v.(size := w.size)
  {
    hide NewSize;
    ApplyKeepsProper(v, InsertOp(d, memory), unit);
    var w := Sought(Inserted(v, d, memory, unit), v.off, SEEK_SET);
    assert w.data == v.data[..v.off] + d + v.data[v.off..];
    assert w.data[..v.off] + w.data[v.off + |d|..] == v.data;
  }

  /** Inserting what was deleted, where it was, undoes a deletion, given the room that the insertion
      takes. */
  lemma {:induction false} InsertUndoesDelete(v: Value, len: nat, memory: bool, unit: nat)
    requires Proper(v) && unit > 0 && v.off + len <= |v.data| && InsertFits(Deleted(v, len), len, unit)
    ensures Proper(Deleted(v, len)) && Sought(Inserted(Deleted(v, len), Taken(v, len), memory, unit), v.off, SEEK_SET) == v
  {
    hide NewSize;
    var w, d := Deleted(v, len), Taken(v, len);
    NoGrowth(v.size, |w.data| + |d|, unit);
    assert w.data[..v.off] + d + w.data[v.off..] == v.data;
  }

  lemma {:induction false} NoGrowth(size: nat, need: nat, unit: nat)
    requires need <= size && unit > 0
    ensures NewSize(size, need, unit) == size
  {}

  /** What was written is read back from where it was written; nothing in front of it changed, and
      what was behind it is still there. */
  lemma {:induction false} ReadsBackWrite(v: Value, d: seq<byte>, memory: bool, unit: nat)
    requires Proper(v) && unit > 0
    requires v.off + |d| <= |v.data| || Granted(v, v.off + |d|, memory)
    ensures var w := Written(v, d, memory, unit);
            && Proper(w) && w.off == v.off + |d| && w.data[..v.off] == v.data[..v.off]
            && w.data[v.off..w.off] == d && Taken(Sought(w, v.off, SEEK_SET), |d|) == d
            && w.data[w.off..] == if w.off <= |v.data| then v.data[w.off..] else []
  {
    hide NewSize;
    ApplyKeepsProper(v, WriteOp(d, memory), unit);
    var w := Written(v, d, memory, unit);
    assert w.data[v.off..w.off] == d;
  }
}
