/** Writing the enclave image into the enclave's memory regions: `MemoryRegion::fill_from_file` and
    `write_eif_to_regions` of `resource_manager.rs`. */
module EifLoader {
  import opened NeTypes

  /** usize and u64 values stay below this. */
  const U64: nat := 0x1_0000_0000_0000_0000

  datatype Outcome = Written | Overflow | OutOfRegion | ReadFailed

  function Flatten(mem: seq<seq<byte>>): seq<byte> {
    if mem == [] then [] else Flatten(mem[..|mem| - 1]) + mem[|mem| - 1]
  }

  /** One copy of `file` to address `offset`, seen through a window of memory that starts at `base`. */
  function FlatCopy(window: seq<byte>, base: nat, file: seq<byte>, offset: nat): (r: seq<byte>)
    ensures |r| == |window|
  {
    seq(|window|, p requires 0 <= p < |window| =>
      if offset <= base + p < offset + |file| then file[base + p - offset] else window[p])
  }

  /** How far a sequential reader is once memory up to `start` is filled. */
  function Cursor(start: nat, offset: nat, length: nat): nat {
    if start <= offset then 0 else if start - offset <= length then start - offset else length
  }

  lemma FlatCopyAppend(a: seq<byte>, b: seq<byte>, base: nat, file: seq<byte>, offset: nat)
    ensures FlatCopy(a + b, base, file, offset)
         == FlatCopy(a, base, file, offset) + FlatCopy(b, base + |a|, file, offset)
  {}

  lemma {:induction false} FlattenAppend(a: seq<seq<byte>>, b: seq<seq<byte>>)
    ensures Flatten(a + b) == Flatten(a) + Flatten(b)
  {
    if b == [] {
      assert a + b == a;
    } else {
      FlattenAppend(a, b[..|b| - 1]);
      assert (a + b)[..|a + b| - 1] == a + b[..|b| - 1];
    }
  }

  lemma FlattenStep(mem: seq<seq<byte>>, k: nat)
    requires k < |mem|
    ensures Flatten(mem[..k + 1]) == Flatten(mem[..k]) + mem[k]
  {
    assert mem[..k + 1][..k] == mem[..k];
  }

  lemma FlattenSplit(mem: seq<seq<byte>>, k: nat)
    requires k <= |mem|
    ensures Flatten(mem) == Flatten(mem[..k]) + Flatten(mem[k..])
  {
    assert mem == mem[..k] + mem[k..];
    FlattenAppend(mem[..k], mem[k..]);
  }

  /** The address of the first byte of region `k`. */
  function Start(mem: seq<seq<byte>>, k: nat): nat
    requires k <= |mem|
  {
    |Flatten(mem[..k])|
  }

  lemma {:induction false} StartMonotone(mem: seq<seq<byte>>, i: nat, k: nat)
    requires i <= k <= |mem|
    ensures Start(mem, i) <= Start(mem, k)
  {
    if i < k {
      StartMonotone(mem, i, k - 1);
      FlattenStep(mem, k - 1);
    }
  }

  /** Some address computed while visiting region `k` does not fit in 64 bits. */
  ghost predicate Overflows(mem: seq<seq<byte>>, k: nat, file: seq<byte>, offset: nat)
    requires k < |mem|
  {
    offset + |file| >= U64 || (Start(mem, k) < offset + |file| && Start(mem, k) + |mem[k]| >= U64)
  }

  /** The regions before `k` hold the flat copy, the others are as they were. */
  ghost predicate Copied(start: seq<seq<byte>>, mem: seq<seq<byte>>, k: nat, file: seq<byte>, offset: nat)
    requires k <= |start| == |mem|
  {
    mem[k..] == start[k..] && Flatten(mem[..k]) == FlatCopy(Flatten(start[..k]), 0, file, offset)
  }

  class EifFile {
    const data: seq<byte>
    var pos: nat

    constructor (data: seq<byte>, pos: nat)
      ensures this.data == data && this.pos == pos
    {
      this.data, this.pos := data, pos;
    }

    method Rewind()
      modifies this
      ensures pos == 0
    {
      pos := 0;
    }

    /** `read_exact`: all `size` bytes, or failure at end of file. */
    method ReadExact(size: nat) returns (ok: bool, bytes: seq<byte>)
      requires pos <= |data|
      modifies this
      ensures ok <==> old(pos) + size <= |data|
      ensures ok ==> bytes == data[old(pos)..old(pos) + size] && pos == old(pos) + size
      ensures !ok ==> pos == |data|
    {
      if pos + size <= |data| {
        ok, bytes := true, data[pos..pos + size];
        pos := pos + size;
      } else {
        ok, bytes := false, [];
        pos := |data|;
      }
    }
  }

  /** The mapped regions of one enclave, in the order they are given to the driver. */
  class RegionMemory {
    var mem: seq<seq<byte>>

    constructor (mem: seq<seq<byte>>)
      ensures this.mem == mem
    {
      this.mem := mem;
    }

    /** `fill_from_file` on region `k`. */
    method FillFromFile(k: nat, file: EifFile, regionOffset: nat, size: nat) returns (r: Outcome)
      requires k < |mem| && file.pos <= |file.data|
      modifies this, file
      ensures r == if regionOffset + size >= U64 then Overflow
                   else if regionOffset + size > |old(mem)[k]| then OutOfRegion
                   else if old(file.pos) + size > |file.data| then ReadFailed
                   else Written
      ensures r == Written ==> file.pos == old(file.pos) + size
      ensures r == Written ==> mem == old(mem)[k := old(mem)[k][..regionOffset]
        + file.data[old(file.pos)..file.pos] + old(mem)[k][regionOffset + size..]]
      ensures r != Written ==> mem == old(mem)
    {
      if regionOffset + size >= U64 { return Overflow; }
      if regionOffset + size > |mem[k]| { return OutOfRegion; }
      var ok, bytes := file.ReadExact(size);
      if !ok { return ReadFailed; }
      mem := mem[k := mem[k][..regionOffset] + bytes + mem[k][regionOffset + size..]];
      r := Written;
    }

    /** The body of the loop for a region that reaches past the offset. Neither subtraction underflows and the
        fill cannot fail. */
    method FillRegion(k: nat, file: EifFile, offset: nat, total: nat)
      requires k < |mem| && total < offset + |file.data| < U64 && offset < total + |mem[k]| < U64
      requires file.pos == Cursor(total, offset, |file.data|)
      modifies this, file
      ensures mem == old(mem)[k := FlatCopy(old(mem)[k], total, file.data, offset)]
      ensures file.pos == Cursor(total + |mem[k]|, offset, |file.data|)
    {
      var regionOffset: nat := if offset > total then offset - total else 0;
      var fileOffset: nat := if total > offset then total - offset else 0;
      var room: nat, left: nat := |mem[k]| - regionOffset, |file.data| - fileOffset;
      var size := if room < left then room else left;
      var r := FillFromFile(k, file, regionOffset, size);
      assert mem[k] == FlatCopy(old(mem)[k], total, file.data, offset);
    }

    /** `write_eif_to_regions`. The outcome is a write or an overflow, never an out-of-region or a read error.
        It overflows exactly when some address on the way does not fit in 64 bits. A write is one flat copy of
        the file at `offset`; it keeps region sizes, and leaves the file cursor at the end of what fits. An
        overflow leaves a prefix of the regions written and the rest untouched. */
    method WriteEif(file: EifFile, offset: nat) returns (r: Outcome)
      requires |file.data| < U64 && offset < U64
      requires forall i :: 0 <= i < |mem| ==> |mem[i]| < U64
      modifies this, file
      ensures r == Written || r == Overflow
      ensures r == Overflow <==>
        exists k :: 0 <= k < |old(mem)| && Overflows(old(mem), k, file.data, offset)
      ensures |mem| == |old(mem)| && forall i :: 0 <= i < |mem| ==> |mem[i]| == |old(mem)[i]|
      ensures r == Written ==> Flatten(mem) == FlatCopy(Flatten(old(mem)), 0, file.data, offset)
      ensures r == Written ==> file.pos == Cursor(|Flatten(mem)|, offset, |file.data|)
      ensures r == Overflow ==> exists k :: 0 <= k <= |mem| && Copied(old(mem), mem, k, file.data, offset)
    {
      file.Rewind();
      var total := 0;
      var k := 0;
      while k < |mem|
        invariant k <= |mem| == |old(mem)| && Copied(old(mem), mem, k, file.data, offset)
        invariant forall i :: 0 <= i < |mem| ==> |mem[i]| == |old(mem)[i]|
        invariant total == Start(old(mem), k) < U64
        invariant file.pos == Cursor(total, offset, |file.data|)
        invariant forall i :: 0 <= i < k ==> !Overflows(old(mem), i, file.data, offset)
      {
        assert mem[k] == mem[k..][0] == old(mem)[k..][0] == old(mem)[k];
        if offset + |file.data| >= U64 { assert Overflows(old(mem), k, file.data, offset); return Overflow; }
        if total >= offset + |file.data| { break; }
        if total + |mem[k]| >= U64 { assert Overflows(old(mem), k, file.data, offset); return Overflow; }
        ghost var was := mem;
        if total + |mem[k]| > offset {
          FillRegion(k, file, offset, total);
        }
        Advance(old(mem), was, mem, k, file.data, offset, total);
        total := total + |mem[k]|;
        k := k + 1;
      }
      Finish(old(mem), mem, k, file.data, offset);
      r := Written;
    }
  }

  /** One iteration keeps the prefix a flat copy. */
  lemma Advance(start: seq<seq<byte>>, was: seq<seq<byte>>, mem: seq<seq<byte>>, k: nat, file: seq<byte>, offset: nat,
                total: nat)
    requires k < |start| == |was| && total == Start(start, k)
    requires Copied(start, was, k, file, offset)
    requires mem == was[k := FlatCopy(start[k], total, file, offset)]
          || (mem == was && total + |start[k]| <= offset)
    ensures Copied(start, mem, k + 1, file, offset)
    ensures Start(start, k + 1) == total + |start[k]| && |mem[k]| == |start[k]|
  {
    assert was[k] == was[k..][0] && start[k] == start[k..][0];
    assert mem[k] == FlatCopy(start[k], total, file, offset);
    assert mem[..k] == was[..k];
    FlattenStep(mem, k);
    FlattenStep(start, k);
    FlatCopyAppend(Flatten(start[..k]), start[k], 0, file, offset);
    assert mem[k + 1..] == was[k..][1..] && start[k + 1..] == start[k..][1..];
  }

  /** A prefix that reaches past the end of the file, or is everything, completes the copy. */
  lemma Finish(start: seq<seq<byte>>, mem: seq<seq<byte>>, k: nat, file: seq<byte>, offset: nat)
    requires k <= |start| == |mem| && Copied(start, mem, k, file, offset)
    requires k == |mem| || Start(start, k) >= offset + |file|
    ensures Flatten(mem) == FlatCopy(Flatten(start), 0, file, offset)
    ensures Cursor(|Flatten(mem)|, offset, |file|) == Cursor(Start(start, k), offset, |file|)
    ensures k < |mem| ==> forall i :: k <= i < |mem| ==> Start(start, i) >= offset + |file|
  {
    FlattenSplit(start, k);
    FlattenSplit(mem, k);
    FlatCopyAppend(Flatten(start[..k]), Flatten(start[k..]), 0, file, offset);
    assert FlatCopy(Flatten(start[k..]), Start(start, k), file, offset) == Flatten(start[k..]);
    forall i | k <= i < |mem| ensures Start(start, i) >= Start(start, k) { StartMonotone(start, k, i); }
  }
}
