/** The linear memory that this program shares with the native engine, the
    allocator that hands out blocks of it, and the three helpers the renderer
    uses over it: fill a range, read a range, allocate a zero-filled block.

    The memory is an array of bytes. A typed-array view (`Uint8Array`,
    `Int8Array`) addresses it by index; the helpers follow the typed-array
    methods they call, including the way those methods clamp their start and
    end arguments. */
module Memory {

  /** One cell of the linear memory. */
  newtype byte = x: int | 0 <= x < 256

  /** The byte that an 8-bit typed-array view stores when it is given the
      integer `v`: `v` modulo 2^8. This is the cell's bit pattern for the
      unsigned and for the two's-complement signed view alike. */
  function ToByte(v: int): (b: byte)
    ensures 0 <= v < 256 ==> b as int == v
    ensures (v - b as int) % 256 == 0
  {
    (v % 256) as byte
  }

  /** How a typed-array method turns a start or end argument into an index
      of a view of length `len`: a negative argument counts back from the
      end, and the result is clamped into 0..len. */
  function RelativeIndex(k: int, len: nat): (r: nat)
    ensures r <= len
    ensures 0 <= k <= len ==> r == k
    ensures k < 0 && 0 <= len + k ==> r == len + k
    ensures len + k < 0 ==> r == 0
    ensures len < k ==> r == len
  {
    if k < 0 then (if len + k < 0 then 0 else len + k)
    else if k < len then k
    else len
  }

  /** The contents of the memory `s` after `fill(s, offset, size, v)`:
      the cells from the start index to the end index (as the typed array
      computes them from `offset` and `offset + size`) hold ToByte(v), every
      other cell is as before. */
  function Filled(s: seq<byte>, offset: int, size: int, v: int): (r: seq<byte>)
    ensures |r| == |s|
    ensures forall i :: 0 <= i < |s| ==>
      r[i] == if RelativeIndex(offset, |s|) <= i < RelativeIndex(offset + size, |s|) then ToByte(v) else s[i]
  {
    var lo, hi := RelativeIndex(offset, |s|), RelativeIndex(offset + size, |s|);
    if lo < hi then s[..lo] + seq(hi - lo, _ => ToByte(v)) + s[hi..] else s
  }

  /** `fill`: write `fillValue` into `size` cells from `offset`. */
  method Fill(memory: array<byte>, offset: int, size: int, fillValue: int)
    modifies memory
    ensures memory[..] == Filled(old(memory[..]), offset, size, fillValue)
  {
    var lo, hi := RelativeIndex(offset, memory.Length), RelativeIndex(offset + size, memory.Length);
    forall i | lo <= i < hi {
      memory[i] := ToByte(fillValue);
    }
  }

  /** `getData`: the `size` cells from `offset`, in order, with the range
      clamped the way `subarray` clamps it. */
  function GetData(memory: array<byte>, offset: int, size: int): (r: seq<byte>)
    reads memory
    ensures var lo, hi := RelativeIndex(offset, memory.Length), RelativeIndex(offset + size, memory.Length);
      |r| == (if lo < hi then hi - lo else 0) && forall i :: 0 <= i < |r| ==> r[i] == memory[lo + i]
    ensures 0 <= offset && 0 <= size && offset + size <= memory.Length ==>
      |r| == size && forall i :: 0 <= i < size ==> r[i] == memory[offset + i]
  {
    var lo, hi := RelativeIndex(offset, memory.Length), RelativeIndex(offset + size, memory.Length);
    if lo < hi then memory[lo..hi] else []
  }

  /** `HEAPU8.set(bytes, offset)`: copy `bytes` into the memory at `offset`.
      The typed array throws when the bytes do not fit; callers here always
      copy into a block they have just allocated. */
  method SetBytes(memory: array<byte>, offset: nat, bytes: seq<byte>)
    requires offset + |bytes| <= memory.Length
    modifies memory
    ensures forall i :: 0 <= i < |bytes| ==> memory[offset + i] == bytes[i]
    ensures memory[offset..offset + |bytes|] == bytes
    ensures forall i :: 0 <= i < memory.Length && !(offset <= i < offset + |bytes|) ==> memory[i] == old(memory[i])
  {
    forall i | offset <= i < offset + |bytes| {
      memory[i] := bytes[i - offset];
    }
    assert forall i :: 0 <= i < |bytes| ==> memory[offset..offset + |bytes|][i] == bytes[i];
  }

  lemma FillSetsRange(s: seq<byte>, offset: int, size: int, v: int)
    requires 0 <= offset && 0 <= size && offset + size <= |s|
    ensures forall i :: offset <= i < offset + size ==> Filled(s, offset, size, v)[i] == ToByte(v)
  {
  }

  lemma FillKeepsOutside(s: seq<byte>, offset: int, size: int, v: int)
    requires 0 <= offset && 0 <= size && offset + size <= |s|
    ensures forall i :: 0 <= i < |s| && !(offset <= i < offset + size) ==> Filled(s, offset, size, v)[i] == s[i]
  {
  }

  /** A fill of no cells changes nothing, wherever it starts. */
  lemma FillNothing(s: seq<byte>, offset: int, v: int)
    ensures Filled(s, offset, 0, v) == s
  {
  }

  /** Reading back a range just filled gives `size` copies of the fill value. */
  lemma GetDataAfterFill(memory: array<byte>, s: seq<byte>, offset: int, size: int, v: int)
    requires 0 <= offset && 0 <= size && offset + size <= |s|
    requires memory[..] == Filled(s, offset, size, v)
    ensures |GetData(memory, offset, size)| == size
    ensures forall x :: x in GetData(memory, offset, size) ==> x == ToByte(v)
  {
    var r := GetData(memory, offset, size);
    forall x | x in r ensures x == ToByte(v) {
      var i :| 0 <= i < |r| && r[i] == x;
      assert memory[offset + i] == memory[..][offset + i];
    }
  }

  /** The wasm heap together with its allocator (`malloc` and `free`).
      Address 0 is the null pointer and is never handed out. The memory can
      grow: growing replaces the view with a longer one whose old cells are
      unchanged and whose new cells are 0. */
  class Arena {
    var mem: array<byte>
    /** The live allocations: start address to requested size. */
    var blocks: map<nat, nat>
    /** The lowest address the allocator has not handed out yet. */
    var top: nat

    ghost predicate Valid()
      reads this
    {
      && 1 <= top
      && (forall p :: p in blocks ==> 1 <= p && p + blocks[p] <= mem.Length && p + blocks[p] <= top && p < top)
      && (forall p, q :: p in blocks && q in blocks && p != q ==> p + blocks[p] <= q || q + blocks[q] <= p)
    }

    constructor (initialLength: nat)
      ensures Valid() && blocks == map[] && mem.Length == initialLength && fresh(mem)
    {
      mem := new byte[initialLength];
      blocks := map[];
      top := 1;
    }

    /** `malloc(size)`: a non-null block of `size` cells that overlaps no
        live block; every cell already in the memory keeps its value. */
    method Malloc(size: nat) returns (ptr: nat)
      requires Valid()
      modifies this
      ensures Valid()
      ensures ptr != 0 && ptr !in old(blocks) && blocks == old(blocks)[ptr := size]
      ensures ptr + size <= mem.Length
      ensures forall q :: q in old(blocks) ==> q + old(blocks)[q] <= ptr || ptr + size <= q
      ensures old(mem.Length) <= mem.Length
      ensures forall i :: 0 <= i < old(mem.Length) ==> mem[i] == old(mem[i])
      ensures mem == old(mem) || fresh(mem)
    {
      ptr := top;
      if mem.Length < ptr + size {
        var grown := new byte[ptr + size];
        forall i | 0 <= i < mem.Length {
          grown[i] := mem[i];
        }
        mem := grown;
      }
      blocks := blocks[ptr := size];
      top := ptr + (if size == 0 then 1 else size);
    }

    /** `free(ptr)`: release a live block; freeing the null pointer does
        nothing. Freeing anything else is undefined, so it is excluded. */
    method Free(ptr: nat)
      requires Valid()
      requires ptr == 0 || ptr in blocks
      modifies this
      ensures Valid()
      ensures blocks == old(blocks) - {ptr}
      ensures mem == old(mem)
    {
      if ptr != 0 {
        blocks := blocks - {ptr};
      }
    }
  }

  /** `calloc(num, size)`: allocate `num * size` cells and fill them with 0.
      Returns the allocator's pointer. */
  method Calloc(heap: Arena, num: nat, size: nat) returns (ptr: nat)
    requires heap.Valid()
    modifies heap, heap.mem
    ensures heap.Valid()
    ensures ptr != 0 && ptr !in old(heap.blocks) && heap.blocks == old(heap.blocks)[ptr := num * size]
    ensures ptr + num * size <= heap.mem.Length
    ensures forall q :: q in old(heap.blocks) ==> q + old(heap.blocks)[q] <= ptr || ptr + num * size <= q
    ensures forall i :: ptr <= i < ptr + num * size ==> heap.mem[i] == 0
    ensures old(heap.mem.Length) <= heap.mem.Length
    ensures forall i :: 0 <= i < old(heap.mem.Length) && !(ptr <= i < ptr + num * size) ==> heap.mem[i] == old(heap.mem[i])
    ensures heap.mem == old(heap.mem) || fresh(heap.mem)
  {
    ptr := heap.Malloc(num * size);
    ghost var before := heap.mem[..];
    Fill(heap.mem, ptr, num * size, 0);
    assert forall i :: 0 <= i < heap.mem.Length ==> heap.mem[i] == heap.mem[..][i];
  }
}
