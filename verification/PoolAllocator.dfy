/** The memory pool: blocks are cut one after the other from the newest chunk, never given back one
    by one, and a block is resized in place only when it is the last one cut. */
module PoolAllocator {
  import opened Encodings

  type Size = n: nat | n < SIZE_LIMIT

  /** A sum of 64-bit unsigned integers. */
  function Sum(a: Size, b: Size): Size {
    if a + b < SIZE_LIMIT then a + b else a + b - SIZE_LIMIT
  }

  lemma SumIsModular(added: nat, a: Size)
    ensures Sum(added % SIZE_LIMIT, a) == (added + a) % SIZE_LIMIT
  {
  }

  /** What a client may count on for a block of some size. */
  function Align(size: nat): (r: nat)
    ensures size <= r < size + 8 && r % 8 == 0
  {
    (size + 7) / 8 * 8
  }

  /** What the allocator reckons with: a 64-bit sum, with the low three bits masked off. */
  function Aligned(size: Size): (r: Size)
    ensures r % 8 == 0 && r == if Align(size) < SIZE_LIMIT then Align(size) else 0
  {
    Sum(size, 7) / 8 * 8
  }

  const MODERATE: Size := SIZE_LIMIT / 8

  /** Three machine words: the capacity, the size in use, and the link to the next chunk. */
  const HEADER: Size := 24

  /** A chunk and its memory, of which the first bytes are the header's own. */
  class Chunk {
    const data: array<Byte>
    const capacity: Size
    var size: Size

    constructor (data: array<Byte>, capacity: Size)
      ensures this.data == data && this.capacity == capacity && size == 0
    {
      this.data, this.capacity, this.size := data, capacity, 0;
    }
  }

  datatype Pointer = NullPointer | Address(chunk: Chunk, offset: Size)

  /** A stretch of memory that was promised to a client and not cleared since. */
  datatype Block = Block(chunk: Chunk, offset: Size, size: nat)

  predicate Apart(a: Block, b: Block) {
    a.chunk != b.chunk || a.offset + a.size <= b.offset || b.offset + b.size <= a.offset
  }

  ghost predicate Inside(b: Block)
    reads b.chunk
  {
    b.size > 0 && b.offset % 8 == 0 && b.offset + b.size <= b.chunk.size
  }

  ghost predicate Sane(c: Chunk)
    reads c
  {
    c.data.Length == HEADER + c.capacity < SIZE_LIMIT && c.size <= c.capacity && c.size % 8 == 0
  }

  /** The block is part of its chunk's memory, behind the header. */
  predicate Fits(b: Block) {
    HEADER + b.offset + b.size <= b.chunk.data.Length
  }

  predicate Separate(a: Block, b: Block) {
    a.chunk.data != b.chunk.data || (a.chunk == b.chunk && Apart(a, b))
  }

  ghost function Bytes(b: Block): seq<Byte>
    requires Fits(b)
    reads b.chunk.data
  {
    b.chunk.data[HEADER + b.offset..HEADER + b.offset + b.size]
  }

  ghost function TotalSize(cs: seq<Chunk>): nat
    reads cs
  {
    if cs == [] then 0 else cs[0].size + TotalSize(cs[1..])
  }

  ghost function TotalCapacity(cs: seq<Chunk>): nat {
    if cs == [] then 0 else cs[0].capacity + TotalCapacity(cs[1..])
  }

  /** Copies between stretches that do not overlap. */
  method CopyMemory(from: array<Byte>, start: nat, to: array<Byte>, at: nat, n: nat)
    requires start + n <= from.Length && at + n <= to.Length
    requires from != to || start + n <= at || at + n <= start
    modifies to
    ensures to[at..at + n] == old(from[start..start + n])
    ensures forall i | 0 <= i < to.Length && !(at <= i < at + n) :: to[i] == old(to[i])
  {
    var k := 0;
    while k < n
      invariant k <= n && from[start..start + n] == old(from[start..start + n])
      invariant to[at..at + k] == old(from[start..start + k])
      invariant forall i | 0 <= i < to.Length && !(at <= i < at + k) :: to[i] == old(to[i])
    {
      to[at + k] := from[start + k];
      assert from[start..start + n][k] == from[start + k];
      k := k + 1;
    }
  }

  class MemoryPool {
    const chunkCapacity: Size
    const userBuffer: Chunk?
    var chunks: seq<Chunk>
    ghost var live: set<Block>

    /** Chunks and their memories are distinct, no chunk is filled beyond its capacity, and the live
        blocks lie inside their chunks, pairwise apart. */
    ghost predicate Valid()
      reads this, chunks
    {
      && (forall i, j | 0 <= i < j < |chunks| :: chunks[i] != chunks[j] && chunks[i].data != chunks[j].data)
      && (forall c | c in chunks :: Sane(c))
      && (forall b | b in live :: b.chunk in chunks && Inside(b))
      && (forall a, b | a in live && b in live && a != b :: Apart(a, b))
      && (userBuffer != null ==> chunks != [] && chunks[|chunks| - 1] == userBuffer)
    }

    ghost function Memories(): set<array<Byte>>
      reads this
    {
      set c | c in chunks :: c.data
    }

    /** Everything that belongs to the pool. */
    ghost function Repr(): set<object>
      reads this
    {
      {this} + (set o: object | o in chunks) + (set o: object | o in Memories())
    }

    constructor (chunkCapacity: Size)
      ensures Valid() && live == {} && chunks == [] && this.chunkCapacity == chunkCapacity
    {
      this.chunkCapacity, userBuffer, chunks, live := chunkCapacity, null, [], {};
    }

    /** The first chunk is the caller's buffer, whose first bytes become the header. */
    constructor WithBuffer(buffer: array<Byte>, chunkCapacity: Size)
      requires HEADER < buffer.Length < SIZE_LIMIT
      ensures Valid() && live == {} && this.chunkCapacity == chunkCapacity
      ensures |chunks| == 1 && chunks[0] == userBuffer && chunks[0].data == buffer && fresh(chunks[0])
      ensures chunks[0].capacity == buffer.Length - HEADER
    {
      var first := new Chunk(buffer, buffer.Length - HEADER);
      this.chunkCapacity, userBuffer, chunks, live := chunkCapacity, first, [first], {};
    }

    // -------------------------------------------------------------- what a call is going to do

    /** The newest chunk has no room for a block, or so its 64-bit sum says. */
    predicate NeedsChunk(size: Size)
      reads this, chunks
    {
      chunks == [] || Sum(chunks[0].size, Aligned(size)) > chunks[0].capacity
    }

    function ChunkFor(size: Size): Size {
      if chunkCapacity > Aligned(size) then chunkCapacity else Aligned(size)
    }

    /** A new chunk is asked for exactly when there is none yet or the block is larger than what the newest one has
        left, as long as the sizes fit 64 bits; and it is as large as the block or the pool's chunks, whichever is
        larger. */
    lemma RoomDecides(size: Size)
      requires Align(size) < SIZE_LIMIT && (chunks != [] ==> chunks[0].size + Align(size) < SIZE_LIMIT)
      ensures NeedsChunk(size) <==> chunks == [] || chunks[0].size + Align(size) > chunks[0].capacity
      ensures chunkCapacity <= ChunkFor(size) && Align(size) <= ChunkFor(size)
      ensures ChunkFor(size) == chunkCapacity || ChunkFor(size) == Align(size)
    {
    }

    /** Malloc gives a pointer: no bytes are not asked for, and a chunk that is needed is to be had.
        The base allocator gives nothing for no bytes. */
    predicate Served(size: Size, available: bool)
      reads this, chunks
    {
      size > 0 && (NeedsChunk(size) ==> available && Sum(HEADER, ChunkFor(size)) > 0)
    }

    /** One of the sums of a Malloc does not fit 64 bits: the aligned size, the size of a new chunk with its
        header, or the size in use in the newest one. */
    predicate Wraps(size: Size)
      reads this, chunks
    {
      || Align(size) >= SIZE_LIMIT
      || (if NeedsChunk(size) then HEADER + ChunkFor(size) >= SIZE_LIMIT
          else chunks[0].size + Align(size) >= SIZE_LIMIT)
    }

    /** The block is the last one cut from the newest chunk. */
    predicate IsLast(p: Pointer, original: nat)
      requires p.Address?
      reads this, chunks
    {
      chunks != [] && p.chunk == chunks[0] && p.offset + original == chunks[0].size
    }

    /** The same for a Realloc, whose further sum is that of the grown block. */
    predicate ReallocWraps(p: Pointer, originalSize: Size, newSize: Size, available: bool)
      reads this, chunks
    {
      if p.NullPointer? then Served(newSize, available) && Wraps(newSize)
      else
        && newSize > 0
        && (Align(newSize) >= SIZE_LIMIT || GrowthWraps(p, Aligned(originalSize), Aligned(newSize), available))
    }

    predicate GrowthWraps(p: Pointer, original: Size, wanted: Size, available: bool)
      requires p.Address?
      reads this, chunks
    {
      && original < wanted
      && if IsLast(p, original) && Sum(chunks[0].size, wanted - original) <= chunks[0].capacity
         then chunks[0].size + (wanted - original) >= SIZE_LIMIT
         else Served(wanted, available) && Wraps(wanted)
    }

    /** No chunk is larger than this, nor will be. */
    ghost predicate Moderate() reads this {
      chunkCapacity <= MODERATE && forall c | c in chunks :: c.capacity <= MODERATE
    }

    /** No request up to an eighth of the address space wraps while no chunk is larger either. */
    lemma ModerateNeverWraps(p: Pointer, originalSize: Size, newSize: Size, available: bool)
      requires Valid() && Moderate() && newSize <= MODERATE
      ensures !Wraps(newSize) && !ReallocWraps(p, originalSize, newSize, available)
    {
      assert chunks != [] ==> Sane(chunks[0]) && chunks[0].capacity <= MODERATE;
    }

    twostate lemma ModerateStays(size: Size)
      requires old(Moderate()) && size <= MODERATE && NewChunksOnly(old(chunks), size)
      ensures Moderate()
    {
    }

    // -------------------------------------------------------------- the operations

    /** The size of a chunk with its header is a 64-bit sum; the base allocator gives nothing for no bytes. */
    method AddChunk(capacity: Size, available: bool) returns (ok: bool)
      requires Valid()
      modifies this
      ensures live == old(live) && (ok <==> available && Sum(HEADER, capacity) > 0)
      ensures Valid() <==> !ok || HEADER + capacity < SIZE_LIMIT
      ensures !ok ==> chunks == old(chunks)
      ensures ok ==> |chunks| > 0 && chunks[1..] == old(chunks) && chunks[0].size == 0
                     && chunks[0].capacity == capacity && chunks[0].data.Length == Sum(HEADER, capacity)
                     && fresh(chunks[0]) && fresh(chunks[0].data)
    {
      var bytes := Sum(HEADER, capacity);
      if !available || bytes == 0 {
        return false;
      }
      var data := new Byte[bytes];
      var chunk := new Chunk(data, capacity);
      chunks := [chunk] + chunks;
      assert forall c | c in chunks[1..] :: Sane(c);
      assert Valid() ==> Sane(chunks[0]);
      return true;
    }

    /** Cuts a block from the newest chunk, which has room for it, or so its 64-bit sum says.  The pool stays
        as it should be exactly when that sum does not wrap. */
    method Cut(size: Size) returns (p: Pointer)
      requires chunks != [] && size > 0
      requires Valid() || chunks[0].data.Length != HEADER + chunks[0].capacity
      requires Valid() ==> Sum(chunks[0].size, Aligned(size)) <= chunks[0].capacity
      modifies this`live, chunks[0]
      ensures p == Address(chunks[0], old(chunks[0].size))
      ensures chunks[0].size == Sum(old(chunks[0].size), Aligned(size))
      ensures live == old(live) + {Block(p.chunk, p.offset, Align(size))}
      ensures Valid() <==> old(Valid()) && old(chunks[0].size) + Align(size) < SIZE_LIMIT
      ensures Valid() ==> Block(p.chunk, p.offset, Align(size)) !in old(live)
      ensures Valid() ==> TotalSize(chunks) == old(TotalSize(chunks)) + Align(size)
    {
      var head := chunks[0];
      p := Address(head, head.size);
      ghost var b := Block(head, head.size, Align(size));
      ghost var fits := Valid() && head.size + Align(size) < SIZE_LIMIT;
      if fits {
        forall a | a in live
          ensures Inside(a) && Apart(a, b)
        {
        }
      }
      head.size := Sum(head.size, Aligned(size));
      live := live + {b};
      if fits {
        BlockAdded(b);
      } else {
        assert b in live && (old(Valid()) ==> !Inside(b));
      }
    }

    /** The newest chunk was filled up by a block that is now live too. */
    twostate lemma BlockAdded(b: Block)
      requires old(Valid()) && chunks == old(chunks) != [] && b.chunk == chunks[0] && b.size > 0 && b.size % 8 == 0
      requires b.offset == old(chunks[0].size) && chunks[0].size == b.offset + b.size <= chunks[0].capacity
      requires forall c | c in chunks[1..] :: c.size == old(c.size)
      requires live == old(live) + {b}
      ensures Valid() && b !in old(live) && TotalSize(chunks) == old(TotalSize(chunks)) + b.size
    {
      assert chunks[0] !in chunks[1..] && old(Sane(chunks[0])) && Inside(b);
      forall a | a in old(live)
        ensures a.chunk in chunks && Inside(a) && Apart(a, b)
      {
        assert old(Inside(a));
      }
      forall c | c in chunks
        ensures Sane(c)
      {
        assert old(Sane(c));
      }
      assert forall a | a in live :: a == b || a in old(live);
      SizeUnchanged(chunks[1..]);
    }

    /** No block for size 0, or when a chunk is needed and the base allocator has none.  Otherwise a block
        behind everything in use in the newest chunk.  The pool stays as it should be exactly when no sum of
        the call wraps; and then the block is new, apart from every live one, and exactly its aligned size
        more is in use. */
    method Malloc(size: Size, available: bool) returns (p: Pointer)
      requires Valid()
      modifies this, chunks
      ensures p.Address? <==> old(Served(size, available))
      ensures Valid() <==> !old(Served(size, available) && Wraps(size))
      ensures p.NullPointer? ==> live == old(live) && chunks == old(chunks) && TotalSize(chunks) == old(TotalSize(chunks))
      ensures p.Address? ==>
                && chunks != [] && p.chunk == chunks[0] && chunks[0].size == Sum(p.offset, Aligned(size))
                && (if old(NeedsChunk(size))
                    then p.offset == 0 && chunks[1..] == old(chunks) && chunks[0].capacity == ChunkFor(size)
                         && chunks[0].data.Length == Sum(HEADER, ChunkFor(size)) && fresh(chunks[0]) && fresh(chunks[0].data)
                    else p.offset == old(chunks[0].size) && chunks == old(chunks))
                && live == old(live) + {Block(p.chunk, p.offset, Align(size))}
      ensures p.Address? && Valid() ==>
                && Block(p.chunk, p.offset, Align(size)) !in old(live)
                && TotalSize(chunks) == old(TotalSize(chunks)) + Align(size)
    {
      if size == 0 {
        return NullPointer;
      }
      var aligned := Aligned(size);
      if |chunks| == 0 || Sum(chunks[0].size, aligned) > chunks[0].capacity {
        var ok := AddChunk(if chunkCapacity > aligned then chunkCapacity else aligned, available);
        if !ok {
          return NullPointer;
        }
      }
      p := Cut(size);
    }

    /** Resizes a live block.  The caller's size may be smaller than what the block occupies.  The pool stays
        as it should be exactly when no sum of the call wraps; and then every block that was live keeps its
        bytes and every chunk its header, and a non-null result holds the first `originalSize` bytes of the old
        block, aligned. */
    method Realloc(p: Pointer, originalSize: Size, newSize: Size, available: bool, ghost b: Option<Block>)
      returns (q: Pointer, ghost nb: Option<Block>)
      requires Valid()
      requires p.Address? ==>
                 b.Some? && b.value in live && p == Address(b.value.chunk, b.value.offset)
                 && Align(originalSize) <= b.value.size
      modifies this, chunks, Memories()
      ensures Valid() <==> !old(ReallocWraps(p, originalSize, newSize, available))
      ensures p.Address? && newSize > 0 && Align(newSize) >= SIZE_LIMIT ==>
                q == p && chunks == old(chunks) && forall c | c in chunks :: c.size == old(c.size)
      ensures newSize == 0 ==> q.NullPointer?
      ensures q.NullPointer? ==> newSize == 0 || !available || Sum(HEADER, ChunkFor(newSize)) == 0
      ensures q.NullPointer? ==> Valid() && live == old(live) && TotalSize(chunks) == old(TotalSize(chunks))
      ensures NewChunksOnly(old(chunks), newSize)
      ensures Valid() ==>
                && (forall x | x in old(live) :: Bytes(x) == old(Bytes(x)))
                && (forall c | c in old(chunks) :: c.data[..HEADER] == old(c.data[..HEADER]))
      ensures Valid() && q.Address? ==>
                nb.Some? && nb.value in live && q == Address(nb.value.chunk, nb.value.offset)
                && nb.value.size >= Align(newSize)
      ensures Valid() && p.Address? && newSize > 0 ==>
                (q == p <==> || Align(originalSize) >= Align(newSize)
                             || old(p.chunk == chunks[0] && p.offset + Align(originalSize) == chunks[0].size
                                    && p.offset + Align(newSize) <= chunks[0].capacity))
      ensures Valid() && q.Address? && p.Address? ==>
                Align(originalSize) <= nb.value.size
                && Bytes(nb.value)[..Align(originalSize)] == old(Bytes(b.value))[..Align(originalSize)]
      ensures Valid() && q.Address? && q == p ==>
                live == old(live) - {b.value} + {nb.value}
                && TotalSize(chunks) - old(TotalSize(chunks)) == nb.value.size - b.value.size
      ensures Valid() && q.Address? && q != p ==>
                live == old(live) + {nb.value} && nb.value !in old(live)
                && TotalSize(chunks) == old(TotalSize(chunks)) + nb.value.size
    {
      nb := None;
      if p.NullPointer? {
        q := Malloc(newSize, available);
        if q.Address? {
          nb := Some(Block(q.chunk, q.offset, Align(newSize)));
        }
        return;
      }
      if newSize == 0 {
        return NullPointer, nb;
      }
      assert Inside(b.value) && Sane(b.value.chunk);
      var original, wanted := Aligned(originalSize), Aligned(newSize);
      if original >= wanted {
        nb := b;
        if Align(newSize) >= SIZE_LIMIT {
          ghost var promised := Promise(b.value, newSize);
          nb := Some(promised);
        } else {
          assert live - {b.value} + {b.value} == live;
        }
        return p, nb;
      }
      ghost var block;
      q, block := Resize(p, original, wanted, available, b.value);
      nb := Some(block);
    }

    /** A block's client may count on a size that the block does not have. */
    ghost method Promise(b: Block, newSize: Size) returns (nb: Block)
      requires Valid() && b in live && Align(newSize) >= SIZE_LIMIT
      modifies this`live
      ensures nb == Block(b.chunk, b.offset, Align(newSize)) && live == old(live) - {b} + {nb} && !Valid()
    {
      assert Inside(b);
      nb := Block(b.chunk, b.offset, Align(newSize));
      live := live - {b} + {nb};
      assert !Inside(nb);
    }

    /** A chunk that the pool did not have is new and as large as a Malloc asks for. */
    twostate predicate NewChunksOnly(before: seq<Chunk>, size: Size)
      reads this
    {
      forall c | c in chunks && c !in before :: fresh(c) && fresh(c.data) && c.capacity == ChunkFor(size)
    }

    /** The same for a block that has to grow, sizes aligned. */
    method Resize(p: Pointer, original: Size, wanted: Size, available: bool, ghost b: Block)
      returns (q: Pointer, ghost nb: Block)
      requires Valid() && original < wanted && Aligned(wanted) == wanted && original % 8 == 0
      requires b in live && p == Address(b.chunk, b.offset) && original <= b.size
      modifies this, chunks, Memories()
      ensures Valid() <==> !old(GrowthWraps(p, original, wanted, available))
      ensures NewChunksOnly(old(chunks), wanted)
      ensures q.NullPointer? ==> !available || Sum(HEADER, ChunkFor(wanted)) == 0
      ensures q.NullPointer? ==> Valid() && live == old(live) && TotalSize(chunks) == old(TotalSize(chunks))
      ensures Valid() ==> (q == p <==> old(IsLast(p, original) && p.offset + wanted <= chunks[0].capacity))
      ensures Valid() ==>
                && (forall c | c in old(chunks) :: c.data[..HEADER] == old(c.data[..HEADER]))
                && (forall x | x in old(live) :: Bytes(x) == old(Bytes(x)))
      ensures Valid() && q.Address? ==>
                && nb in live && q == Address(nb.chunk, nb.offset) && nb.size >= wanted
                && Bytes(nb)[..original] == old(Bytes(b))[..original]
      ensures Valid() && q.Address? && q == p ==>
                live == old(live) - {b} + {nb} && TotalSize(chunks) - old(TotalSize(chunks)) == nb.size - b.size
      ensures Valid() && q.Address? && q != p ==>
                live == old(live) + {nb} && nb !in old(live) && TotalSize(chunks) == old(TotalSize(chunks)) + nb.size
    {
      nb := b;
      assert Inside(b);
      if IsLast(p, original) && Sum(chunks[0].size, wanted - original) <= chunks[0].capacity {
        nb := GrowInPlace(wanted - original, b);
        return p, nb;
      }
      q, nb := MoveToNew(p, original, wanted, available, b);
    }

    /** The in-place case; no byte moves. */
    method GrowInPlace(increment: Size, ghost b: Block) returns (ghost nb: Block)
      requires Valid() && b in live && increment % 8 == 0 && increment > 0
      requires chunks != [] && chunks[0] == b.chunk && b.offset + b.size == chunks[0].size
      requires Sum(chunks[0].size, increment) <= chunks[0].capacity
      modifies this`live, chunks[0]
      ensures nb == Block(b.chunk, b.offset, b.size + increment) && live == old(live) - {b} + {nb}
      ensures Valid() <==> old(chunks[0].size) + increment < SIZE_LIMIT
      ensures Valid() ==> TotalSize(chunks) == old(TotalSize(chunks)) + increment
      ensures forall x | x in old(live) :: Fits(x)
      ensures Valid() ==> Fits(nb) && Bytes(nb)[..b.size] == old(Bytes(b))
    {
      LiveFits();
      nb := Extend(b, increment);
      if Valid() {
        LiveFits();
        PrefixOfSlice(b.chunk.data[..], HEADER + b.offset, nb.size, b.size);
      }
    }

    /** Grows the last block cut from the newest chunk. */
    method Extend(ghost b: Block, increment: Size) returns (ghost nb: Block)
      requires Valid() && b in live && increment % 8 == 0 && increment > 0
      requires chunks != [] && chunks[0] == b.chunk && b.offset + b.size == chunks[0].size
      requires Sum(chunks[0].size, increment) <= chunks[0].capacity
      modifies this`live, chunks[0]
      ensures nb == Block(b.chunk, b.offset, b.size + increment) && live == old(live) - {b} + {nb}
      ensures Valid() <==> old(chunks[0].size) + increment < SIZE_LIMIT
      ensures Valid() ==> TotalSize(chunks) == old(TotalSize(chunks)) + increment
    {
      var head := chunks[0];
      nb := Block(b.chunk, b.offset, b.size + increment);
      assert Inside(b);
      head.size := Sum(head.size, increment);
      live := live - {b} + {nb};
      if head.size == nb.offset + nb.size {
        BlockGrown(b);
      } else {
        assert nb in live && !Inside(nb);
      }
    }

    /** The last block cut from the newest chunk was made longer. */
    twostate lemma BlockGrown(b: Block)
      requires old(Valid()) && chunks == old(chunks) != [] && b.chunk == chunks[0] && b in old(live)
      requires b.offset + b.size == old(chunks[0].size) < chunks[0].size <= chunks[0].capacity
      requires chunks[0].size % 8 == 0 && forall c | c in chunks[1..] :: c.size == old(c.size)
      requires live == old(live) - {b} + {Block(b.chunk, b.offset, chunks[0].size - b.offset)}
      ensures Valid() && TotalSize(chunks) == old(TotalSize(chunks)) + (chunks[0].size - old(chunks[0].size))
    {
      var nb := Block(b.chunk, b.offset, chunks[0].size - b.offset);
      assert old(Inside(b)) && old(Sane(chunks[0])) && chunks[0] !in chunks[1..];
      forall a | a in old(live) && a != b
        ensures a.chunk in chunks && Inside(a) && Apart(a, nb)
      {
        assert old(Inside(a)) && Apart(a, b);
      }
      forall c | c in chunks
        ensures Sane(c)
      {
        assert old(Sane(c));
      }
      assert Inside(nb) && forall a | a in live :: a == nb || (a in old(live) && a != b);
      SizeUnchanged(chunks[1..]);
    }

    /** A Malloc, and whether its block is part of its chunk's memory. */
    method Obtain(wanted: Size, available: bool) returns (q: Pointer, usable: bool)
      requires Valid() && wanted == Aligned(wanted) && wanted > 0
      modifies this, chunks
      ensures Valid() <==> !old(Served(wanted, available) && Wraps(wanted))
      ensures (q.Address? <==> old(Served(wanted, available))) && (usable <==> q.Address? && Valid())
      ensures NewChunksOnly(old(chunks), wanted) && forall c | c in old(chunks) :: c in chunks
      ensures q.NullPointer? ==> live == old(live) && TotalSize(chunks) == old(TotalSize(chunks))
      ensures usable ==>
                var nb := Block(q.chunk, q.offset, wanted);
                nb !in old(live) && live == old(live) + {nb} && TotalSize(chunks) == old(TotalSize(chunks)) + wanted
    {
      assert chunks != [] ==> Sane(chunks[0]);
      ghost var before := chunks;
      q := Malloc(wanted, available);
      assert Align(wanted) == wanted;
      usable := q.Address? && HEADER + q.offset + wanted <= q.chunk.data.Length;
      if Valid() && q.Address? {
        assert Inside(Block(q.chunk, q.offset, wanted)) && Sane(q.chunk);
      }
      assert forall c | c in before :: c in chunks;
    }

    /** The other case: a new block that starts with a copy; the old one stays as it is.  A copy into a block
        whose sums have wrapped, and which is not in its chunk's memory, is undefined and left out. */
    method MoveToNew(p: Pointer, original: Size, wanted: Size, available: bool, ghost b: Block)
      returns (q: Pointer, ghost nb: Block)
      requires Valid() && b in live && p == Address(b.chunk, b.offset)
      requires original <= b.size && original < wanted == Aligned(wanted)
      modifies this, chunks, Memories()
      ensures Valid() <==> !old(Served(wanted, available) && Wraps(wanted))
      ensures NewChunksOnly(old(chunks), wanted) && (q.Address? <==> old(Served(wanted, available)))
      ensures q.NullPointer? ==> !available || Sum(HEADER, ChunkFor(wanted)) == 0
      ensures q.NullPointer? ==> nb == b && live == old(live) && TotalSize(chunks) == old(TotalSize(chunks))
      ensures Valid() ==>
                && (forall x | x in old(live) :: Bytes(x) == old(Bytes(x)))
                && (forall c | c in old(chunks) :: c.data[..HEADER] == old(c.data[..HEADER]))
      ensures Valid() && q.Address? ==>
                && nb == Block(q.chunk, q.offset, wanted) && nb !in old(live) && q != p
                && live == old(live) + {nb} && Bytes(nb)[..original] == old(Bytes(b))[..original]
                && TotalSize(chunks) == old(TotalSize(chunks)) + nb.size
    {
      nb := b;
      var usable;
      q, usable := Obtain(wanted, available);
      if usable {
        nb := Block(q.chunk, q.offset, wanted);
        LiveSeparate(nb);
        CopyInto(p, q, original, b, nb);
      }
    }

    /** The copy into a new block; no other live block is touched, and no header. */
    method CopyInto(p: Pointer, q: Pointer, n: nat, ghost b: Block, ghost nb: Block)
      requires forall x | x in live :: Fits(x) && (x == nb || Separate(x, nb))
      requires b in live && nb in live && b != nb && n <= b.size && n <= nb.size
      requires p == Address(b.chunk, b.offset) && q == Address(nb.chunk, nb.offset)
      modifies q.chunk.data
      ensures q.chunk.data.Length >= HEADER && q.chunk.data[..HEADER] == old(q.chunk.data[..HEADER])
      ensures forall x | x in live && x != nb :: Bytes(x) == old(Bytes(x))
      ensures Bytes(nb)[..n] == old(Bytes(b))[..n]
    {
      assert Fits(nb) && Fits(b) && Separate(b, nb);
      var from, to := p.chunk.data, q.chunk.data;
      ghost var source, before := from[..], to[..];
      CopyMemory(from, HEADER + p.offset, to, HEADER + q.offset, n);
      ghost var after := to[..];
      SlicesCopied(source, HEADER + p.offset, b.size, before, after, HEADER + q.offset, nb.size, n);
      forall x | x in live && x != nb && x.chunk.data == to
        ensures after[HEADER + x.offset..HEADER + x.offset + x.size]
                == before[HEADER + x.offset..HEADER + x.offset + x.size]
      {
        SliceUntouched(before, after, HEADER + q.offset, n, HEADER + x.offset, x.size);
      }
    }

    lemma LiveFits()
      requires Valid()
      ensures forall x | x in live :: Inside(x) && Fits(x)
    {
      forall x | x in live
        ensures Inside(x) && Fits(x)
      {
        assert Inside(x) && Sane(x.chunk);
      }
    }

    /** Live blocks lie in the memories of their chunks, and share none of it with each other. */
    lemma LiveSeparate(nb: Block)
      requires Valid() && nb in live
      ensures forall x | x in live :: Fits(x) && (x == nb || Separate(x, nb))
    {
      forall x | x in live
        ensures Fits(x) && (x == nb || Separate(x, nb))
      {
        assert Inside(x) && (x == nb || Apart(x, nb));
        SameMemorySameChunk(x.chunk, nb.chunk);
      }
    }

    lemma SameMemorySameChunk(c: Chunk, d: Chunk)
      requires Valid() && c in chunks && d in chunks
      ensures c != d ==> c.data != d.data
    {
      var i, j :| 0 <= i < |chunks| && 0 <= j < |chunks| && chunks[i] == c && chunks[j] == d;
    }

    /** Gives every chunk back but the caller's own buffer, which is emptied. */
    method Clear()
      requires Valid()
      modifies this, chunks
      ensures Valid() && live == {} && TotalSize(chunks) == 0
      ensures chunks == if userBuffer == null then [] else [userBuffer]
    {
      live := {};
      while |chunks| > 0 && chunks[0] != userBuffer
        invariant Valid() && live == {} && (userBuffer == null || userBuffer in old(chunks))
        invariant forall c | c in chunks :: c in old(chunks)
        decreases |chunks|
      {
        DropFirst();
      }
      if |chunks| > 0 && chunks[0] == userBuffer {
        assert |chunks| == 1;
        chunks[0].size := 0;
      }
    }

    /** Gives the newest chunk back, which is not the caller's own. */
    method DropFirst()
      requires Valid() && live == {} && chunks != [] && chunks[0] != userBuffer
      modifies this`chunks
      ensures Valid() && chunks == old(chunks)[1..]
    {
      chunks := chunks[1..];
    }

    /** The total as a 64-bit number. */
    method Size() returns (size: Size)
      requires Valid()
      ensures size == TotalSize(chunks) % SIZE_LIMIT
    {
      size := 0;
      var i := 0;
      ghost var added: nat := 0;
      assert chunks[0..] == chunks;
      while i < |chunks|
        invariant i <= |chunks| && added + TotalSize(chunks[i..]) == TotalSize(chunks)
        invariant size == added % SIZE_LIMIT
      {
        assert chunks[i..][1..] == chunks[i + 1..];
        SumIsModular(added, chunks[i].size);
        added := added + chunks[i].size;
        size := Sum(size, chunks[i].size);
        i := i + 1;
      }
    }

    method Capacity() returns (capacity: Size)
      requires Valid()
      ensures capacity == TotalCapacity(chunks) % SIZE_LIMIT && TotalSize(chunks) <= TotalCapacity(chunks)
    {
      capacity := 0;
      var i := 0;
      ghost var added: nat := 0;
      assert chunks[0..] == chunks;
      while i < |chunks|
        invariant i <= |chunks| && added + TotalCapacity(chunks[i..]) == TotalCapacity(chunks)
        invariant capacity == added % SIZE_LIMIT
      {
        assert chunks[i..][1..] == chunks[i + 1..];
        SumIsModular(added, chunks[i].capacity);
        added := added + chunks[i].capacity;
        capacity := Sum(capacity, chunks[i].capacity);
        i := i + 1;
      }
      assert forall c | c in chunks :: Sane(c);
      SizeWithinCapacity(chunks);
    }
  }

  twostate lemma {:induction false} SizeUnchanged(cs: seq<Chunk>)
    requires forall c | c in cs :: c.size == old(c.size)
    ensures TotalSize(cs) == old(TotalSize(cs))
  {
    if cs != [] {
      SizeUnchanged(cs[1..]);
    }
  }

  lemma SliceUntouched(before: seq<Byte>, after: seq<Byte>, at: nat, n: nat, start: nat, size: nat)
    requires |before| == |after| && start + size <= |before| && (start + size <= at || at + n <= start)
    requires forall i | 0 <= i < |before| && !(at <= i < at + n) :: after[i] == before[i]
    ensures after[start..start + size] == before[start..start + size]
  {
  }

  /** What a copy leaves, in terms of the two stretches and the start of the memory. */
  lemma SlicesCopied(source: seq<Byte>, start: nat, size: nat, before: seq<Byte>, after: seq<Byte>, at: nat,
                     newSize: nat, n: nat)
    requires |before| == |after| && n <= size && n <= newSize && HEADER <= at
    requires start + size <= |source| && at + newSize <= |after| && after[at..at + n] == source[start..start + n]
    requires forall i | 0 <= i < |before| && !(at <= i < at + n) :: after[i] == before[i]
    ensures after[at..at + newSize][..n] == source[start..start + size][..n]
    ensures after[..HEADER] == before[..HEADER]
  {
    PrefixOfSlice(source, start, size, n);
    PrefixOfSlice(after, at, newSize, n);
  }

  lemma PrefixOfSlice(s: seq<Byte>, start: nat, size: nat, n: nat)
    requires n <= size && start + size <= |s|
    ensures s[start..start + size][..n] == s[start..start + n]
  {
  }

  lemma {:induction false} SizeWithinCapacity(cs: seq<Chunk>)
    requires forall c | c in cs   :: c.size <= c.capacity
    ensures TotalSize(cs) <= TotalCapacity(cs)
  {
    if cs != [] {
      assert cs[0] in cs;
      SizeWithinCapacity(cs[1..]);
    }
  }
}
