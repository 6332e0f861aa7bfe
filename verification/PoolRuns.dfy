/** Whole runs of the memory pool: seen through its pointers it behaves like a list of independent
    resizable vectors. */
module PoolRuns {
  import opened Encodings
  import opened PoolAllocator

  /** What a client does; k is the number of a pointer it was given.  `available` says whether the base
      allocator has memory, should it be asked. */
  datatype Op =
    | DoMalloc(size: Size, available: bool)
    | DoReallocNull(newSize: Size, available: bool)
    | DoRealloc(k: nat, newSize: Size, available: bool)
    | DoWrite(k: nat, i: nat, value: Byte)
    | DoClear

  /** A vector of its own: its size and the bytes written so far. */
  datatype Vector = Vector(size: Size, written: map<nat, Byte>)

  /** An operation; `ok` says that it got the memory it needed. */
  function Apply(vs: seq<Vector>, op: Op, ok: bool): seq<Vector> {
    match op
    case DoMalloc(n, _) => if n == 0 || !ok then vs else vs + [Vector(n, map[])]
    case DoReallocNull(n, _) => if n == 0 || !ok then vs else vs + [Vector(n, map[])]
    case DoRealloc(k, n, _) =>
      if k >= |vs| || n == 0 || !ok then vs
      else vs[k := Vector(n, map i | i in vs[k].written && i < n :: vs[k].written[i])]
    case DoWrite(k, i, value) =>
      if k < |vs| && i < vs[k].size then vs[k := vs[k].(written := vs[k].written[i := value])] else vs
    case DoClear => []
  }

  /** The bytes asked for, if any. */
  function Request(op: Op): Size {
    match op
    case DoMalloc(n, _) => n
    case DoReallocNull(n, _) => n
    case DoRealloc(_, n, _) => n
    case _ => 0
  }

  /** What a client reads after an operation: what it just wrote, and everything it had written before that is
      still part of its block. */
  lemma StillRead(vs: seq<Vector>, op: Op, ok: bool, k: nat, i: nat)
    requires k < |vs| && i in vs[k].written && op != DoClear
    ensures var now := Apply(vs, op, ok);
            && |now| >= |vs|
            && (!(op.DoRealloc? && op.k == k && ok && 0 < op.newSize <= i) ==> i in now[k].written)
            && (i in now[k].written ==>
                  now[k].written[i] == if op.DoWrite? && op.k == k && op.i == i && i < vs[k].size then op.value
                                       else vs[k].written[i])
  {
  }

  /** Only an operation without memory to be had can fail, or one whose chunk would come to no bytes at all. */
  predicate MayFail(chunkCapacity: Size, op: Op) {
    match op
    case DoMalloc(n, available) => !available || NoBytes(chunkCapacity, n)
    case DoReallocNull(n, available) => !available || NoBytes(chunkCapacity, n)
    case DoRealloc(_, n, available) => !available || NoBytes(chunkCapacity, n)
    case _ => false
  }

  predicate NoBytes(chunkCapacity: Size, n: Size) {
    HEADER + (if chunkCapacity > Aligned(n) then chunkCapacity else Aligned(n)) == SIZE_LIMIT
  }

  /** Some sum of the call does not fit 64 bits. */
  predicate OpWraps(pool: MemoryPool, hs: seq<Handle>, op: Op)
    reads pool, pool.chunks
  {
    match op
    case DoMalloc(n, available) => pool.Served(n, available) && pool.Wraps(n)
    case DoReallocNull(n, available) => pool.ReallocWraps(NullPointer, 0, n, available)
    case DoRealloc(k, n, available) => k < |hs| && pool.ReallocWraps(hs[k].p, hs[k].size, n, available)
    case _ => false
  }

  function ApplyAll(vs: seq<Vector>, ops: seq<Op>, oks: seq<bool>): seq<Vector>
    requires |oks| == |ops|
  {
    if ops == [] then vs
    else
      var last := |ops| - 1;
      Apply(ApplyAll(vs, ops[..last], oks[..last]), ops[last], oks[last])
  }

  lemma ApplyAllAppend(vs: seq<Vector>, ops: seq<Op>, oks: seq<bool>, op: Op, ok: bool)
    requires |oks| == |ops|
    ensures ApplyAll(vs, ops + [op], oks + [ok]) == Apply(ApplyAll(vs, ops, oks), op, ok)
  {
    assert (ops + [op])[..|ops|] == ops && (oks + [ok])[..|oks|] == oks;
  }

  datatype Handle = Handle(p: Pointer, size: Size)

  /** One pointer: its block is live, large enough, and holds what was written. */
  ghost predicate Stores(pool: MemoryPool, h: Handle, b: Block, v: Vector)
    requires pool.Valid()
    reads pool, pool.chunks, pool.Memories()
  {
    && b in pool.live && h.p == Address(b.chunk, b.offset)
    && h.size == v.size && Align(h.size) <= b.size
    && Inside(b)
    && forall i | i in v.written :: i < v.size && Bytes(b)[i] == v.written[i]
  }

  ghost predicate Agrees(pool: MemoryPool, hs: seq<Handle>, bs: seq<Block>, vs: seq<Vector>)
    reads pool, pool.chunks, pool.Memories()
  {
    && pool.Valid()
    && |hs| == |bs| == |vs|
    && (forall k | 0 <= k < |hs| :: Stores(pool, hs[k], bs[k], vs[k]))
    && (forall j, k | 0 <= j < k < |bs| :: bs[j] != bs[k])
  }

  /** One operation.  Some sum of it wraps exactly when the pool is not as it should be afterwards. */
  method Perform(pool: MemoryPool, hs: seq<Handle>, ghost bs: seq<Block>, ghost vs: seq<Vector>, op: Op)
    returns (hs': seq<Handle>, ghost bs': seq<Block>, ghost ok: bool, sound: bool)
    requires Agrees(pool, hs, bs, vs)
    modifies pool.Repr()
    ensures sound == !old(OpWraps(pool, hs, op)) == pool.Valid()
    ensures sound ==> Agrees(pool, hs', bs', Apply(vs, op, ok)) && (!ok ==> MayFail(pool.chunkCapacity, op))
    ensures sound ==> fresh(pool.Repr() - old(pool.Repr()))
    ensures old(pool.Moderate()) && Request(op) <= MODERATE ==> sound && pool.Moderate()
  {
    hs', bs', ok, sound := hs, bs, true, !OpWraps(pool, hs, op);
    match op {
      case DoMalloc(n, available) =>
        hs', bs', ok := PerformMalloc(pool, hs, bs, vs, n, available, false);
      case DoReallocNull(n, available) =>
        hs', bs', ok := PerformMalloc(pool, hs, bs, vs, n, available, true);
      case DoRealloc(k, n, available) =>
        if k < |hs| {
          hs', bs', ok := PerformRealloc(pool, hs, bs, vs, k, n, available);
        }
      case DoWrite(k, i, value) =>
        if k < |hs| && i < hs[k].size {
          PerformWrite(pool, hs, bs, vs, k, i, value);
        }
      case DoClear =>
        pool.Clear();
        hs', bs' := [], [];
    }
  }

  /** A new block, as the other blocks see it. */
  twostate predicate BlockGained(pool: MemoryPool, new p: Pointer, new nb: Option<Block>, n: Size, available: bool)
    requires pool.Valid()
    reads pool, pool.chunks, pool.Memories()
  {
    && fresh(pool.Repr() - old(pool.Repr()))
    && (forall x | x in old(pool.live) :: x in pool.live && Inside(x) && Fits(x) && Bytes(x) == old(Bytes(x)))
    && (p.NullPointer? ==> (n == 0 || !available || NoBytes(pool.chunkCapacity, n)) && pool.live == old(pool.live))
    && (p.Address? ==>
          && n > 0 && nb.Some? && nb.value !in old(pool.live) && pool.live == old(pool.live) + {nb.value}
          && p == Address(nb.value.chunk, nb.value.offset) && nb.value.size >= Align(n) && Inside(nb.value))
  }

  method ByMalloc(pool: MemoryPool, n: Size, available: bool) returns (p: Pointer, ghost nb: Option<Block>)
    requires pool.Valid()
    modifies pool.Repr()
    ensures pool.Valid() <==> !old(pool.Served(n, available) && pool.Wraps(n))
    ensures pool.NewChunksOnly(old(pool.chunks), n)
    ensures pool.Valid() ==> BlockGained(pool, p, nb, n, available)
  {
    pool.LiveFits();
    p := pool.Malloc(n, available);
    nb := if p.Address? then Some(Block(p.chunk, p.offset, Align(n))) else None;
    if pool.Valid() {
      pool.LiveFits();
    }
  }

  method ByRealloc(pool: MemoryPool, n: Size, available: bool) returns (p: Pointer, ghost nb: Option<Block>)
    requires pool.Valid()
    modifies pool.Repr()
    ensures pool.Valid() <==> !old(pool.Served(n, available) && pool.Wraps(n))
    ensures pool.NewChunksOnly(old(pool.chunks), n)
    ensures pool.Valid() ==> BlockGained(pool, p, nb, n, available)
  {
    pool.LiveFits();
    p, nb := pool.Realloc(NullPointer, 0, n, available, None);
    if pool.Valid() {
      pool.LiveFits();
    }
  }

  /** A new block, by Malloc or by Realloc of the null pointer. */
  method NewBlock(pool: MemoryPool, n: Size, available: bool, byRealloc: bool)
    returns (p: Pointer, ghost nb: Option<Block>)
    requires pool.Valid()
    modifies pool.Repr()
    ensures pool.Valid() <==> !old(pool.Served(n, available) && pool.Wraps(n))
    ensures old(pool.Moderate()) && n <= MODERATE ==> pool.Valid() && pool.Moderate()
    ensures pool.Valid() ==> BlockGained(pool, p, nb, n, available)
  {
    ghost var moderate := pool.Moderate() && n <= MODERATE;
    if moderate {
      pool.ModerateNeverWraps(NullPointer, 0, n, available);
    }
    if byRealloc {
      p, nb := ByRealloc(pool, n, available);
    } else {
      p, nb := ByMalloc(pool, n, available);
    }
    if moderate {
      pool.ModerateStays(n);
    }
  }

  method PerformMalloc(pool: MemoryPool, hs: seq<Handle>, ghost bs: seq<Block>, ghost vs: seq<Vector>,
                       n: Size, available: bool, byRealloc: bool)
    returns (hs': seq<Handle>, ghost bs': seq<Block>, ghost ok: bool)
    requires Agrees(pool, hs, bs, vs)
    modifies pool.Repr()
    ensures pool.Valid() <==> !old(pool.Served(n, available) && pool.Wraps(n))
    ensures old(pool.Moderate()) && n <= MODERATE ==> pool.Valid() && pool.Moderate()
    ensures pool.Valid() ==>
              && Agrees(pool, hs', bs', Apply(vs, DoMalloc(n, available), ok))
              && (!ok ==> !available || NoBytes(pool.chunkCapacity, n))
              && fresh(pool.Repr() - old(pool.Repr()))
  {
    forall k | 0 <= k < |bs|
      ensures bs[k] in pool.live && Inside(bs[k])
    {
      assert Stores(pool, hs[k], bs[k], vs[k]);
    }
    label before:
    var p;
    ghost var nb;
    p, nb := NewBlock(pool, n, available, byRealloc);
    hs', bs', ok := hs, bs, p.Address? || n == 0;
    if pool.Valid() {
      forall k | 0 <= k < |bs|
        ensures Stores(pool, hs[k], bs[k], vs[k])
      {
        assert old@before(Stores(pool, hs[k], bs[k], vs[k]));
      }
    }
    if p.Address? {
      hs' := hs + [Handle(p, n)];
      if pool.Valid() {
        bs' := bs + [nb.value];
        assert Stores(pool, Handle(p, n), nb.value, Vector(n, map[]));
      }
    }
  }

  /** A resized block, as the other blocks see it. */
  twostate predicate BlockResized(pool: MemoryPool, h: Handle, n: Size, b: Block, new q: Pointer, new nb: Block)
    requires pool.Valid() && Fits(b)
    reads pool, pool.chunks, pool.Memories(), b.chunk.data
  {
    && fresh(pool.Repr() - old(pool.Repr()))
    && (forall x | x in old(pool.live) && (x != b || q.NullPointer?) ::
          x in pool.live && Inside(x) && Fits(x) && Bytes(x) == old(Bytes(x)) && (q.Address? ==> x != nb))
    && (q.Address? ==>
          && n > 0 && nb in pool.live && q == Address(nb.chunk, nb.offset) && nb.size >= Align(n) && Inside(nb)
          && Align(h.size) <= nb.size && Fits(nb) && Align(h.size) <= b.size
          && Bytes(nb)[..Align(h.size)] == old(Bytes(b))[..Align(h.size)])
  }

  method CallRealloc(pool: MemoryPool, h: Handle, n: Size, available: bool, ghost b: Block)
    returns (q: Pointer, ghost nb: Block)
    requires pool.Valid() && b in pool.live && h.p == Address(b.chunk, b.offset) && Align(h.size) <= b.size
    modifies pool.Repr()
    ensures pool.Valid() <==> !old(pool.ReallocWraps(h.p, h.size, n, available))
    ensures pool.NewChunksOnly(old(pool.chunks), n) && Fits(b)
    ensures q.NullPointer? ==> n == 0 || !available || NoBytes(pool.chunkCapacity, n)
    ensures pool.Valid() ==> BlockResized(pool, h, n, b, q, nb)
  {
    nb := b;
    ghost var found;
    assert forall x | x in pool.live && x != b :: Apart(x, b);
    pool.LiveFits();
    q, found := pool.Realloc(h.p, h.size, n, available, Some(b));
    if pool.Valid() {
      pool.LiveFits();
      if q.Address? {
        nb := found.value;
      }
    }
  }

  /** Realloc of a block. */
  method ResizeBlock(pool: MemoryPool, h: Handle, n: Size, available: bool, ghost b: Block)
    returns (q: Pointer, ghost nb: Block)
    requires pool.Valid() && b in pool.live && h.p == Address(b.chunk, b.offset) && Align(h.size) <= b.size
    modifies pool.Repr()
    ensures pool.Valid() <==> !old(pool.ReallocWraps(h.p, h.size, n, available))
    ensures old(pool.Moderate()) && n <= MODERATE ==> pool.Valid() && pool.Moderate()
    ensures q.NullPointer? ==> n == 0 || !available || NoBytes(pool.chunkCapacity, n)
    ensures Fits(b) && (pool.Valid() ==> BlockResized(pool, h, n, b, q, nb))
  {
    ghost var moderate := pool.Moderate() && n <= MODERATE;
    if moderate {
      pool.ModerateNeverWraps(h.p, h.size, n, available);
    }
    q, nb := CallRealloc(pool, h, n, available, b);
    if moderate {
      pool.ModerateStays(n);
    }
  }

  method PerformRealloc(pool: MemoryPool, hs: seq<Handle>, ghost bs: seq<Block>, ghost vs: seq<Vector>,
                        k: nat, n: Size, available: bool)
    returns (hs': seq<Handle>, ghost bs': seq<Block>, ghost ok: bool)
    requires Agrees(pool, hs, bs, vs) && k < |hs|
    modifies pool.Repr()
    ensures pool.Valid() <==> !old(pool.ReallocWraps(hs[k].p, hs[k].size, n, available))
    ensures old(pool.Moderate()) && n <= MODERATE ==> pool.Valid() && pool.Moderate()
    ensures !ok ==> !available || NoBytes(pool.chunkCapacity, n)
    ensures pool.Valid() ==>
              && Agrees(pool, hs', bs', Apply(vs, DoRealloc(k, n, available), ok))
              && fresh(pool.Repr() - old(pool.Repr()))
  {
    ghost var vs' := Apply(vs, DoRealloc(k, n, available), true);
    forall j | 0 <= j < |bs|
      ensures Stores(pool, hs[j], bs[j], vs[j]) && (j != k ==> bs[j] != bs[k])
    {
    }
    label before:
    var q;
    ghost var nb;
    q, nb := ResizeBlock(pool, hs[k], n, available, bs[k]);
    hs', bs', ok := if q.Address? then hs[k := Handle(q, n)] else hs, bs, q.Address? || n == 0;
    if pool.Valid() {
      forall j | 0 <= j < |bs| && (j != k || q.NullPointer?)
        ensures Stores(pool, hs[j], bs[j], vs[j])
      {
        assert old@before(Stores(pool, hs[j], bs[j], vs[j]));
      }
      if q.Address? {
        bs' := bs[k := nb];
        WrittenKept(old@before(Bytes(bs[k])), Bytes(nb), Align(hs[k].size), vs[k]);
        assert Stores(pool, hs'[k], nb, vs'[k]);
      }
    }
  }

  /** What was written in a common prefix of two memories. */
  lemma WrittenKept(a: seq<Byte>, b: seq<Byte>, m: nat, v: Vector)
    requires v.size <= m <= |a| && m <= |b| && a[..m] == b[..m]
    requires forall i | i in v.written :: i < v.size && a[i] == v.written[i]
    ensures forall i | i in v.written :: b[i] == v.written[i]
  {
    forall i | i in v.written
      ensures b[i] == v.written[i]
    {
      assert a[..m][i] == b[..m][i];
    }
  }

  method PerformWrite(pool: MemoryPool, hs: seq<Handle>, ghost bs: seq<Block>, ghost vs: seq<Vector>,
                      k: nat, i: nat, value: Byte)
    requires Agrees(pool, hs, bs, vs) && k < |hs| && i < hs[k].size
    modifies pool.Memories()
    ensures Agrees(pool, hs, bs, Apply(vs, DoWrite(k, i, value), true))
  {
    var p := hs[k].p;
    ghost var vs' := Apply(vs, DoWrite(k, i, value), true);
    forall j | 0 <= j < |bs|
      ensures Stores(pool, hs[j], bs[j], vs[j]) && (j != k ==> Apart(bs[j], bs[k]))
    {
      assert j != k ==> bs[j] != bs[k];
    }
    label before:
    p.chunk.data[HEADER + p.offset + i] := value;
    forall j | 0 <= j < |bs|
      ensures Stores(pool, hs[j], bs[j], vs'[j])
    {
      assert old@before(Stores(pool, hs[j], bs[j], vs[j]));
      if j != k {
        pool.SameMemorySameChunk(bs[j].chunk, bs[k].chunk);
        assert Bytes(bs[j]) == old@before(Bytes(bs[j]));
      } else {
        assert Bytes(bs[k]) == old@before(Bytes(bs[k]))[i := value];
      }
    }
  }

  ghost predicate FailuresExplained(chunkCapacity: Size, ops: seq<Op>, oks: seq<bool>) {
    |oks| <= |ops| && forall n | 0 <= n < |oks| && !oks[n] :: MayFail(chunkCapacity, ops[n])
  }

  lemma FailuresOfLonger(chunkCapacity: Size, ops: seq<Op>, oks: seq<bool>)
    requires ops != [] && FailuresExplained(chunkCapacity, ops[..|ops| - 1], oks)
    ensures FailuresExplained(chunkCapacity, ops, oks)
  {
  }

  ghost predicate ModerateRequests(ops: seq<Op>) {
    forall n | 0 <= n < |ops| :: Request(ops[n]) <= MODERATE
  }

  /** After any sequence of operations on a fresh pool, some of which may have found no memory, every
      pointer the client holds is usable and reads back what was written through it, as if each block
      were a vector of its own; unless a sum of some call wraps, at which the run ends with a pool that is not
      as it should be.  No sum ever wraps when no request and no chunk is over an eighth of the address
      space. */
  method Run(pool: MemoryPool, ops: seq<Op>)
    returns (hs: seq<Handle>, ghost bs: seq<Block>, ghost oks: seq<bool>, sound: bool)
    requires pool.Valid() && pool.live == {}
    modifies pool.Repr()
    ensures FailuresExplained(pool.chunkCapacity, ops, oks)
    ensures sound == pool.Valid() && (sound <==> |oks| == |ops|)
    ensures sound ==> Agrees(pool, hs, bs, ApplyAll([], ops, oks))
    ensures sound ==> fresh(pool.Repr() - old(pool.Repr()))
    ensures old(pool.Moderate()) && ModerateRequests(ops) ==> sound && pool.Moderate()
    decreases |ops|
  {
    hs, bs, oks, sound := [], [], [], true;
    if |ops| > 0 {
      hs, bs, oks, sound := Run(pool, ops[..|ops| - 1]);
      FailuresOfLonger(pool.chunkCapacity, ops, oks);
      if sound {
        hs, bs, oks, sound := RunLast(pool, hs, bs, oks, ops);
      }
    }
  }

  /** The last operation of a run. */
  method RunLast(pool: MemoryPool, hs: seq<Handle>, ghost bs: seq<Block>, ghost oks: seq<bool>, ops: seq<Op>)
    returns (hs': seq<Handle>, ghost bs': seq<Block>, ghost oks': seq<bool>, sound: bool)
    requires |ops| > 0 && |oks| == |ops| - 1 && Agrees(pool, hs, bs, ApplyAll([], ops[..|ops| - 1], oks))
    requires FailuresExplained(pool.chunkCapacity, ops, oks)
    modifies pool.Repr()
    ensures sound == pool.Valid() && (if sound then |oks'| == |ops| else oks' == oks)
    ensures FailuresExplained(pool.chunkCapacity, ops, oks')
    ensures sound ==> Agrees(pool, hs', bs', ApplyAll([], ops, oks')) && fresh(pool.Repr() - old(pool.Repr()))
    ensures old(pool.Moderate()) && Request(ops[|ops| - 1]) <= MODERATE ==> sound && pool.Moderate()
  {
    var before, op := ops[..|ops| - 1], ops[|ops| - 1];
    ghost var ok;
    hs', bs', ok, sound := Perform(pool, hs, bs, ApplyAll([], before, oks), op);
    ApplyAllAppend([], before, oks, op, ok);
    assert ops == before + [op];
    oks' := if sound then oks + [ok] else oks;
  }

  /** Asked for 2^64 - 1 bytes, Realloc gives the eight-byte block back as it is. */
  method ReallocWrapExample() returns (pool: MemoryPool, p: Pointer, q: Pointer)
    ensures fresh(pool) && p.Address? && q == p && pool.chunks == [p.chunk] && p.chunk.size == 8
    ensures !pool.Valid()
  {
    pool := new MemoryPool(65536);
    p := pool.Malloc(8, true);
    ghost var nb;
    q, nb := pool.Realloc(p, 8, SIZE_LIMIT - 1, true, Some(Block(p.chunk, p.offset, 8)));
  }

  /** After a block of 16 bytes, asked for 2^64 - 8 bytes, Malloc makes the size in use 8: the next block
      would start in the middle of the first. */
  method MallocWrapExample() returns (pool: MemoryPool, p: Pointer, q: Pointer)
    ensures fresh(pool) && p.Address? && p.offset == 0 && q == Address(p.chunk, 16)
    ensures pool.chunks == [p.chunk] && p.chunk.size == 8 && !pool.Valid()
  {
    pool := new MemoryPool(65536);
    p := pool.Malloc(16, true);
    q := pool.Malloc(SIZE_LIMIT - 8, true);
  }
}
