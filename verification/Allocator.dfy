/** The pool allocator of allocators.h: blocks bumped off the head of a chunk list. One handle, built with a chunk
    size; addresses are places in a chunk's buffer, and the base allocator is taken to return aligned memory. */
module Allocator {
  import opened Bytes

  // ----- 64-bit sizes -----

  const WORD: nat := 0x1_0000_0000_0000_0000

  /** `SIZEOF_CHUNK_HEADER`. */
  const HEADER: nat := 24

  /** `RAPIDJSON_ALIGN`, on `size_t`. */
  function Align(n: nat): (a: nat)
    ensures a % 8 == 0
    ensures n + 7 < WORD ==> n <= a < n + 8
    ensures n == 0 ==> a == 0
  {
    (n + 7) % WORD / 8 * 8
  }

  /** The capacity `Malloc` asks of `AddChunk`. */
  function ChunkSize(chunkCapacity: nat, a: nat): (r: nat) { if chunkCapacity > a then chunkCapacity else a }

  /** The test before `AddChunk`, with the wrap of `size_t`. */
  predicate NeedsChunk(size: nat, capacity: nat, a: nat) { (size + a) % WORD > capacity }

  /** No sum in `Malloc` leaves `size_t`. */
  predicate NoWrap(size: nat, capacity: nat, chunkCapacity: nat, n: nat) {
    && n + 7 < WORD && size + Align(n) < WORD
    && (size + Align(n) > capacity ==> HEADER + ChunkSize(chunkCapacity, Align(n)) < WORD)
  }

  /** Where a block is served and how many bytes there are from the chunk's start, a new chunk having the bytes the
      base allocator was asked for less its header. */
  datatype Served = Served(offset: nat, room: int)

  function Serve(size: nat, capacity: nat, chunkCapacity: nat, n: nat): (r: Served) {
    if NeedsChunk(size, capacity, Align(n))
    then Served(0, (HEADER + ChunkSize(chunkCapacity, Align(n))) % WORD - HEADER)
    else Served(size, capacity)
  }

  /** The block has its bytes exactly when no sum wrapped. */
  lemma BlockHoldsIffNoWrap(size: nat, capacity: nat, chunkCapacity: nat, n: nat)
    requires size <= capacity < WORD && chunkCapacity < WORD && 0 < n < WORD
    ensures var served := Serve(size, capacity, chunkCapacity, n);
      n <= Align(n) && served.offset + Align(n) <= served.room <==> NoWrap(size, capacity, chunkCapacity, n)
  {
    var a := Align(n);
    assert a < WORD;
    if n + 7 >= WORD {
      assert (n + 7) % WORD == n + 7 - WORD < 8;
      assert a == 0;
    } else if size + a >= WORD {
      assert (size + a) % WORD == size + a - WORD;
    } else if size + a > capacity {
      var chunk := HEADER + ChunkSize(chunkCapacity, a);
      if chunk >= WORD {
        assert chunk % WORD == chunk - WORD;
      }
    }
  }

  /** The largest request wraps to nothing: it is served from any chunk, and the block has none of its bytes. */
  lemma LargestRequestIsEmpty(size: nat, capacity: nat, chunkCapacity: nat)
    requires size <= capacity < WORD && chunkCapacity < WORD
    ensures Align(WORD - 1) == 0 && !NeedsChunk(size, capacity, Align(WORD - 1))
    ensures Serve(size, capacity, chunkCapacity, WORD - 1) == Served(size, capacity) && !NoWrap(size, capacity, chunkCapacity, WORD - 1)
  {
    assert (WORD - 1 + 7) % WORD == 6;
  }

  // ----- chunks and blocks -----

  datatype ChunkHeader = ChunkHeader(capacity: nat, size: nat, buffer: array<Byte>)

  /** An address handed out: a place in a chunk's buffer. */
  datatype Address = Address(buffer: array<Byte>, offset: nat)

  /** `n` bytes at `p` lie in the used part of chunk `k`. */
  ghost predicate HeldBy(chunks: seq<ChunkHeader>, p: Address, n: nat, k: nat) {
    k < |chunks| && chunks[k].buffer == p.buffer && p.offset + n <= chunks[k].size
  }

  ghost predicate Held(chunks: seq<ChunkHeader>, p: Address, n: nat) {
    && p.offset % 8 == 0 && 0 < n && n % 8 == 0
    && exists k: nat :: HeldBy(chunks, p, n, k)
  }

  ghost predicate Disjoint(p: Address, m: nat, q: Address, n: nat) {
    p.buffer != q.buffer || p.offset + m <= q.offset || q.offset + n <= p.offset
  }

  /** The chunk list, its head first, and the live blocks with their aligned sizes: every block is aligned and lies in
      the used part of a chunk, and no two share a byte. */
  ghost predicate Fine(chunks: seq<ChunkHeader>, live: map<Address, nat>) {
    && chunks != []
    && (forall k :: 0 <= k < |chunks| ==> chunks[k].size <= chunks[k].capacity == chunks[k].buffer.Length < WORD && chunks[k].size % 8 == 0)
    && (forall j, k :: 0 <= j < k < |chunks| ==> chunks[j].buffer != chunks[k].buffer)
    && (forall p :: p in live ==> Held(chunks, p, live[p]))
    && forall p, q :: p in live && q in live && p != q ==> Disjoint(p, live[p], q, live[q])
  }

  function Bumped(chunks: seq<ChunkHeader>, a: nat): (r: seq<ChunkHeader>)
    requires chunks != []
  {
    chunks[0 := chunks[0].(size := chunks[0].size + a)]
  }

  lemma HeldAfterBump(chunks: seq<ChunkHeader>, a: nat, p: Address, n: nat)
    requires chunks != [] && Held(chunks, p, n)
    ensures Held(Bumped(chunks, a), p, n)
  {
    var k: nat :| HeldBy(chunks, p, n, k);
    assert HeldBy(Bumped(chunks, a), p, n, k);
  }

  /** A block in the head chunk ends where that chunk's used part does, or before. */
  lemma HeldInHead(chunks: seq<ChunkHeader>, live: map<Address, nat>, p: Address)
    requires Fine(chunks, live) && p in live && p.buffer == chunks[0].buffer
    ensures p.offset + live[p] <= chunks[0].size
  {
    assert Held(chunks, p, live[p]);
    assert forall k :: 0 < k < |chunks| ==> chunks[0].buffer != chunks[k].buffer;
    var k: nat :| HeldBy(chunks, p, live[p], k);
  }

  lemma BumpIsApart(chunks: seq<ChunkHeader>, live: map<Address, nat>, a: nat, q: Address)
    requires Fine(chunks, live) && q in live
    ensures var p := Address(chunks[0].buffer, chunks[0].size); q != p && Disjoint(q, live[q], p, a)
  {
    HeldIsPositive(chunks, q, live[q]);
    if q.buffer == chunks[0].buffer {
      HeldInHead(chunks, live, q);
    }
  }

  /** Bumping the head hands out a new block. */
  lemma BumpIsFine(chunks: seq<ChunkHeader>, live: map<Address, nat>, a: nat)
    requires Fine(chunks, live) && 0 < a && a % 8 == 0 && chunks[0].size + a <= chunks[0].capacity
    ensures var p := Address(chunks[0].buffer, chunks[0].size);
      p !in live && Fine(Bumped(chunks, a), live[p := a])
  {
    hide Held;
    var p := Address(chunks[0].buffer, chunks[0].size);
    var after := Bumped(chunks, a);
    forall q | q in live ensures q != p && Disjoint(q, live[q], p, a) && Held(after, q, live[q]) {
      HeldAfterBump(chunks, a, q, live[q]);
      BumpIsApart(chunks, live, a, q);
    }
    assert HeldBy(after, p, a, 0);
    NewlyHeld(after, p, a);
  }

  lemma HeldIsPositive(chunks: seq<ChunkHeader>, p: Address, n: nat)
    requires Held(chunks, p, n)
    ensures n > 0
  {
  }

  lemma NewlyHeld(chunks: seq<ChunkHeader>, p: Address, n: nat)
    requires HeldBy(chunks, p, n, 0) && p.offset % 8 == 0 && 0 < n && n % 8 == 0
    ensures Held(chunks, p, n)
  {
  }

  /** The last block of the head chunk grows in place. */
  lemma GrowthIsFine(chunks: seq<ChunkHeader>, live: map<Address, nat>, p: Address, size: nat)
    requires Fine(chunks, live) && p in live && p.buffer == chunks[0].buffer && p.offset + live[p] == chunks[0].size
    requires live[p] < size && size % 8 == 0 && p.offset + size <= chunks[0].capacity
    ensures Fine(Bumped(chunks, size - live[p]), live[p := size])
  {
    hide Held;
    var after := Bumped(chunks, size - live[p]);
    HeldIsAligned(chunks, p, live[p]);
    forall q | q in live && q != p ensures Held(after, q, live[q]) && Disjoint(q, live[q], p, size) {
      HeldAfterBump(chunks, size - live[p], q, live[q]);
      HeldIsPositive(chunks, q, live[q]);
      assert Disjoint(q, live[q], p, live[p]);
      if q.buffer == p.buffer {
        HeldInHead(chunks, live, q);
      }
    }
    assert HeldBy(after, p, size, 0);
    NewlyHeld(after, p, size);
  }

  lemma HeldIsAligned(chunks: seq<ChunkHeader>, p: Address, n: nat)
    requires Held(chunks, p, n)
    ensures p.offset % 8 == 0 && n % 8 == 0
  {
  }

  /** A new, empty head chunk. */
  lemma ChunkIsFine(chunks: seq<ChunkHeader>, live: map<Address, nat>, chunk: ChunkHeader)
    requires Fine(chunks, live) && chunk.size == 0 && chunk.capacity == chunk.buffer.Length < WORD
    requires forall k :: 0 <= k < |chunks| ==> chunks[k].buffer != chunk.buffer
    ensures Fine([chunk] + chunks, live)
  {
    var after := [chunk] + chunks;
    assert forall k :: 0 < k < |after| ==> after[k] == chunks[k - 1];
    forall p | p in live ensures Held(after, p, live[p]) {
      assert Held(chunks, p, live[p]);
      var k: nat :| HeldBy(chunks, p, live[p], k);
      assert HeldBy(after, p, live[p], k + 1);
    }
  }

  function SumSizes(chunks: seq<ChunkHeader>): (n: nat) {
    if chunks == [] then 0 else chunks[0].size + SumSizes(chunks[1..])
  }

  function SumCapacities(chunks: seq<ChunkHeader>): (n: nat) {
    if chunks == [] then 0 else chunks[0].capacity + SumCapacities(chunks[1..])
  }

  lemma {:induction false} SumsOrdered(chunks: seq<ChunkHeader>)
    requires forall k :: 0 <= k < |chunks| ==> chunks[k].size <= chunks[k].capacity
    ensures SumSizes(chunks) <= SumCapacities(chunks)
    decreases |chunks|
  {
    if chunks != [] {
      assert forall k :: 0 <= k < |chunks| - 1 ==> chunks[1..][k] == chunks[k + 1];
      SumsOrdered(chunks[1..]);
    }
  }

  /** A block adds its aligned size to what is used, a chunk its capacity to what there is, and nothing else counts. */
  lemma SumsAddUp(chunks: seq<ChunkHeader>, chunk: ChunkHeader, a: nat)
    ensures SumSizes([chunk] + chunks) == chunk.size + SumSizes(chunks)
    ensures SumCapacities([chunk] + chunks) == chunk.capacity + SumCapacities(chunks)
    ensures chunks != [] ==> SumSizes(Bumped(chunks, a)) == SumSizes(chunks) + a && SumCapacities(Bumped(chunks, a)) == SumCapacities(chunks)
    ensures SumSizes([]) == 0 && SumCapacities([]) == 0
  {
    assert ([chunk] + chunks)[1..] == chunks;
    if chunks != [] {
      assert Bumped(chunks, a)[1..] == chunks[1..];
    }
  }

  /** What `Size` gives is at most what `Capacity` gives while the chunks together fit the size type, as those of one
      address space do. Past that each is off by the multiple of 2^64 it wrapped by, and their order holds exactly when
      the excess of the capacity, so reduced, is not negative. */
  lemma SizeWithinCapacity(chunks: seq<ChunkHeader>, live: map<Address, nat>)
    requires Fine(chunks, live)
    ensures SumSizes(chunks) <= SumCapacities(chunks)
    ensures SumCapacities(chunks) < WORD ==>
      SumSizes(chunks) % WORD == SumSizes(chunks) && SumSizes(chunks) % WORD <= SumCapacities(chunks) % WORD
    ensures SumSizes(chunks) % WORD <= SumCapacities(chunks) % WORD
      <==> (SumCapacities(chunks) - SumSizes(chunks)) / WORD == SumCapacities(chunks) / WORD - SumSizes(chunks) / WORD
  {
    SumsOrdered(chunks);
  }

  // ----- the pool -----

  class MemoryPoolAllocator {
    const chunkCapacity: nat
    var chunks: seq<ChunkHeader>
    ghost var live: map<Address, nat>

    ghost predicate Valid()
      reads this
    {
      Fine(chunks, live) && chunkCapacity < WORD
    }

    /** No sum wraps for this request. */
    ghost predicate Safe(n: nat)
      requires chunks != []
      reads this
    {
      NoWrap(chunks[0].size, chunks[0].capacity, chunkCapacity, n)
    }

    constructor (chunkSize: nat)
      requires chunkSize < WORD
      ensures Valid() && live == map[] && chunkCapacity == chunkSize
      ensures |chunks| == 1 && chunks[0].capacity == 0 && fresh(chunks[0].buffer)
    {
      chunkCapacity := chunkSize;
      var buffer := new Byte[0];
      chunks, live := [ChunkHeader(0, 0, buffer)], map[];
    }

    /** `AddChunk`; `got` says whether the base allocator had the memory. */
    method AddChunk(capacity: nat, got: bool) returns (ok: bool)
      requires Valid() && capacity < WORD
      modifies this
      ensures Valid() && live == old(live) && ok == got
      ensures !ok ==> chunks == old(chunks)
      ensures ok ==> |chunks| == |old(chunks)| + 1 && chunks[1..] == old(chunks)
      ensures ok ==> chunks[0].capacity == capacity && chunks[0].size == 0 && fresh(chunks[0].buffer)
    {
      hide Fine;
      ok := got;
      if got {
        var buffer := new Byte[capacity];
        var chunk := ChunkHeader(capacity, 0, buffer);
        ChunkIsFine(chunks, live, chunk);
        chunks := [chunk] + chunks;
      }
    }

    /** `Malloc`: null for no bytes or no memory, else the next bytes of the head chunk. */
    method Malloc(n: nat, got: bool) returns (p: Option<Address>)
      requires Valid() && Safe(n)
      modifies this
      ensures Valid()
      ensures p.None? <==> n == 0 || (old(chunks[0].size) + Align(n) > old(chunks[0].capacity) && !got)
      ensures p.None? ==> live == old(live) && chunks == old(chunks)
      ensures p.Some? ==> p.value !in old(live) && live == old(live)[p.value := Align(n)] && n <= Align(n)
      ensures p.Some? && old(chunks[0].size) + Align(n) <= old(chunks[0].capacity) ==>
        p.value == old(Address(chunks[0].buffer, chunks[0].size)) && chunks == old(Bumped(chunks, Align(n)))
      ensures p.Some? && old(chunks[0].size) + Align(n) > old(chunks[0].capacity) ==>
        && fresh(chunks[0].buffer) && p.value == Address(chunks[0].buffer, 0) && chunks[1..] == old(chunks)
        && chunks[0].size == Align(n) && chunks[0].capacity == if chunkCapacity > Align(n) then chunkCapacity else Align(n)
    {
      hide Fine, Align;
      AtLeastOne(chunks, live);
      if n == 0 {
        return None;
      }
      var size := Align(n);
      if (chunks[0].size + size) % WORD > chunks[0].capacity {
        var ok := AddChunk(if chunkCapacity > size then chunkCapacity else size, got);
        if !ok {
          return None;
        }
      }
      var address := Address(chunks[0].buffer, chunks[0].size);
      BumpIsFine(chunks, live, size);
      chunks := Bumped(chunks, size);
      live := live[address := size];
      p := Some(address);
    }

    /** A block that ends where the head chunk's used part does, with room behind it. */
    ghost predicate GrowsInPlace(block: Address, was: nat, size: nat)
      requires chunks != []
      reads this
    {
      block.buffer == chunks[0].buffer && block.offset + was == chunks[0].size && block.offset + size <= chunks[0].capacity
    }

    /** `Realloc`, the caller stating at most the size the block has. A block that grows where it is or moves keeps its
        old bytes in front, and no byte of any block handed out before changes. */
    method Realloc(original: Option<Address>, originalSize: nat, newSize: nat, got: bool) returns (p: Option<Address>)
      requires Valid() && Safe(newSize) && Safe(Align(newSize)) && originalSize + 7 < WORD
      requires original.Some? ==> original.value in live && Align(originalSize) <= live[original.value]
      modifies this, chunks[0].buffer
      ensures Valid()
      ensures p.None? ==> live == old(live) && chunks == old(chunks)
      ensures newSize == 0 ==> p.None?
      ensures original.Some? && newSize > 0 && (Align(newSize) <= Align(originalSize) || old(GrowsInPlace(original.value, Align(originalSize), Align(newSize)))) ==>
        p == original
      ensures original.Some? && p == original && Align(newSize) <= Align(originalSize) ==> chunks == old(chunks) && live == old(live)
      ensures original.Some? && newSize > 0 && got ==> p.Some?
      ensures p.Some? ==> p.value in live && newSize <= live[p.value]
      ensures p.Some? && p != original ==> p.value !in old(live) && live == old(live)[p.value := Align(newSize)]
      ensures p.Some? && p == original ==> live == old(live)[p.value := live[p.value]] && old(live)[p.value] <= live[p.value]
      ensures original.Some? && p.Some? ==> HoldsBytes(p.value, old(BytesAt(original.value, Align(originalSize))))
      ensures forall q :: q in old(live) ==> HoldsBytes(q, old(BytesAt(q, live[q])))
    {
      hide Fine, Align, Held;
      AtLeastOne(chunks, live);
      LiveInBuffers(chunks, live);
      if original.None? {
        p := Malloc(newSize, got);
        return;
      }
      if newSize == 0 {
        return None;
      }
      var was, size := Align(originalSize), Align(newSize);
      var block := original.value;
      if was >= size {
        return original;
      }
      if block.buffer == chunks[0].buffer && chunks[0].size >= was && block.offset == chunks[0].size - was {
        HeldInHead(chunks, live, block);
        var increment := size - was;
        if chunks[0].size + increment <= chunks[0].capacity {
          GrowthIsFine(chunks, live, block, size);
          chunks := Bumped(chunks, increment);
          live := live[block := size];
          return original;
        }
      }
      AlignTwice(newSize);
      p := Move(block, was, size, got);
    }

    /** The last part of `Realloc`: allocate and copy, the old block staying behind. */
    method Move(block: Address, was: nat, size: nat, got: bool) returns (p: Option<Address>)
      requires Valid() && Safe(size) && block in live && was <= live[block] && 0 < was + size && was <= size == Align(size)
      modifies this, chunks[0].buffer
      ensures Valid()
      ensures p.None? ==> live == old(live) && chunks == old(chunks) && !got
      ensures p.Some? ==> p.value !in old(live) && live == old(live)[p.value := size]
      ensures p.Some? ==> HoldsBytes(p.value, old(BytesAt(block, was)))
      ensures forall q :: q in old(live) ==> HoldsBytes(q, old(BytesAt(q, live[q])))
    {
      hide Fine, Align, Held;
      AtLeastOne(chunks, live);
      LiveInBuffers(chunks, live);
      ghost var before := live;
      p := Malloc(size, got);
      if p.Some? {
        LiveInBuffers(chunks, live);
        NewIsApart(chunks, before, live, p.value);
        CopyBytes(p.value, block, was);
        forall q | q in before ensures HoldsBytes(q, old(BytesAt(q, live[q]))) {
          assert Disjoint(q, before[q], p.value, size) && q.offset + before[q] <= q.buffer.Length;
          assert q.buffer[q.offset..q.offset + before[q]] == old(q.buffer[q.offset..q.offset + live[q]]);
        }
      }
    }

    /** `Clear`: all chunks but the first one made are given back. */
    method Clear()
      requires Valid()
      modifies this
      ensures Valid() && live == map[] && |chunks| == 1 && chunks[0] == old(chunks[|chunks| - 1]).(size := 0)
    {
      while |chunks| > 1
        invariant chunks != [] && chunks[|chunks| - 1] == old(chunks[|chunks| - 1])
        decreases |chunks|
      {
        chunks := chunks[1..];
      }
      chunks := [chunks[0].(size := 0)];
      live := map[];
    }

    /** `Size`, added up in the size type. */
    method Size() returns (size: nat)
      ensures size == SumSizes(chunks) % WORD
    {
      size := 0;
      assert chunks[0..] == chunks;
      for k := 0 to |chunks|
        invariant size < WORD && (size + SumSizes(chunks[k..])) % WORD == SumSizes(chunks) % WORD
      {
        assert chunks[k..][1..] == chunks[k + 1..];
        WrapsAlike(size + chunks[k].size, SumSizes(chunks[k + 1..]));
        size := (size + chunks[k].size) % WORD;
      }
    }

    /** `Capacity`, added up in the size type. */
    method Capacity() returns (capacity: nat)
      ensures capacity == SumCapacities(chunks) % WORD
    {
      capacity := 0;
      assert chunks[0..] == chunks;
      for k := 0 to |chunks|
        invariant capacity < WORD && (capacity + SumCapacities(chunks[k..])) % WORD == SumCapacities(chunks) % WORD
      {
        assert chunks[k..][1..] == chunks[k + 1..];
        WrapsAlike(capacity + chunks[k].capacity, SumCapacities(chunks[k + 1..]));
        capacity := (capacity + chunks[k].capacity) % WORD;
      }
    }
  }

  lemma WrapsAlike(a: nat, b: nat)
    ensures (a % WORD + b) % WORD == (a + b) % WORD
  {
  }

  /** The bytes `w` stand at an address. */
  ghost predicate HoldsBytes(p: Address, w: Text)
    reads p.buffer
  {
    p.offset + |w| <= p.buffer.Length && p.buffer[p.offset..p.offset + |w|] == w
  }

  /** The bytes at an address, as far as its buffer goes. */
  ghost function BytesAt(p: Address, n: nat): (w: Text)
    reads p.buffer
  {
    if p.offset + n <= p.buffer.Length then p.buffer[p.offset..p.offset + n] else []
  }

  lemma AlignTwice(n: nat)
    requires n + 7 < WORD && Align(n) + 7 < WORD
    ensures Align(Align(n)) == Align(n)
  {
  }

  lemma LiveInBuffers(chunks: seq<ChunkHeader>, live: map<Address, nat>)
    requires Fine(chunks, live)
    ensures forall p :: p in live ==> p.offset + live[p] <= p.buffer.Length
  {
    forall p | p in live ensures p.offset + live[p] <= p.buffer.Length {
      assert Held(chunks, p, live[p]);
      var k: nat :| HeldBy(chunks, p, live[p], k);
    }
  }

  lemma NewIsApart(chunks: seq<ChunkHeader>, before: map<Address, nat>, live: map<Address, nat>, p: Address)
    requires Fine(chunks, live) && p !in before && p in live && live == before[p := live[p]]
    ensures forall q :: q in before ==> Disjoint(q, before[q], p, live[p])
  {
    forall q | q in before ensures Disjoint(q, before[q], p, live[p]) {
      assert q in live && q != p;
    }
  }

  /** `memcpy` between two blocks that share no byte. */
  method CopyBytes(to: Address, from: Address, n: nat)
    requires to.offset + n <= to.buffer.Length && from.offset + n <= from.buffer.Length && Disjoint(from, n, to, n)
    modifies to.buffer
    ensures HoldsBytes(to, old(BytesAt(from, n)))
    ensures forall k :: 0 <= k < to.buffer.Length && !(to.offset <= k < to.offset + n) ==> to.buffer[k] == old(to.buffer[k])
  {
    for k := 0 to n
      invariant forall m :: 0 <= m < to.buffer.Length && !(to.offset <= m < to.offset + k) ==> to.buffer[m] == old(to.buffer[m])
      invariant to.buffer[to.offset..to.offset + k] == old(from.buffer[from.offset..from.offset + k])
    {
      to.buffer[to.offset + k] := from.buffer[from.offset + k];
    }
  }

  lemma AtLeastOne(chunks: seq<ChunkHeader>, live: map<Address, nat>)
    requires Fine(chunks, live)
    ensures chunks != [] && chunks[0].size <= chunks[0].capacity < WORD
  {
  }
}
