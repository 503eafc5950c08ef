/** curl's `bufq`: a byte queue made of a linked list of fixed-size chunks, with a list of spare
    chunks, an optional pool shared with other queues, and a hard or a soft chunk limit.

    The whole history of a queue is kept in two ghost sequences: the bytes it ever accepted and the
    bytes that ever left it. `Valid` says that what left, followed by what the chunks hold, is what
    was accepted; every operation keeps it. */
module Bufq {
  import opened Common
  import opened BufqChunk
  import opened BufqList

  /** The unread bytes of a list of buffers, in list order. */
  ghost function Flatten(bufs: seq<Buffer>): seq<Byte> {
    if bufs == [] then [] else bufs[0].Unread() + Flatten(bufs[1..])
  }

  lemma {:induction false} FlattenSnoc(bufs: seq<Buffer>, b: Buffer)
    ensures Flatten(bufs + [b]) == Flatten(bufs) + b.Unread()
  {
    if bufs == [] {
      assert bufs + [b] == [b] && [b][1..] == [];
    } else {
      assert (bufs + [b])[1..] == bufs[1..] + [b];
      FlattenSnoc(bufs[1..], b);
    }
  }

  /** The capacity of `k` chunks of `size` bytes. */
  ghost function Capacity(k: nat, size: nat): nat {
    if k == 0 then 0 else Capacity(k - 1, size) + size
  }

  lemma {:induction false} CapacityIsProduct(k: nat, size: nat)
    ensures Capacity(k, size) == k * size
  {
    if k > 0 {
      CapacityIsProduct(k - 1, size);
      assert k * size == (k - 1) * size + size;
    }
  }

  lemma Monotonic(k: nat, m: nat, size: nat)
    ensures k <= m ==> k * size <= m * size
  {
  }

  /** Buffers of `size` bytes hold at most `size` bytes each. */
  lemma {:induction false} FlattenBound(bufs: seq<Buffer>, size: nat)
    requires Sized(bufs, size)
    ensures |Flatten(bufs)| <= Capacity(|bufs|, size)
  {
    if bufs != [] {
      FlattenBound(bufs[1..], size);
    }
  }

  /** The shape of the chunks with data. Every chunk but the last is full and has unread bytes (the
      first one may also have just been emptied when `pruned` is false), only the first one has been
      read from, and a chunk that was read empty has started over. */
  ghost predicate Shape(bufs: seq<Buffer>, size: nat, pruned: bool) {
    forall i {:trigger bufs[i]} :: 0 <= i < |bufs| ==>
      && bufs[i].Valid() && |bufs[i].data| == size
      && (bufs[i].IsEmpty() ==> bufs[i].IsUnused() && (i == |bufs| - 1 || (i == 0 && !pruned)))
      && (!bufs[i].IsEmpty() && i < |bufs| - 1 ==> bufs[i].IsFull())
      && (i > 0 ==> bufs[i].r == 0)
  }

  lemma FlattenTail(bufs: seq<Buffer>, b: Buffer, bytes: seq<Byte>)
    requires bufs != [] && b.Unread() == bufs[|bufs| - 1].Unread() + bytes
    ensures Flatten(bufs[|bufs| - 1 := b]) == Flatten(bufs) + bytes
  {
    hide Flatten, Buffer.Unread;
    var init, last := bufs[..|bufs| - 1], bufs[|bufs| - 1];
    assert bufs == init + [last] && bufs[|bufs| - 1 := b] == init + [b];
    FlattenSnoc(init, last);
    FlattenSnoc(init, b);
    Assoc(Flatten(init), last.Unread(), bytes);
  }

  lemma FlattenHead(bufs: seq<Buffer>, b: Buffer, n: nat)
    requires bufs != [] && n <= |bufs[0].Unread()| && b.Unread() == bufs[0].Unread()[n..]
    ensures n <= |Flatten(bufs)| && Flatten(bufs[0 := b]) == Flatten(bufs)[n..]
    ensures Flatten(bufs)[..n] == bufs[0].Unread()[..n]
  {
    var first, rest := bufs[0].Unread(), Flatten(bufs[1..]);
    assert bufs[0 := b][1..] == bufs[1..];
    assert (first + rest)[n..] == first[n..] + rest;
    assert (first + rest)[..n] == first[..n];
  }

  /** Writing behind the last buffer keeps the shape. */
  lemma TailFilled(bufs: seq<Buffer>, b: Buffer, bytes: seq<Byte>, size: nat)
    requires bufs != [] && Shape(bufs, size, true) && Filled(bufs[|bufs| - 1], b, bytes)
    ensures Shape(bufs[|bufs| - 1 := b], size, true)
  {
  }

  /** Taking bytes out of the first buffer keeps the shape, up to that buffer having become empty. */
  lemma HeadDrained(bufs: seq<Buffer>, b: Buffer, n: nat, size: nat)
    requires bufs != [] && Shape(bufs, size, true) && Drained(bufs[0], b, n)
    ensures Shape(bufs[0 := b], size, false)
  {
  }

  /** There is something exactly if `offset` is inside the contents, and it is what the contents have
      from there on. */
  lemma {:induction false} BytesAtOffset(bufs: seq<Buffer>, offset: nat, size: nat)
    requires Shape(bufs, size, true)
    ensures BytesAt(bufs, offset) != [] <==> offset < |Flatten(bufs)|
    ensures offset <= |Flatten(bufs)| ==> BytesAt(bufs, offset) <= Flatten(bufs)[offset..]
  {
    if bufs != [] {
      hide Buffer.Unread;
      var first, rest := bufs[0].Unread(), Flatten(bufs[1..]);
      if first == [] {
        EmptyIsLast(bufs, size);
      } else if offset < |first| {
        DropConcat(first, rest, offset);
      } else {
        ShapeRest(bufs, size);
        BytesAtOffset(bufs[1..], offset - |first|, size);
        if offset <= |first| + |rest| {
          DropConcat(first, rest, offset);
        }
      }
    }
  }

  /** Of the space of the chunks, what is not unread or free was read from the first one. */
  lemma {:induction false} SpaceOfChunks(bufs: seq<Buffer>, size: nat)
    requires Shape(bufs, size, true) && bufs != []
    ensures bufs[|bufs| - 1].w <= size
    ensures |Flatten(bufs)| + (size - bufs[|bufs| - 1].w) + bufs[0].r == Capacity(|bufs|, size)
    ensures size > 0 ==> bufs[0].r < size
  {
    if |bufs| > 1 {
      ShapeRest(bufs, size);
      SpaceOfChunks(bufs[1..], size);
      assert !bufs[0].IsEmpty();
    } else {
      assert bufs[1..] == [];
    }
  }

  lemma {:induction false} CapacitySum(j: nat, k: nat, size: nat)
    ensures Capacity(j + k, size) == Capacity(j, size) + Capacity(k, size)
  {
    if k > 0 {
      CapacitySum(j, k - 1, size);
    }
  }

  lemma EmptyIsLast(bufs: seq<Buffer>, size: nat)
    requires Shape(bufs, size, true) && bufs != [] && bufs[0].Unread() == []
    ensures bufs == [bufs[0]] && Flatten(bufs) == [] && Flatten(bufs[1..]) == []
  {
    assert bufs[0].IsEmpty();
    assert bufs[1..] == [];
  }

  lemma ShapeRest(bufs: seq<Buffer>, size: nat)
    requires Shape(bufs, size, true) && bufs != []
    ensures Shape(bufs[1..], size, true)
  {
  }

  /** There are no unread bytes exactly if the first chunk has none. */
  lemma EmptyHead(bufs: seq<Buffer>, size: nat)
    requires Shape(bufs, size, true)
    ensures Flatten(bufs) == [] <==> bufs == [] || bufs[0].IsEmpty()
  {
    if bufs != [] && bufs[0].IsEmpty() {
      assert bufs[1..] == [];
    }
  }

  /** An error other than being blocked. */
  predicate IsHard(code: Code) {
    code != Ok && code != Again
  }

  /** The code of a call that a reader or writer stopped: its error, or whether anything was done. */
  function Stopped(last: Code, n: nat): Code {
    if IsHard(last) then last else if n == 0 then Again else Ok
  }

  lemma Advance(bytes: seq<Byte>, k: nat, n: nat)
    requires k + n <= |bytes|
    ensures bytes[..k] + bytes[k..][..n] == bytes[..k + n] && bytes[k..][n..] == bytes[k + n..]
  {
  }

  /** Moving the first `n` bytes of `c` from one side to the other, and adding bytes at the end. */
  lemma Reassociate(a: seq<Byte>, c: seq<Byte>, n: nat, bytes: seq<Byte>)
    requires n <= |c|
    ensures (a + c[..n]) + c[n..] == a + c && (a + c) + bytes == a + (c + bytes)
  {
  }

  /** With the same history in front, what passed through and what is left account for each other. */
  lemma Account(history: seq<Byte>, passed: seq<Byte>, after: seq<Byte>, before: seq<Byte>, added: seq<Byte>)
    requires (history + passed) + after == (history + before) + added
    ensures passed + after == before + added
  {
    assert ((history + passed) + after)[|history|..] == passed + after;
    assert ((history + before) + added)[|history|..] == before + added;
  }

  class Queue {
    const data: ChunkQueue
    const spare: ChunkStack
    const pool: Pool?
    var chunkCount: nat
    const maxChunks: nat
    const chunkSize: nat
    const softLimit: bool
    const noSpares: bool
    /** True when memory for new chunks never runs out; otherwise any allocation may fail. */
    const allocates: bool

    ghost var accepted: seq<Byte>
    ghost var removed: seq<Byte>

    ghost function PoolRepr(): set<object>
      reads pool
    {
      if pool == null then {} else pool.Repr
    }

    /** The objects of this queue alone. */
    ghost function Own(): set<object>
      reads data, spare
    {
      data.Repr + spare.Repr
    }

    /** What an operation may change besides the queue's own fields. */
    ghost function Heap(): set<object>
      reads data, spare, pool
    {
      data.Repr + spare.Repr + PoolRepr()
    }

    /** The lists are well formed and disjoint, and the chunk count is that of both lists, plus
        `extra` chunks that are in the hands of an operation. */
    ghost predicate Lists(extra: nat)
      reads this, data, spare, pool, Own(), PoolRepr()
    {
      && chunkSize > 0 && maxChunks > 0
      && data.Valid() && spare.Valid() && Sized(spare.bufs, chunkSize)
      && (pool != null ==> pool.Valid() && pool.chunkSize == chunkSize)
      && this !in data.Repr && this !in spare.Repr && this !in PoolRepr()
      && data.Repr !! spare.Repr && data.Repr !! PoolRepr() && spare.Repr !! PoolRepr()
      && chunkCount == |data.nodes| + |spare.nodes| + extra
      && (!softLimit ==> chunkCount <= maxChunks)
    }

    /** The chunk is in none of the lists. */
    ghost predicate Outside(chunk: Chunk)
      reads data, spare, pool
    {
      chunk !in data.Repr && chunk !in spare.Repr && chunk !in PoolRepr()
    }

    ghost function Contents(): seq<Byte>
      reads data
    {
      Flatten(data.bufs)
    }

    ghost predicate Valid()
      reads this, data, spare, pool, Own(), PoolRepr()
      ensures Valid() ==> accepted == removed + Contents()
      ensures Valid() && data.head == null ==> Contents() == []
    {
      && Lists(0) && Shape(data.bufs, chunkSize, true)
      && accepted == removed + Contents()
    }

    /** How many more chunks can become the tail: the spares, then new ones up to the limit. */
    ghost function Slots(): nat
      reads this, spare
    {
      |spare.nodes| + if chunkCount < maxChunks then maxChunks - chunkCount else 0
    }

    ghost function TailRoom(): nat
      reads data
    {
      if data.bufs == [] || data.bufs[|data.bufs| - 1].IsFull() then 0
      else |data.bufs[|data.bufs| - 1].data| - data.bufs[|data.bufs| - 1].w
    }

    /** The space that the next read is given: what is left in the tail, or all of a new one. */
    ghost function NextRoom(): (n: nat)
      reads this, data
      ensures chunkSize > 0 ==> n > 0
    {
      if TailRoom() > 0 then TailRoom() else chunkSize
    }

    /** The number of bytes that a hard-limited queue still accepts. */
    ghost function Room(): nat
      reads this, spare, data
    {
      TailRoom() + Capacity(Slots(), chunkSize)
    }

    /** `bufq_init` */
    constructor (pool: Pool?, chunkSize: nat, maxChunks: nat, softLimit: bool, noSpares: bool, allocates: bool)
      requires chunkSize > 0 && maxChunks > 0
      requires pool != null ==> pool.Valid() && pool.chunkSize == chunkSize
      ensures Valid() && accepted == removed == Contents() == [] && data.nodes == spare.nodes == []
      ensures this.pool == pool && this.chunkSize == chunkSize && this.maxChunks == maxChunks
      ensures this.softLimit == softLimit && this.noSpares == noSpares && this.allocates == allocates
      ensures fresh(Own())
    {
      this.pool, this.chunkSize, this.maxChunks := pool, chunkSize, maxChunks;
      this.softLimit, this.noSpares, this.allocates := softLimit, noSpares, allocates;
      data := new ChunkQueue();
      spare := new ChunkStack();
      chunkCount, accepted, removed := 0, [], [];
    }

    /** The second half of `get_spare`: one more chunk, from the pool or from memory. */
    method NewChunk() returns (chunk: Chunk?)
      requires Lists(0) && (softLimit || chunkCount < maxChunks)
      modifies this`chunkCount, PoolRepr()
      ensures Lists(if chunk == null then 0 else 1)
      ensures chunkCount == old(chunkCount) + if chunk == null then 0 else 1
      ensures chunk == null ==> !allocates
      ensures chunk != null ==> Unused(chunk, chunkSize) && Outside(chunk)
      ensures PoolRepr() <= old(PoolRepr())
      ensures chunk != null ==> fresh({chunk} - old(PoolRepr()))
    {
      hide ChunkQueue.Valid, ChunkStack.Valid;
      var memory := *;
      memory := memory || allocates;
      chunk := null;
      if pool != null {
        chunk := pool.Take(memory);
        assert chunk != null ==> Outside(chunk);
      } else if memory {
        chunk := new Chunk(chunkSize);
        assert Outside(chunk);
      }
      if chunk != null {
        chunkCount := chunkCount + 1;
      }
    }

    /** `get_spare`: a reset chunk from the spares, the pool or memory; null when there is none. */
    method GetSpare() returns (chunk: Chunk?)
      requires Lists(0)
      modifies this`chunkCount, spare.Repr, PoolRepr()
      ensures Lists(if chunk == null then 0 else 1)
      ensures chunk == null ==> Slots() == old(Slots())
      ensures chunk == null && allocates ==> !softLimit && old(Slots()) == 0
      ensures chunk != null && !softLimit ==> Slots() == old(Slots()) - 1
      ensures chunk != null ==> Unused(chunk, chunkSize) && Outside(chunk)
      ensures Heap() <= old(Heap())
      ensures chunk != null ==> fresh({chunk} - old(Heap()))
    {
      hide ChunkQueue.Valid, ChunkStack.Valid;
      if spare.top != null {
        chunk := spare.Pop();
      } else if chunkCount >= maxChunks && !softLimit {
        chunk := null;
      } else {
        chunk := NewChunk();
      }
    }

    /** An unused chunk becomes the new tail, and possibly the new head. */
    method AttachTail(chunk: Chunk)
      requires Lists(1) && Shape(data.bufs, chunkSize, true) && TailRoom() == 0
      requires Unused(chunk, chunkSize) && Outside(chunk)
      modifies data.Repr, chunk
      ensures Lists(0) && Shape(data.bufs, chunkSize, true) && Contents() == old(Contents())
      ensures data.Repr == old(data.Repr) + {chunk}
      ensures data.tail != null && TailRoom() == chunkSize
    {
      hide ChunkQueue.Valid, ChunkStack.Valid, Flatten;
      FlattenSnoc(data.bufs, chunk.buf);
      data.Append(chunk);
    }

    /** The second half of `get_non_full_tail`: a spare chunk as the new tail, if there is one. */
    method Grow() returns (found: bool)
      requires Valid() && TailRoom() == 0
      modifies this`chunkCount, Heap()
      ensures Valid()
      ensures fresh(Heap() - old(Heap()))
      ensures found ==> TailRoom() == chunkSize && data.tail != null
      ensures !found && allocates ==> !softLimit && old(Slots()) == 0
      ensures !found ==> Slots() == old(Slots()) && TailRoom() == 0
      ensures found && !softLimit ==> Slots() == old(Slots()) - 1
      ensures Contents() == old(Contents())
    {
      hide ChunkQueue.Valid, ChunkStack.Valid, Flatten;
      var chunk := GetSpare();
      found := chunk != null;
      if found {
        AttachTail(chunk);
      }
    }

    /** `get_non_full_tail`: makes sure that the tail has room, appending a spare chunk if needed. */
    method GetNonFullTail() returns (found: bool)
      requires Valid()
      modifies this`chunkCount, Heap()
      ensures Valid() && Contents() == old(Contents())
      ensures fresh(Heap() - old(Heap()))
      ensures found ==> TailRoom() == old(NextRoom()) && data.tail != null
      ensures !found && allocates ==> !softLimit && Slots() == 0 && TailRoom() == 0
      ensures !softLimit ==> Room() == old(Room())
    {
      hide ChunkQueue.Valid, ChunkStack.Valid, Flatten;
      if data.tail != null && !data.tail.buf.IsFull() {
        found := true;
      } else {
        found := Grow();
      }
    }

    /** `chunk_append` on the tail, as seen by the queue. */
    method FillTail(bytes: seq<Byte>) returns (n: nat)
      requires Valid() && TailRoom() > 0 && data.tail != null
      modifies this`accepted, data.Repr
      ensures Valid() && data.Repr == old(data.Repr)
      ensures n == Min(old(TailRoom()), |bytes|) && TailRoom() == old(TailRoom()) - n
      ensures accepted == old(accepted) + bytes[..n]
    {
      hide ChunkQueue.Valid, ChunkStack.Valid, Flatten;
      ghost var before := data.bufs;
      n := data.AppendToTail(bytes);
      TailFilled(before, data.bufs[|before| - 1], bytes[..n], chunkSize);
      FlattenTail(before, data.bufs[|before| - 1], bytes[..n]);
      Reassociate(removed, Flatten(before), 0, bytes[..n]);
      accepted := accepted + bytes[..n];
    }

    /** One turn of the write loop: get a tail with room and fill it. */
    method WriteSome(bytes: seq<Byte>) returns (tail: bool, n: nat)
      requires Valid()
      modifies this`chunkCount, this`accepted, Heap()
      ensures Valid() && fresh(Heap() - old(Heap()))
      ensures n <= |bytes| && accepted == old(accepted) + bytes[..n] && removed == old(removed)
      ensures tail && bytes != [] ==> n > 0
      ensures !tail ==> n == 0 && (allocates ==> !softLimit && Slots() == 0 && TailRoom() == 0)
      ensures !softLimit ==> Room() == old(Room()) - n
    {
      hide ChunkQueue.Valid, ChunkStack.Valid;
      n := 0;
      tail := GetNonFullTail();
      if tail {
        n := FillTail(bytes);
      }
    }

    /** `Curl_bufq_write` */
    method Write(bytes: seq<Byte>) returns (code: Code, written: nat)
      requires Valid()
      modifies this, Heap()
      ensures Valid() && fresh(Heap() - old(Heap()))
      ensures written <= |bytes| && removed == old(removed)
      ensures accepted == old(accepted) + bytes[..written]
      ensures code == Ok ==> written > 0 || bytes == []
      ensures code == Again ==> written == 0 && bytes != [] && !softLimit
      ensures code == Ok || code == Again || (code == OutOfMemory && !allocates)
      ensures allocates && !softLimit ==> written == Min(old(Room()), |bytes|) && Room() == old(Room()) - written
      ensures allocates && !softLimit && bytes != [] ==> (code == Again <==> old(IsFull()))
      ensures allocates && softLimit ==> code == Ok && written == |bytes|
    {
      hide Valid, Contents, IsFull;
      assert bytes[0..] == bytes && accepted + bytes[..0] == accepted;
      written := 0;
      var rest, exhausted := bytes, false;
      while rest != []
        invariant Valid() && fresh(Heap() - old(Heap()))
        invariant written <= |bytes| && rest == bytes[written..]
        invariant accepted == old(accepted) + bytes[..written] && removed == old(removed)
        invariant !softLimit ==> Room() == old(Room()) - written
        invariant !exhausted
        decreases |rest|
      {
        var tail, n := WriteSome(rest);
        if !tail {
          // a tail was to be had, unless the hard limit is reached
          exhausted := chunkCount < maxChunks || softLimit;
          break;
        }
        if n == 0 {
          break;
        }
        Advance(bytes, written, n);
        Assoc(old(accepted), bytes[..written], rest[..n]);
        written := written + n;
        rest := rest[n..];
      }
      code := if exhausted then OutOfMemory else if written == 0 && rest != [] then Again else Ok;
    }

    /** How many of `dropped` emptied chunks leave the queue, for the pool or for good; the others become
        spares. */
    ghost function Leaving(count: nat, dropped: nat): (k: nat)
      ensures k <= dropped
    {
      if pool != null || noSpares then dropped
      else Min(dropped, if count > maxChunks then count - maxChunks else 0)
    }

    ghost function Pooled(): nat
      reads pool, if pool == null then {} else {pool.spare}
    {
      if pool == null then 0 else |pool.spare.nodes|
    }

    /** What `prune_head` does with an emptied chunk: it goes to the pool, is freed or becomes a spare. */
    method Dispose(chunk: Chunk)
      requires Lists(1) && Outside(chunk) && chunk.buf.Valid() && |chunk.buf.data| == chunkSize
      modifies this`chunkCount, spare.Repr, PoolRepr(), chunk
      ensures Lists(0)
      ensures Heap() <= old(Heap()) + {chunk}
      ensures chunkCount + Leaving(old(chunkCount), 1) == old(chunkCount)
      ensures |spare.nodes| + Leaving(old(chunkCount), 1) == |old(spare.nodes)| + 1
      ensures pool != null ==> Pooled() == Min(old(Pooled()) + 1, pool.spareMax)
    {
      hide ChunkQueue.Valid, ChunkStack.Valid;
      if pool != null {
        pool.Put(chunk);
        chunkCount := chunkCount - 1;
      } else if chunkCount > maxChunks || noSpares {
        chunkCount := chunkCount - 1;
      } else {
        spare.Push(chunk);
      }
    }

    /** One turn of `prune_head` */
    method DropHead()
      requires Lists(0) && Shape(data.bufs, chunkSize, false)
      requires data.head != null && data.bufs[0].IsEmpty()
      modifies this`chunkCount, Heap()
      ensures Lists(0) && Shape(data.bufs, chunkSize, true) && Contents() == old(Contents())
      ensures Heap() <= old(Heap()) && |data.bufs| < |old(data.bufs)| && data.bufs == old(data.bufs)[1..]
      ensures chunkCount + Leaving(old(chunkCount), 1) == old(chunkCount)
      ensures |spare.nodes| + Leaving(old(chunkCount), 1) == |old(spare.nodes)| + 1
      ensures pool != null ==> Pooled() == Min(old(Pooled()) + 1, pool.spareMax)
    {
      hide ChunkQueue.Valid, ChunkStack.Valid;
      var chunk := data.Pop();
      Dispose(chunk);
    }

    /** `prune_head`: the empty chunks at the head are dropped, and each goes to the pool, is freed or
        becomes a spare. */
    method PruneHead() returns (ghost dropped: nat)
      requires Lists(0) && Shape(data.bufs, chunkSize, false)
      modifies this`chunkCount, Heap()
      ensures Lists(0) && Shape(data.bufs, chunkSize, true) && Contents() == old(Contents())
      ensures data.head == null || !data.bufs[0].IsEmpty()
      ensures Heap() <= old(Heap())
      ensures dropped <= |old(data.bufs)| && data.bufs == old(data.bufs)[dropped..]
      ensures forall i :: 0 <= i < dropped ==> old(data.bufs)[i].IsEmpty()
      ensures chunkCount + Leaving(old(chunkCount), dropped) == old(chunkCount)
      ensures |spare.nodes| + Leaving(old(chunkCount), dropped) == |old(spare.nodes)| + dropped
      ensures pool != null ==> Pooled() == Min(old(Pooled()) + dropped, pool.spareMax)
    {
      hide ChunkQueue.Valid, ChunkStack.Valid, Leaving, Flatten, Pooled;
      dropped := 0;
      PoolBound();
      LeavingStep(chunkCount, 0);
      while data.head != null && data.head.buf.IsEmpty()
        invariant Lists(0) && Shape(data.bufs, chunkSize, false) && Contents() == old(Contents())
        invariant Heap() <= old(Heap())
        invariant dropped <= |old(data.bufs)| && data.bufs == old(data.bufs)[dropped..]
        invariant forall i :: 0 <= i < dropped ==> old(data.bufs)[i].IsEmpty()
        invariant chunkCount + Leaving(old(chunkCount), dropped) == old(chunkCount)
        invariant |spare.nodes| + Leaving(old(chunkCount), dropped) == |old(spare.nodes)| + dropped
        invariant pool != null ==> Pooled() == Min(old(Pooled()) + dropped, pool.spareMax)
        decreases |data.bufs|
      {
        LeavingStep(old(chunkCount), dropped);
        DropHead();
        dropped := dropped + 1;
      }
    }

    /** `prune_head`, as far as the queued bytes go. */
    method Prune()
      requires Lists(0) && Shape(data.bufs, chunkSize, false)
      modifies this`chunkCount, Heap()
      ensures Lists(0) && Shape(data.bufs, chunkSize, true) && Contents() == old(Contents())
      ensures data.head == null || !data.bufs[0].IsEmpty()
      ensures Heap() <= old(Heap())
    {
      hide ChunkQueue.Valid, ChunkStack.Valid, Leaving, Pooled, Flatten, Shape;
      ghost var dropped := PruneHead();
    }

    lemma LeavingStep(count: nat, dropped: nat)
      ensures Leaving(count, 0) == 0
      ensures Leaving(count, dropped) <= count ==>
                Leaving(count, dropped + 1) == Leaving(count, dropped) + Leaving(count - Leaving(count, dropped), 1)
    {
    }

    lemma PoolBound()
      requires pool != null ==> pool.Valid()
      ensures pool != null ==> Pooled() <= pool.spareMax
    {
    }

    /** One turn of the read loop: read from the head and prune. */
    method ReadSome(dst: array<Byte>, at: nat, len: nat) returns (n: nat)
      requires Valid() && data.head != null
      requires len > 0 && at + len <= dst.Length && dst !in Heap()
      modifies this`chunkCount, this`removed, Heap(), dst
      ensures Valid() && Heap() <= old(Heap()) && accepted == old(accepted)
      ensures n <= len && n <= |old(Contents())| && Contents() == old(Contents())[n..]
      ensures removed == old(removed) + old(Contents())[..n]
      ensures n == 0 ==> data.head == null
      ensures dst[..at + n] == old(dst[..at]) + old(Contents())[..n]
      ensures dst[at + n..] == old(dst[at + n..])
    {
      hide ChunkQueue.Valid, ChunkStack.Valid;
      ghost var before := data.bufs;
      n := data.ReadHead(dst, at, len);
      HeadDrained(before, data.bufs[0], n, chunkSize);
      FlattenHead(before, data.bufs[0], n);
      Reassociate(removed, Flatten(before), n, []);
      removed := removed + Flatten(before)[..n];
      Prune();
    }

    /** `Curl_bufq_read` */
    method Read(dst: array<Byte>, len: nat) returns (code: Code, n: nat)
      requires Valid() && len <= dst.Length && dst !in Heap()
      modifies this`chunkCount, this`removed, Heap(), dst
      ensures Valid() && Heap() <= old(Heap()) && accepted == old(accepted)
      ensures n == Min(len, |old(Contents())|)
      ensures code == if n == 0 then Again else Ok
      ensures dst[..n] == old(Contents())[..n] && dst[n..] == old(dst[n..])
      ensures Contents() == old(Contents())[n..] && removed == old(removed) + old(Contents())[..n]
    {
      hide Valid, Contents;
      ghost var c := Contents();
      n := 0;
      while n < len && data.head != null
        invariant Valid() && Heap() <= old(Heap()) && accepted == old(accepted)
        invariant n <= len && n <= |c| && Contents() == c[n..]
        invariant dst[..n] == c[..n] && dst[n..] == old(dst[n..])
        invariant removed == old(removed) + c[..n]
        decreases len - n, if data.head != null then 1 else 0
      {
        var k := ReadSome(dst, n, len - n);
        Advance(c, n, k);
        Assoc(old(removed), c[..n], c[n..][..k]);
        n := n + k;
      }
      code := if n == 0 then Again else Ok;
    }

    /** One turn of the skip loop. */
    method SkipSome(amount: nat) returns (n: nat)
      requires Valid() && data.head != null && amount > 0
      modifies this`chunkCount, this`removed, Heap()
      ensures Valid() && Heap() <= old(Heap()) && accepted == old(accepted)
      ensures n <= amount && n <= |old(Contents())| && Contents() == old(Contents())[n..]
      ensures removed == old(removed) + old(Contents())[..n]
      ensures n == 0 ==> data.head == null
    {
      hide ChunkQueue.Valid, ChunkStack.Valid;
      ghost var before := data.bufs;
      n := data.SkipHead(amount);
      HeadDrained(before, data.bufs[0], n, chunkSize);
      FlattenHead(before, data.bufs[0], n);
      Reassociate(removed, Flatten(before), n, []);
      removed := removed + Flatten(before)[..n];
      Prune();
    }

    /** `Curl_bufq_skip` */
    method Skip(amount: nat)
      requires Valid()
      modifies this`chunkCount, this`removed, Heap()
      ensures Valid() && Heap() <= old(Heap()) && accepted == old(accepted)
      ensures removed == old(removed) + old(Contents())[..Min(amount, |old(Contents())|)]
      ensures Contents() == old(Contents())[Min(amount, |old(Contents())|)..]
    {
      hide Valid, Contents;
      var left: nat := amount;
      ghost var c, done := Contents(), 0;
      while left > 0 && data.head != null
        invariant Valid() && Heap() <= old(Heap()) && accepted == old(accepted)
        invariant done + left == amount && done <= |c| && Contents() == c[done..]
        invariant removed == old(removed) + c[..done]
        decreases left, if data.head != null then 1 else 0
      {
        var n := SkipSome(left);
        Advance(c, done, n);
        Assoc(old(removed), c[..done], c[done..][..n]);
        left, done := left - n, done + n;
      }
      Emptied();
      assert done == Min(amount, |c|);
    }

    lemma Emptied()
      requires Valid()
      ensures data.head == null ==> Contents() == []
    {
    }

    /** The head becomes a spare as it is. */
    method Shelve()
      requires Lists(0) && Shape(data.bufs, chunkSize, true) && data.head != null
      modifies data.Repr, spare.Repr
      ensures Lists(0) && Shape(data.bufs, chunkSize, true)
      ensures Own() == old(Own()) && |data.bufs| == |old(data.bufs)| - 1
      ensures |spare.nodes| == |old(spare.nodes)| + 1
    {
      hide ChunkQueue.Valid, ChunkStack.Valid;
      var chunk := data.Pop();
      spare.Push(chunk);
    }

    /** `Curl_bufq_reset`: everything unread is dropped, every chunk becomes a spare. */
    method Reset()
      requires Valid()
      modifies this`removed, data.Repr, spare.Repr
      ensures Valid() && Own() == old(Own()) && Heap() == old(Heap()) && Contents() == [] && removed == accepted
      ensures Slots() == old(Slots()) + |old(data.bufs)| && chunkCount == old(chunkCount)
    {
      hide ChunkQueue.Valid, ChunkStack.Valid;
      removed := accepted;
      while data.head != null
        invariant Lists(0) && Shape(data.bufs, chunkSize, true)
        invariant Own() == old(Own()) && removed == accepted == old(accepted)
        invariant chunkCount == old(chunkCount)
        invariant |spare.nodes| + |data.bufs| == old(|spare.nodes| + |data.bufs|)
        decreases |data.bufs|
      {
        Shelve();
      }
    }

    /** `Curl_bufq_len` */
    method Len() returns (len: nat)
      requires Valid()
      ensures len == |Contents()|
    {
      hide ChunkQueue.Valid, ChunkStack.Valid;
      var chunk := data.head;
      len := 0;
      ghost var i := 0;
      while chunk != null
        invariant 0 <= i <= |data.nodes| == |data.bufs|
        invariant chunk == if i < |data.nodes| then data.nodes[i] else null
        invariant len + |Flatten(data.bufs[i..])| == |Contents()|
        decreases |data.nodes| - i
      {
        data.At(i);
        assert data.bufs[i].Valid() && data.bufs[i..][1..] == data.bufs[i + 1..];
        len := len + (chunk.buf.w - chunk.buf.r);
        chunk := chunk.next;
        i := i + 1;
      }
    }

    /** `Curl_bufq_is_empty` */
    predicate IsEmpty()
      requires Valid()
      reads this, data, spare, pool, Own(), PoolRepr()
      ensures IsEmpty() <==> Contents() == []
    {
      EmptyHead(data.bufs, chunkSize);
      data.head == null || data.head.buf.IsEmpty()
    }

    /** `Curl_bufq_is_full` */
    predicate IsFull()
      requires Valid()
      reads this, data, spare, pool, Own(), PoolRepr()
      ensures !softLimit ==> (IsFull() <==> Room() == 0)
      ensures softLimit ==>
                (IsFull() <==> && spare.nodes == []
                               && (|data.nodes| > maxChunks || (|data.nodes| == maxChunks && TailRoom() == 0)))
    {
      if data.tail == null || spare.top != null then false
      else if chunkCount < maxChunks then false
      else if chunkCount > maxChunks then true
      else data.tail.buf.IsFull()
    }

    /** `Curl_bufq_peek`: the unread bytes of the first chunk that has any. */
    method Peek() returns (found: bool, bytes: seq<Byte>)
      requires Valid()
      modifies this`chunkCount, Heap()
      ensures Valid() && Heap() <= old(Heap()) && Contents() == old(Contents())
      ensures accepted == old(accepted) && removed == old(removed)
      ensures found <==> Contents() != []
      ensures bytes <= Contents() && (found <==> bytes != [])
      ensures found ==> data.bufs != [] && bytes == data.bufs[0].Unread()
    {
      hide ChunkQueue.Valid, ChunkStack.Valid;
      if data.head != null && data.head.buf.IsEmpty() {
        Prune();
      }
      found, bytes := false, [];
      if data.head != null && !data.head.buf.IsEmpty() {
        found, bytes := true, data.head.buf.Unread();
      }
    }

    /** `Curl_bufq_peek_at`: the unread bytes of one chunk, from `offset` bytes into the queue. */
    method PeekAt(offset: nat) returns (found: bool, bytes: seq<Byte>)
      requires Valid()
      ensures Valid() && Heap() == old(Heap())
      ensures found <==> offset < |Contents()|
      ensures found ==> bytes != [] && bytes <= Contents()[offset..]
      ensures !found ==> bytes == []
      ensures bytes == BytesAt(data.bufs, offset)
    {
      BytesAtOffset(data.bufs, offset, chunkSize);
      hide ChunkQueue.Valid, ChunkStack.Valid;
      bytes := data.PeekAt(offset);
      found := bytes != [];
    }

    /** Calling the writer leaves the queue alone. */
    method Offer(writer: Writer, bytes: seq<Byte>) returns (code: Code, n: nat)
      requires Valid() && writer !in Heap()
      modifies writer
      ensures Valid() && Contents() == old(Contents()) && Heap() == old(Heap())
      ensures accepted == old(accepted) && removed == old(removed)
      ensures writer.calls == old(writer.calls) + 1 && code == writer.Last().code
      ensures n <= |bytes| && (bytes != [] ==> (writer.Refused() <==> n == 0)) && (code != Ok ==> n == 0)
      ensures writer.taken == old(writer.taken) + bytes[..n]
    {
      hide ChunkQueue.Valid, ChunkStack.Valid;
      code, n := writer.Write(bytes);
    }

    /** Offers the writer a beginning of the queue, and drops what it takes. */
    method PassSome(writer: Writer, bytes: seq<Byte>) returns (code: Code, n: nat)
      requires Valid() && writer !in Heap() && bytes != [] && bytes <= Contents()
      modifies this`chunkCount, this`removed, Heap(), writer
      ensures Valid() && Heap() <= old(Heap()) && accepted == old(accepted)
      ensures n <= |old(Contents())| && Contents() == old(Contents())[n..]
      ensures writer.taken == old(writer.taken) + old(Contents())[..n]
      ensures removed == old(removed) + old(Contents())[..n]
      ensures writer.calls == old(writer.calls) + 1 && code == writer.Last().code
      ensures (writer.Refused() <==> n == 0) && (code != Ok ==> n == 0)
    {
      hide Valid, Contents;
      ghost var c := Contents();
      code, n := Offer(writer, bytes);
      assert bytes[..n] == c[..n] && c[0..] == c && removed + c[..0] == removed;
      if code == Ok && n > 0 {
        Skip(n);
      }
    }

    /** `Curl_bufq_pass`: offers chunk after chunk to the writer until it blocks, fails or all is gone. */
    method Pass(writer: Writer) returns (code: Code, written: nat)
      requires Valid() && writer !in Heap()
      modifies this`chunkCount, this`removed, Heap(), writer
      ensures Valid() && Heap() <= old(Heap()) && accepted == old(accepted)
      ensures written <= |old(Contents())| && Contents() == old(Contents())[written..]
      ensures writer.taken == old(writer.taken) + old(Contents())[..written]
      ensures removed == old(removed) + old(Contents())[..written]
      ensures writer.calls >= old(writer.calls) && (old(Contents()) != [] ==> writer.calls > old(writer.calls))
      ensures Contents() == [] ==> code == Ok
      ensures Contents() != [] ==> writer.calls > old(writer.calls) && writer.Refused()
                                   && code == Stopped(writer.Last().code, written)
    {
      hide Valid, Contents;
      ghost var c := Contents();
      code, written := Ok, 0;
      var found, bytes := Peek();
      while found
        invariant writer.calls >= old(writer.calls) && (written > 0 ==> writer.calls > old(writer.calls))
        invariant Valid() && Heap() <= old(Heap()) && accepted == old(accepted)
        invariant written <= |c| && Contents() == c[written..]
        invariant writer.taken == old(writer.taken) + c[..written]
        invariant removed == old(removed) + c[..written]
        invariant (found <==> Contents() != []) && bytes <= Contents() && (found <==> bytes != [])
        invariant code == Ok
        decreases |Contents()|
      {
        var n;
        code, n := PassSome(writer, bytes);
        Advance(c, written, n);
        Assoc(old(removed), c[..written], c[written..][..n]);
        Assoc(old(writer.taken), c[..written], c[written..][..n]);
        written := written + n;
        if code != Ok {
          if code == Again && written > 0 {
            code := Ok;
          }
          break;
        }
        if n == 0 {
          if written == 0 {
            code := Again;
          }
          break;
        }
        found, bytes := Peek();
      }
    }

    /** `Curl_bufq_pass` as `Curl_bufq_write_pass` uses it. */
    method MakeRoom(writer: Writer) returns (code: Code, ghost passed: seq<Byte>)
      requires Valid() && writer !in Heap()
      modifies this`chunkCount, this`removed, Heap(), writer
      ensures Valid() && Heap() <= old(Heap()) && accepted == old(accepted)
      ensures writer.taken == old(writer.taken) + passed && removed == old(removed) + passed
      ensures writer.calls >= old(writer.calls) && (old(Contents()) != [] ==> writer.calls > old(writer.calls))
      ensures Contents() == [] ==> code == Ok
      ensures Contents() != [] ==> writer.calls > old(writer.calls) && writer.Refused()
                                   && (code == Ok || code == Again || code == writer.Last().code)
                                   && (IsHard(writer.Last().code) ==> code == writer.Last().code)
    {
      hide Valid;
      ghost var c := Contents();
      var n;
      code, n := Pass(writer);
      passed := c[..n];
    }

    /** An empty queue with a hard limit has room. */
    lemma EmptyHasRoom()
      requires Valid() && Contents() == []
      ensures !softLimit ==> Room() > 0
    {
      hide Valid, Contents, Room;
      if !softLimit {
        RoomIs();
        HasChunks();
        CapacityIsProduct(maxChunks, chunkSize);
        CapacityIsProduct(maxChunks - 1, chunkSize);
      }
    }

    /** A full queue has bytes to pass on. */
    lemma FullHasBytes()
      requires Valid() && IsFull()
      ensures Contents() != []
    {
      EmptyHead(data.bufs, chunkSize);
      hide ChunkQueue.Valid, ChunkStack.Valid, Flatten;
      TailIsLast();
    }

    lemma TailIsLast()
      requires Valid()
      ensures |data.bufs| == |data.nodes|
      ensures data.tail != null ==> data.bufs != [] && data.tail.buf == data.bufs[|data.bufs| - 1]
      ensures spare.top == null ==> spare.nodes == []
    {
    }

    lemma HasChunks()
      requires Valid()
      ensures maxChunks > 0 && chunkSize > 0
    {
    }

    /** One turn of `Curl_bufq_write_pass`: room is made if there is none, and then some is written. */
    method WriteOn(bytes: seq<Byte>, writer: Writer) returns (code: Code, n: nat, ghost passed: seq<Byte>)
      requires Valid() && writer !in Heap() && bytes != []
      modifies this, Heap(), writer
      ensures Valid() && fresh(Heap() - old(Heap())) && writer !in Heap()
      ensures n <= |bytes| && accepted == old(accepted) + bytes[..n]
      ensures writer.taken == old(writer.taken) + passed && removed == old(removed) + passed
      ensures code == Ok ==> n > 0
      ensures code != Ok && allocates ==> n == 0
      ensures writer.calls >= old(writer.calls)
      ensures code != Ok && allocates ==>
                && writer.calls > old(writer.calls) && writer.Refused()
                && code == if IsHard(writer.Last().code) then writer.Last().code else Again
      ensures old(IsFull()) ==> writer.calls > old(writer.calls)
      ensures !old(IsFull()) ==> writer.calls == old(writer.calls) && passed == []
      ensures !old(IsFull()) && allocates && !softLimit ==>
                code == Ok && n == Min(old(Room()), |bytes|) && Room() == old(Room()) - n
    {
      hide Valid, Contents, Room;
      code, n, passed := Ok, 0, [];
      assert accepted + bytes[..0] == accepted && removed + [] == removed && writer.taken + [] == writer.taken;
      if IsFull() {
        FullHasBytes();
        code, passed := MakeRoom(writer);
        if Contents() == [] {
          EmptyHasRoom();
        }
      }
      if code == Ok {
        code, n := Write(bytes);
      }
    }

    /** `Curl_bufq_write_pass`: writes, and lets the writer make room whenever the queue is full.
        `passed` is what the writer took and `added` the number of bytes that entered the queue. */
    method WritePass(bytes: seq<Byte>, writer: Writer)
      returns (code: Code, written: nat, ghost passed: seq<Byte>, ghost added: nat)
      requires Valid() && writer !in Heap()
      modifies this, Heap(), writer
      ensures Valid() && fresh(Heap() - old(Heap()))
      ensures written <= added <= |bytes| && (allocates ==> added == written)
      ensures writer.taken == old(writer.taken) + passed
      ensures passed + Contents() == old(Contents()) + bytes[..added]
      ensures accepted == old(accepted) + bytes[..added] && removed == old(removed) + passed
      ensures code == Ok ==> written > 0 || bytes == []
      ensures code == Again ==> written == 0 && bytes != []
      ensures allocates && written == |bytes| ==> code == Ok
      ensures allocates && written < |bytes| ==>
                && writer.calls > old(writer.calls) && writer.Refused()
                && code == Stopped(writer.Last().code, written)
      ensures writer.calls >= old(writer.calls)
      ensures bytes != [] && old(IsFull()) ==> writer.calls > old(writer.calls)
      ensures allocates && !softLimit && |bytes| <= old(Room()) ==>
                written == |bytes| && writer.calls == old(writer.calls) && passed == []
    {
      hide Valid, Contents, Room, IsFull;
      written, passed, added := 0, [], 0;
      var rest := bytes;
      code := Ok;
      while rest != [] && code == Ok
        invariant Valid() && fresh(Heap() - old(Heap())) && writer !in Heap()
        invariant written <= added <= |bytes| && rest == bytes[written..]
        invariant code == Ok || allocates ==> added == written
        invariant accepted == old(accepted) + bytes[..added] && removed == old(removed) + passed
        invariant writer.taken == old(writer.taken) + passed
        invariant code != Ok ==> rest != []
        invariant written == 0 && code == Ok ==> (IsFull() <==> old(IsFull()))
        invariant old(IsFull()) && (written > 0 || code != Ok) ==> writer.calls > old(writer.calls)
        invariant writer.calls >= old(writer.calls)
        invariant code != Ok && allocates ==>
                    && writer.calls > old(writer.calls) && writer.Refused()
                    && code == if IsHard(writer.Last().code) then writer.Last().code else Again
        invariant allocates && !softLimit && |bytes| <= old(Room()) ==>
                    code == Ok && writer.calls == old(writer.calls) && passed == [] && Room() == old(Room()) - written
        decreases |rest|, code == Ok
      {
        var n;
        ghost var more;
        code, n, more := WriteOn(rest, writer);
        Advance(bytes, written, n);
        Assoc(old(accepted), bytes[..written], rest[..n]);
        Assoc(old(removed), passed, more);
        Assoc(old(writer.taken), passed, more);
        added, passed := added + n, passed + more;
        if code == Ok {
          written, rest := written + n, rest[n..];
        }
      }
      Account(old(removed), passed, Contents(), old(Contents()), bytes[..added]);
      if code == Ok || code == Again {
        code := if written == 0 && rest != [] then Again else Ok;
      }
    }

    /** `chunk_slurpn` on the tail, as seen by the queue. */
    method SlurpTail(maxLen: nat, reader: Reader) returns (code: Code, n: nat)
      requires Valid() && TailRoom() > 0 && reader !in Heap()
      modifies this`accepted, data.Repr, reader
      ensures Valid() && data.Repr == old(data.Repr) && removed == old(removed)
      ensures Delivered(reader, n) && (maxLen > 0 ==> n <= maxLen)
      ensures reader.calls == old(reader.calls) + 1 && code == reader.answers(old(reader.calls)).code
      ensures n == if code != Ok then 0
                   else Min(|reader.answers(old(reader.calls)).bytes|, Limited(old(TailRoom()), maxLen))
      ensures TailRoom() == old(TailRoom()) - n
    {
      hide ChunkQueue.Valid, ChunkStack.Valid, Flatten;
      ghost var before := data.bufs;
      code, n := data.SlurpToTail(maxLen, reader);
      ghost var bytes := reader.given[|old(reader.given)|..];
      TailFilled(before, data.bufs[|before| - 1], bytes, chunkSize);
      FlattenTail(before, data.bufs[|before| - 1], bytes);
      Reassociate(removed, Flatten(before), 0, bytes);
      accepted := accepted + bytes;
    }

    /** The last `n` bytes that the reader gave, and only those, entered the queue. */
    twostate predicate Delivered(reader: Reader, n: nat)
      reads this, reader
    {
      && |reader.given| == |old(reader.given)| + n && old(reader.given) <= reader.given
      && accepted == old(accepted) + reader.given[|old(reader.given)|..]
    }

    /** `Curl_bufq_sipn`: one read of at most `maxLen` bytes (0: no limit) into the tail. */
    method Sip(maxLen: nat, reader: Reader) returns (code: Code, n: nat)
      requires Valid() && reader !in Heap()
      modifies this`chunkCount, this`accepted, Heap(), reader
      ensures Valid() && fresh(Heap() - old(Heap())) && reader !in Heap() && removed == old(removed)
      ensures Delivered(reader, n) && (maxLen > 0 ==> n <= maxLen)
      ensures code != Ok ==> n == 0
      ensures !softLimit ==> Room() == old(Room()) - n
      ensures reader.calls == old(reader.calls) ==> code == if chunkCount < maxChunks then OutOfMemory else Again
      ensures reader.calls == old(reader.calls) && allocates ==> code == Again && !softLimit && old(Room()) == 0
      ensures reader.calls != old(reader.calls) ==>
                && reader.calls == old(reader.calls) + 1 && code == reader.answers(old(reader.calls)).code
                && (code == Ok ==>
                      n == Min(|reader.answers(old(reader.calls)).bytes|, Limited(old(NextRoom()), maxLen)))
                && TailRoom() == old(NextRoom()) - n
    {
      hide ChunkQueue.Valid, ChunkStack.Valid, Flatten;
      n := 0;
      var tail := GetNonFullTail();
      if !tail {
        code := if chunkCount < maxChunks then OutOfMemory else Again;
      } else {
        code, n := SlurpTail(maxLen, reader);
      }
    }

    lemma RoomLeft()
      requires Valid()
      ensures NextRoom() > 0
      ensures TailRoom() > 0 <==> data.tail != null && !data.tail.buf.IsFull()
      ensures NextRoom() == if TailRoom() > 0 then TailRoom() else chunkSize
    {
    }

    /** One turn of `bufq_slurpn`; `full` says that the tail has no room left. */
    method SlurpOn(left: nat, reader: Reader) returns (code: Code, k: nat, full: bool, ghost piece: seq<Byte>)
      requires Valid() && reader !in Heap()
      modifies this`chunkCount, this`accepted, Heap(), reader
      ensures Valid() && fresh(Heap() - old(Heap())) && reader !in Heap() && removed == old(removed)
      ensures reader.given == old(reader.given) + piece && accepted == old(accepted) + piece && |piece| == k
      ensures (code != Ok ==> k == 0) && (left > 0 ==> k <= left)
      ensures !softLimit ==> Room() == old(Room()) - k
      ensures reader.calls == old(reader.calls) ==>
                && code != Ok && (allocates ==> code == Again && !softLimit && old(Room()) == Room() == 0)
      ensures reader.calls != old(reader.calls) ==>
                && reader.calls == old(reader.calls) + 1 && code == reader.Last().code
                && (code == Ok ==> k == Min(|reader.Last().bytes|, Limited(old(NextRoom()), left)))
      ensures code == Ok && full ==> !reader.Short(old(reader.calls), old(NextRoom())) && NextRoom() == chunkSize
      ensures code != Ok || k == 0 || (!full && k != left) ==>
                (reader.calls == old(reader.calls) || reader.Short(old(reader.calls), old(NextRoom())))
      ensures softLimit && allocates && left == 0 && !reader.Short(old(reader.calls), old(NextRoom())) ==>
                code == Ok && k > 0 && full
    {
      hide Valid, Contents, TailRoom, Room;
      RoomLeft();
      code, k := Sip(left, reader);
      piece := reader.given[|old(reader.given)|..];
      RoomLeft();
      full := data.tail == null || data.tail.buf.IsFull();
    }

    /** `bufq_slurpn`: reads until the reader fails or comes up short, the queue is full, or `maxLen`
        bytes (0: no limit) are in. A hard limit ends it whatever the reader does; a soft-limited queue
        with no `maxLen` goes on for as long as the reader fills chunk after chunk, so a reader is asked
        for that at some time does not. */
    method Slurp(maxLen: nat, reader: Reader) returns (code: Code, n: nat)
      requires Valid() && reader !in Heap()
      requires softLimit && maxLen == 0 ==> reader.StopsFrom(reader.calls, NextRoom(), chunkSize)
      modifies this`chunkCount, this`accepted, Heap(), reader
      ensures Valid() && fresh(Heap() - old(Heap())) && reader !in Heap() && removed == old(removed)
      ensures Delivered(reader, n) && (maxLen > 0 ==> n <= maxLen)
      ensures code == Again ==> n == 0
      ensures !softLimit ==> n <= old(Room()) && Room() == old(Room()) - n
      ensures reader.calls >= old(reader.calls) && (reader.calls == old(reader.calls) ==> code != Ok)
      ensures forall i: nat :: i < reader.calls - 1 ==>
                !reader.StopsAt(i, old(reader.calls), old(NextRoom()), chunkSize)
      ensures allocates && reader.calls == old(reader.calls) ==> code == Again && !softLimit && old(Room()) == 0
      ensures allocates && reader.calls > old(reader.calls) ==>
                && code == (if reader.Last().code == Again && n > 0 then Ok else reader.Last().code)
                && (|| (maxLen > 0 && n == maxLen)
                    || (!softLimit && Room() == 0)
                    || reader.StopsAt(reader.calls - 1, old(reader.calls), old(NextRoom()), chunkSize))
    {
      hide Valid, Contents, TailRoom, NextRoom, Room, Reader.Short, Limited;
      code, n := Ok, 0;
      var left := maxLen;
      ghost var given, entered, got: seq<Byte> := reader.given, accepted, [];
      assert given + [] == given && entered + [] == entered;
      ghost var first, room := reader.calls, NextRoom();
      ghost var last: nat := if softLimit && maxLen == 0 then reader.Stop(first, room, chunkSize) else 0;
      while true
        invariant Valid() && fresh(Heap() - old(Heap())) && reader !in Heap() && removed == old(removed)
        invariant reader.given == given + got && accepted == entered + got && |got| == n
        invariant maxLen > 0 ==> left > 0 && n + left == maxLen
        invariant maxLen == 0 ==> left == 0
        invariant !softLimit ==> n <= old(Room()) && Room() == old(Room()) - n
        invariant first <= reader.calls && NextRoom() == if reader.calls == first then room else chunkSize
        invariant softLimit && maxLen == 0 ==> reader.calls <= last
        invariant forall i: nat :: i < reader.calls ==> !reader.StopsAt(i, first, room, chunkSize)
        invariant if reader.calls == first then n == 0 else n > 0 && reader.Last().code == Ok
        decreases if !softLimit then Room() else if maxLen > 0 then left else last - reader.calls,
                  if n == 0 then 1 else 0
      {
        var k, full;
        ghost var piece;
        code, k, full, piece := SlurpOn(left, reader);
        Assoc(given, got, piece);
        Assoc(entered, got, piece);
        got := got + piece;
        if code != Ok {
          if n > 0 && code == Again {
            code := Ok;
          }
          break;
        }
        if k == 0 {
          break;
        }
        n := n + k;
        if left > 0 {
          left := left - k;
          if left == 0 {
            break;
          }
        }
        if !full {
          break;
        }
      }
    }

    /** Such readers are the only ones for which a soft-limited queue ends without a maximum, if memory does
        not run out: for any other one, every turn of the loop is followed by another one. */
    method SlurpForever(turns: nat, reader: Reader) returns (again: bool)
      requires Valid() && reader !in Heap() && softLimit && allocates
      requires !reader.StopsFrom(reader.calls, NextRoom(), chunkSize)
      modifies this`chunkCount, this`accepted, Heap(), reader
      ensures Valid() && again && reader.calls == old(reader.calls) + turns
    {
      hide Valid, Contents, TailRoom, NextRoom, Room, Reader.Short;
      again := true;
      ghost var first, room := reader.calls, NextRoom();
      for i := 0 to turns
        invariant Valid() && fresh(Heap() - old(Heap())) && reader !in Heap()
        invariant again && reader.calls == first + i && NextRoom() == if i == 0 then room else chunkSize
      {
        assert !reader.StopsAt(reader.calls, first, room, chunkSize);
        var code, k, full;
        ghost var piece;
        code, k, full, piece := SlurpOn(0, reader);
        again := code == Ok && k > 0 && full;
      }
    }

    /** The lists of every valid queue: acyclic, without a common node, with `tail` as the last node;
        every chunk but the last is full and has unread bytes, and only the first has been read from. */
    lemma Sound()
      requires Valid()
      ensures Linked(data.head, data.nodes) && Linked(spare.top, spare.nodes)
      ensures forall i, j :: 0 <= i < j < |data.nodes| ==> data.nodes[i] != data.nodes[j]
      ensures forall i, j :: 0 <= i < j < |spare.nodes| ==> spare.nodes[i] != spare.nodes[j]
      ensures forall c :: c in data.nodes ==> c !in spare.nodes
      ensures pool != null ==> Linked(pool.spare.top, pool.spare.nodes)
      ensures pool != null ==> forall c :: c in pool.spare.nodes ==> c !in data.nodes && c !in spare.nodes
      ensures pool != null ==> pool.spareCount == |pool.spare.nodes| <= pool.spareMax
      ensures data.tail == if data.nodes == [] then null else data.nodes[|data.nodes| - 1]
      ensures forall i :: 0 <= i < |data.nodes| - 1 ==>
                data.nodes[i].buf.IsFull() && !data.nodes[i].buf.IsEmpty()
      ensures forall i :: 0 < i < |data.nodes| ==> data.nodes[i].buf.r == 0
      ensures chunkCount == |data.nodes| + |spare.nodes|
    {
      data.Acyclic();
      spare.Acyclic();
      if pool != null {
        pool.spare.Acyclic();
      }
      forall i | 0 <= i < |data.nodes|
        ensures data.nodes[i].buf == data.bufs[i]
      {
        data.At(i);
      }
    }

    /** Under a hard limit, the room is what is left of all chunks, less what was read from the first one. */
    lemma RoomIs()
      requires Valid() && !softLimit
      ensures maxChunks * chunkSize - chunkSize < Room() + |Contents()| <= maxChunks * chunkSize
    {
      hide ChunkQueue.Valid, ChunkStack.Valid, Flatten, Capacity;
      var n := |data.bufs|;
      DataLengths();
      CapacityIsProduct(maxChunks, chunkSize);
      CapacitySum(n, Slots(), chunkSize);
      assert n + Slots() == maxChunks;
      if n > 0 {
        SpaceOfChunks(data.bufs, chunkSize);
        TailRoomIs();
      } else {
        EmptyHead(data.bufs, chunkSize);
        CapacityIsProduct(0, chunkSize);
      }
    }

    lemma DataLengths()
      requires Valid()
      ensures |data.bufs| == |data.nodes|
    {
    }

    lemma TailRoomIs()
      requires Valid() && data.bufs != []
      ensures TailRoom() == chunkSize - data.bufs[|data.bufs| - 1].w
    {
    }

    /** A hard limit bounds the chunks and the bytes; any queue's bytes fit its chunks. */
    lemma Bounded()
      requires Valid()
      ensures !softLimit ==> chunkCount <= maxChunks && |Contents()| <= maxChunks * chunkSize
      ensures |Contents()| <= |data.nodes| * chunkSize
    {
      FlattenBound(data.bufs, chunkSize);
      CapacityIsProduct(|data.bufs|, chunkSize);
      Monotonic(|data.bufs|, maxChunks, chunkSize);
    }
  }
}
