/** The pointer structures under a `bufq`: the queue of chunks with data, between `head` and `tail`,
    and the stacks of free chunks.

    Each list is described by the ghost sequence `nodes` that following `next` visits, and by the
    sequence `bufs` of their buffers. The nodes of a list are numbered, so none occurs twice. */
module BufqList {
  import opened Common
  import opened BufqChunk

  /** `cs` are the nodes reached from `anchor`, in order. */
  ghost predicate Linked(anchor: Chunk?, cs: seq<Chunk>)
    reads cs
  {
    && (cs == [] ==> anchor == null)
    && (cs != [] ==> anchor == cs[0] && cs[|cs| - 1].next == null)
    && forall i {:trigger cs[i].next} :: 0 <= i < |cs| - 1 ==> cs[i].next == cs[i + 1]
  }

  /** The nodes `cs`, numbered upwards from `first`, are in `repr` and hold `bufs`. */
  ghost predicate Holds(repr: set<object>, cs: seq<Chunk>, bufs: seq<Buffer>, first: int)
    reads cs
  {
    && |cs| == |bufs|
    && forall i {:trigger cs[i]} {:trigger bufs[i]} :: 0 <= i < |cs| ==>
      cs[i] in repr && cs[i].place == first + i && cs[i].buf == bufs[i]
  }

  /** The bytes found `offset` bytes into a list: the rest of the buffer that holds them. */
  ghost function BytesAt(bufs: seq<Buffer>, offset: nat): seq<Byte> {
    if bufs == [] || bufs[0].Unread() == [] then []
    else if offset >= |bufs[0].Unread()| then BytesAt(bufs[1..], offset - |bufs[0].Unread()|)
    else bufs[0].Unread()[offset..]
  }

  /** `struct buf_chunk *head, *tail` */
  class ChunkQueue {
    var head: Chunk?
    var tail: Chunk?
    ghost var nodes: seq<Chunk>
    ghost var bufs: seq<Buffer>
    ghost var first: int
    ghost var Repr: set<object>

    ghost predicate Valid()
      reads this, Repr
      ensures Valid() ==> this in Repr && |nodes| == |bufs|
      ensures Valid() && bufs == [] ==> head == null && tail == null
      ensures Valid() && bufs != [] ==>
                && head == nodes[0] && head in Repr && head.buf == bufs[0]
                && tail != null && tail in Repr && tail.buf == bufs[|bufs| - 1]
    {
      && this in Repr && (forall c :: c in nodes ==> c in Repr)
      && Linked(head, nodes) && Holds(Repr, nodes, bufs, first)
      && tail == (if nodes == [] then null else nodes[|nodes| - 1])
    }

    /** What a walk along the list finds at the node with index `i`. */
    lemma At(i: nat)
      requires Valid() && i < |nodes|
      ensures |nodes| == |bufs| && nodes[i].buf == bufs[i]
      ensures nodes[i].next == if i + 1 < |nodes| then nodes[i + 1] else null
    {
    }

    constructor ()
      ensures Valid() && nodes == [] && bufs == [] && Repr == {this}
    {
      head, tail, nodes, bufs, Repr := null, null, [], [], {this};
    }

    method Append(chunk: Chunk)
      requires Valid() && chunk !in Repr && chunk.next == null
      modifies Repr, chunk
      ensures Valid() && nodes == old(nodes) + [chunk] && bufs == old(bufs) + [old(chunk.buf)]
      ensures Repr == old(Repr) + {chunk}
    {
      if tail != null {
        tail.next := chunk;
        tail := chunk;
      } else {
        head, tail := chunk, chunk;
      }
      chunk.place := first + |nodes|;
      nodes, bufs, Repr := nodes + [chunk], bufs + [chunk.buf], Repr + {chunk};
    }

    /** `chunk_append` on the tail */
    method AppendToTail(bytes: seq<Byte>) returns (n: nat)
      requires Valid() && tail != null && bufs[|bufs| - 1].Valid()
      modifies Repr
      ensures Valid() && nodes == old(nodes) && Repr == old(Repr)
      ensures |bufs| == |old(bufs)| && bufs == old(bufs)[|bufs| - 1 := bufs[|bufs| - 1]]
      ensures n == Min(|old(bufs)[|bufs| - 1].data| - old(bufs)[|bufs| - 1].w, |bytes|)
      ensures Filled(old(bufs)[|bufs| - 1], bufs[|bufs| - 1], bytes[..n])
    {
      n := tail.Append(bytes);
      bufs := bufs[|bufs| - 1 := tail.buf];
    }

    /** `chunk_slurpn` on the tail */
    method SlurpToTail(maxLen: nat, reader: Reader) returns (code: Code, n: nat)
      requires Valid() && tail != null && bufs[|bufs| - 1].Valid() && !bufs[|bufs| - 1].IsFull()
      requires reader !in Repr
      modifies Repr, reader
      ensures Valid() && nodes == old(nodes) && Repr == old(Repr)
      ensures |bufs| == |old(bufs)| && bufs == old(bufs)[|bufs| - 1 := bufs[|bufs| - 1]]
      ensures reader.calls == old(reader.calls) + 1 && code == reader.answers(old(reader.calls)).code
      ensures var space := |old(bufs)[|bufs| - 1].data| - old(bufs)[|bufs| - 1].w;
              n == if code == Ok then Min(|reader.answers(old(reader.calls)).bytes|, Limited(space, maxLen)) else 0
      ensures |reader.given| == |old(reader.given)| + n && old(reader.given) <= reader.given
      ensures Filled(old(bufs)[|bufs| - 1], bufs[|bufs| - 1], reader.given[|old(reader.given)|..])
    {
      code, n := tail.Slurp(maxLen, reader);
      bufs := bufs[|bufs| - 1 := tail.buf];
    }

    /** `chunk_read` on the head */
    method ReadHead(dst: array<Byte>, at: nat, len: nat) returns (n: nat)
      requires Valid() && head != null && bufs[0].Valid() && at + len <= dst.Length && dst !in Repr
      modifies Repr, dst
      ensures Valid() && nodes == old(nodes) && Repr == old(Repr)
      ensures |bufs| == |old(bufs)| && bufs == old(bufs)[0 := bufs[0]]
      ensures n == Min(|old(bufs)[0].Unread()|, len) && Drained(old(bufs)[0], bufs[0], n)
      ensures dst[..at + n] == old(dst[..at]) + old(bufs)[0].Unread()[..n]
      ensures dst[at + n..] == old(dst[at + n..])
    {
      n := head.Read(dst, at, len);
      bufs := bufs[0 := head.buf];
    }

    /** `chunk_skip` on the head */
    method SkipHead(amount: nat) returns (n: nat)
      requires Valid() && head != null && bufs[0].Valid()
      modifies Repr
      ensures Valid() && nodes == old(nodes) && Repr == old(Repr)
      ensures |bufs| == |old(bufs)| && bufs == old(bufs)[0 := bufs[0]]
      ensures n == Min(|old(bufs)[0].Unread()|, amount) && Drained(old(bufs)[0], bufs[0], n)
    {
      n := head.Skip(amount);
      bufs := bufs[0 := head.buf];
    }

    /** The walk of `Curl_bufq_peek_at`; it reports success exactly when it finds bytes. */
    method PeekAt(offset: nat) returns (bytes: seq<Byte>)
      requires Valid() && forall i :: 0 <= i < |bufs| ==> bufs[i].Valid()
      ensures bytes == BytesAt(bufs, offset)
    {
      var chunk: Chunk?, left: nat := head, offset;
      ghost var i := 0;
      while chunk != null
        invariant 0 <= i <= |nodes| == |bufs|
        invariant chunk == if i < |nodes| then nodes[i] else null
        invariant BytesAt(bufs[i..], left) == BytesAt(bufs, offset)
        decreases |nodes| - i
      {
        assert chunk.buf == bufs[i] && bufs[i..][1..] == bufs[i + 1..];
        var n := chunk.buf.w - chunk.buf.r;
        if n == 0 {
          break;
        }
        if left < n {
          return chunk.buf.data[chunk.buf.r + left..chunk.buf.w];
        }
        left := left - n;
        chunk := chunk.next;
        i := i + 1;
      }
      bytes := [];
    }

    /** No cycle: a walk along `next` meets every node once. */
    lemma Acyclic()
      requires Valid()
      ensures Linked(head, nodes)
      ensures forall i, j :: 0 <= i < j < |nodes| ==> nodes[i] != nodes[j]
      ensures forall c :: c in nodes ==> c in Repr
    {
      assert forall i :: 0 <= i < |nodes| ==> nodes[i].place == first + i;
    }

    /** Unlinks the head; the last node takes the tail with it. */
    method Pop() returns (chunk: Chunk)
      requires Valid() && head != null
      modifies this
      ensures Valid() && chunk == old(head) == old(nodes)[0] && chunk.buf == old(bufs)[0]
      ensures nodes == old(nodes)[1..] && bufs == old(bufs)[1..]
      ensures Repr == old(Repr) - {chunk} && chunk in old(Repr)
    {
      chunk := head;
      head := chunk.next;
      if tail == chunk {
        tail := head;
      }
      nodes, bufs, first, Repr := nodes[1..], bufs[1..], first + 1, Repr - {chunk};
    }
  }

  /** A `struct buf_chunk *` stack of free chunks. */
  class ChunkStack {
    var top: Chunk?
    ghost var nodes: seq<Chunk>
    ghost var bufs: seq<Buffer>
    ghost var first: int
    ghost var Repr: set<object>

    ghost predicate Valid()
      reads this, Repr
      ensures Valid() ==> this in Repr && |nodes| == |bufs| && (top == null <==> nodes == [])
    {
      && this in Repr && (forall c :: c in nodes ==> c in Repr)
      && Linked(top, nodes) && Holds(Repr, nodes, bufs, first)
    }

    constructor ()
      ensures Valid() && nodes == [] && bufs == [] && Repr == {this}
    {
      top, nodes, bufs, Repr := null, [], [], {this};
    }

    lemma Acyclic()
      requires Valid()
      ensures Linked(top, nodes)
      ensures forall i, j :: 0 <= i < j < |nodes| ==> nodes[i] != nodes[j]
      ensures forall c :: c in nodes ==> c in Repr
    {
      assert forall i :: 0 <= i < |nodes| ==> nodes[i].place == first + i;
    }

    method Push(chunk: Chunk)
      requires Valid() && chunk !in Repr
      modifies this, chunk
      ensures Valid() && nodes == [chunk] + old(nodes) && bufs == [old(chunk.buf)] + old(bufs)
      ensures Repr == old(Repr) + {chunk}
    {
      chunk.next := top;
      top := chunk;
      chunk.place := first - 1;
      nodes, bufs, first, Repr := [chunk] + nodes, [chunk.buf] + bufs, first - 1, Repr + {chunk};
    }

    /** The top chunk, unlinked and reset. */
    method Pop() returns (chunk: Chunk)
      requires Valid() && top != null
      modifies Repr
      ensures Valid() && chunk == old(nodes)[0] && chunk.next == null
      ensures chunk.buf == old(bufs)[0].(r := 0, w := 0)
      ensures nodes == old(nodes)[1..] && bufs == old(bufs)[1..]
      ensures Repr == old(Repr) - {chunk} && chunk in old(Repr)
    {
      chunk := top;
      top := chunk.next;
      chunk.Reset();
      nodes, bufs, first, Repr := nodes[1..], bufs[1..], first + 1, Repr - {chunk};
    }
  }

  ghost predicate Sized(bufs: seq<Buffer>, size: nat) {
    forall i :: 0 <= i < |bufs| ==> |bufs[i].data| == size
  }

  /** A free chunk, not linked to any other. */
  ghost predicate Unused(chunk: Chunk, size: nat)
    reads chunk
  {
    chunk.next == null && |chunk.buf.data| == size && chunk.buf.IsUnused()
  }

  /** `bufc_pool`: a bounded stack of free chunks that several queues may share. */
  class Pool {
    const spare: ChunkStack
    const chunkSize: nat
    var spareCount: nat
    const spareMax: nat
    ghost var Repr: set<object>

    ghost predicate Valid()
      reads this, Repr
      ensures Valid() ==> this in Repr
    {
      && this in Repr && spare in Repr && spare.Repr <= Repr && this !in spare.Repr
      && chunkSize > 0 && spareMax > 0 && spare.Valid() && Sized(spare.bufs, chunkSize)
      && spareCount == |spare.nodes| <= spareMax
    }

    /** `Curl_bufcp_init` */
    constructor (chunkSize: nat, spareMax: nat)
      requires chunkSize > 0 && spareMax > 0
      ensures Valid() && fresh(Repr) && spare.nodes == []
      ensures this.chunkSize == chunkSize && this.spareMax == spareMax
    {
      this.chunkSize, this.spareMax, this.spareCount := chunkSize, spareMax, 0;
      var stack := new ChunkStack();
      this.spare := stack;
      Repr := {this} + stack.Repr;
    }

    /** `bufcp_take`; there is memory for a new chunk when `memory` is set. */
    method Take(memory: bool) returns (chunk: Chunk?)
      requires Valid()
      modifies Repr
      ensures Valid() && Repr <= old(Repr) && fresh((if chunk == null then {} else {chunk}) - old(Repr))
      ensures chunk == null <==> !memory && old(spare.nodes) == []
      ensures spare.nodes == if old(spare.nodes) == [] then [] else old(spare.nodes)[1..]
      ensures chunk != null ==> Unused(chunk, chunkSize) && chunk !in Repr
    {
      if spare.top != null {
        chunk := spare.Pop();
        spareCount, Repr := spareCount - 1, Repr - {chunk};
        return chunk;
      }
      if !memory {
        return null;
      }
      chunk := new Chunk(chunkSize);
    }

    /** `bufcp_put`: keeps the chunk if there is room for it, frees it otherwise. */
    method Put(chunk: Chunk)
      requires Valid() && |chunk.buf.data| == chunkSize && chunk !in Repr
      modifies Repr, chunk
      ensures Valid() && old(Repr) <= Repr <= old(Repr) + {chunk}
      ensures spare.nodes == if |old(spare.nodes)| >= spareMax then old(spare.nodes) else [chunk] + old(spare.nodes)
    {
      hide ChunkStack.Valid;
      if spareCount < spareMax {
        chunk.Reset();
        spare.Push(chunk);
        spareCount, Repr := spareCount + 1, Repr + {chunk};
      }
    }
  }
}
