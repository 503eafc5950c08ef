/** Fixed-size byte chunks of a `bufq` and the callbacks that fill and drain them. */
module BufqChunk {
  import opened Common

  type Byte = b: int | 0 <= b < 256

  /** The `CURLcode` values that the queue itself tells apart; `Failed` is any other error. */
  datatype Code = Ok | Again | OutOfMemory | Failed(error: nat)

  /** The buffer of a chunk, which is part of the chunk's own allocation: fixed length, the first
      unread byte and one after the last written byte. */
  datatype Buffer = Buffer(data: seq<Byte>, r: nat, w: nat) {
    predicate Valid() {
      r <= w <= |data|
    }

    predicate IsEmpty() {
      r >= w
    }

    predicate IsFull() {
      w >= |data|
    }

    /** The bytes between the read and the write offset. */
    function Unread(): seq<Byte> {
      if Valid() then data[r..w] else []
    }

    /** Nothing written, nothing read. */
    predicate IsUnused() {
      r == w == 0
    }
  }

  /** A node of a chunk list; `place` is its number there. */
  class Chunk {
    var next: Chunk?
    var buf: Buffer
    ghost var place: int

    constructor (dlen: nat)
      ensures next == null && buf.Valid() && |buf.data| == dlen && buf.IsUnused()
    {
      next := null;
      buf := Buffer(seq(dlen, _ => 0), 0, 0);
    }

    method Reset()
      modifies this`next, this`buf
      ensures next == null && buf == old(buf).(r := 0, w := 0)
    {
      next := null;
      buf := buf.(r := 0, w := 0);
    }

    method Append(bytes: seq<Byte>) returns (n: nat)
      requires buf.Valid()
      modifies this`buf
      ensures n == Min(|old(buf).data| - old(buf).w, |bytes|) && Filled(old(buf), buf, bytes[..n])
    {
      n := |buf.data| - buf.w;
      if n != 0 {
        n := Min(n, |bytes|);
        buf := Buffer(buf.data[..buf.w] + bytes[..n] + buf.data[buf.w + n..], buf.r, buf.w + n);
      }
    }

    method Read(dst: array<Byte>, at: nat, len: nat) returns (n: nat)
      requires buf.Valid() && at + len <= dst.Length
      modifies this`buf, dst
      ensures Drained(old(buf), buf, n) && n == Min(|old(buf).Unread()|, len)
      ensures dst[..at + n] == old(dst[..at]) + old(buf).Unread()[..n]
      ensures dst[at + n..] == old(dst[at + n..])
    {
      n := buf.w - buf.r;
      if n == 0 {
      } else if n <= len {
        forall i | 0 <= i < n {
          dst[at + i] := buf.data[buf.r + i];
        }
        buf := buf.(r := 0, w := 0);
      } else {
        n := len;
        forall i | 0 <= i < n {
          dst[at + i] := buf.data[buf.r + i];
        }
        buf := buf.(r := buf.r + n);
      }
    }

    method Skip(amount: nat) returns (n: nat)
      requires buf.Valid()
      modifies this`buf
      ensures Drained(old(buf), buf, n) && n == Min(|old(buf).Unread()|, amount)
    {
      n := buf.w - buf.r;
      if n != 0 {
        n := Min(n, amount);
        buf := buf.(r := buf.r + n);
        if buf.r == buf.w {
          buf := buf.(r := 0, w := 0);
        }
      }
    }

    /** Lets `reader` fill at most `maxLen` bytes (0: no limit) of the free space. */
    method Slurp(maxLen: nat, reader: Reader) returns (code: Code, n: nat)
      requires buf.Valid() && !buf.IsFull()
      modifies this`buf, reader
      ensures reader.calls == old(reader.calls) + 1 && code == reader.answers(old(reader.calls)).code
      ensures var space := |old(buf).data| - old(buf).w;
              n == if code == Ok then Min(|reader.answers(old(reader.calls)).bytes|, Limited(space, maxLen)) else 0
      ensures |reader.given| == |old(reader.given)| + n && old(reader.given) <= reader.given
      ensures Filled(old(buf), buf, reader.given[|old(reader.given)|..])
    {
      n := |buf.data| - buf.w;
      if maxLen != 0 && n > maxLen {
        n := maxLen;
      }
      var filled;
      code, filled, n := reader.Read(buf.data[buf.w..buf.w + n]);
      buf := buf.(data := buf.data[..buf.w] + filled + buf.data[buf.w + |filled|..]);
      if code == Ok {
        buf := buf.(w := buf.w + n);
      }
    }
  }

  /** A space of `n` bytes, of which at most `maxLen` are wanted (0: all). */
  function Limited(n: nat, maxLen: nat): nat {
    if maxLen != 0 && n > maxLen then maxLen else n
  }

  /** `after` is `before` with `bytes` written behind the unread ones. */
  ghost predicate Filled(before: Buffer, after: Buffer, bytes: seq<Byte>) {
    && before.Valid() && after.Valid() && |after.data| == |before.data|
    && after.r == before.r && after.w == before.w + |bytes|
    && after.Unread() == before.Unread() + bytes
  }

  /** `after` is `before` without its first `n` unread bytes; a buffer that runs empty starts over. */
  ghost predicate Drained(before: Buffer, after: Buffer, n: nat) {
    && before.Valid() && after.Valid() && |after.data| == |before.data| && n <= |before.Unread()|
    && after.Unread() == before.Unread()[n..]
    && (after.IsEmpty() ==> after.IsUnused() || after == before)
    && (!after.IsEmpty() ==> after.w == before.w)
  }

  /** What a callback does on one call: a writer takes up to `|bytes|` bytes, a reader delivers
      `bytes`, or either reports an error. */
  datatype Answer = Answer(code: Code, bytes: seq<Byte>)

  /** The answer of a writer that failed, blocked or took nothing. */
  predicate IsRefusal(a: Answer) {
    a.code != Ok || a.bytes == []
  }

  /** A `Curl_bufq_writer` with its context: its behaviour is an arbitrary function of the call index. */
  class Writer {
    const answers: nat -> Answer
    var calls: nat
    var taken: seq<Byte>

    constructor (answers: nat -> Answer)
      ensures this.answers == answers && calls == 0 && taken == []
    {
      this.answers := answers;
      calls, taken := 0, [];
    }

    /** The last call failed, blocked or took nothing. */
    ghost predicate Refused()
      reads this
    {
      calls > 0 && IsRefusal(answers(calls - 1))
    }

    /** The answer of the last call. */
    ghost function Last(): Answer
      requires calls > 0
      reads this
    {
      answers(calls - 1)
    }

    method Write(bytes: seq<Byte>) returns (code: Code, n: nat)
      modifies this
      ensures bytes != [] ==> (Refused() <==> n == 0)
      ensures calls == old(calls) + 1
      ensures code == answers(old(calls)).code
      ensures n == if code == Ok then Min(|answers(old(calls)).bytes|, |bytes|) else 0
      ensures taken == old(taken) + bytes[..n]
    {
      code, n := answers(calls).code, 0;
      if code == Ok {
        n := Min(|answers(calls).bytes|, |bytes|);
      }
      taken := taken + bytes[..n];
      calls := calls + 1;
    }
  }

  /** A `Curl_bufq_reader` with its context. */
  class Reader {
    const answers: nat -> Answer
    var calls: nat
    var given: seq<Byte>

    constructor (answers: nat -> Answer)
      ensures this.answers == answers && calls == 0 && given == []
    {
      this.answers := answers;
      calls, given := 0, [];
    }

    /** The answer of the last call. */
    ghost function Last(): Answer
      requires calls > 0
      reads this
    {
      answers(calls - 1)
    }

    /** Call number `i` fails or does not fill a space of `room` bytes. */
    ghost predicate Short(i: nat, room: nat) {
      answers(i).code != Ok || |answers(i).bytes| < room
    }

    /** Call number `i` does not fill the space it is given: `room` bytes for the call number `first`,
        `size` bytes for each later one. */
    ghost predicate StopsAt(i: nat, first: nat, room: nat, size: nat) {
      first <= i && Short(i, if i == first then room else size)
    }

    ghost predicate StopsFrom(first: nat, room: nat, size: nat) {
      exists i: nat :: StopsAt(i, first, room, size)
    }

    ghost function Stop(first: nat, room: nat, size: nat): (i: nat)
      requires StopsFrom(first, room, size)
      ensures StopsAt(i, first, room, size)
    {
      var i: nat :| StopsAt(i, first, room, size);
      i
    }

    /** After every call there is one that does not fill `size` bytes. */
    ghost predicate KeepsStopping(size: nat) {
      forall first: nat :: first > 0 ==> StopsFrom(first, size, size)
    }

    lemma StopsAgain(first: nat, room: nat, size: nat)
      requires KeepsStopping(size)
      ensures StopsFrom(first, room, size)
    {
      var i := Stop(first + 1, size, size);
      assert StopsAt(i, first, room, size);
    }

    /** Fills the free space `dst`; a failing call may leave scribbles in it as well. */
    method Read(dst: seq<Byte>) returns (code: Code, filled: seq<Byte>, n: nat)
      modifies this
      ensures calls == old(calls) + 1
      ensures code == answers(old(calls)).code
      ensures n == if code == Ok then Min(|answers(old(calls)).bytes|, |dst|) else 0
      ensures |filled| == |dst| && given == old(given) + filled[..n]
    {
      var a := answers(calls);
      var k := Min(|a.bytes|, |dst|);
      code, filled, n := a.code, a.bytes[..k] + dst[k..], if a.code == Ok then k else 0;
      given := given + filled[..n];
      calls := calls + 1;
    }
  }
}
