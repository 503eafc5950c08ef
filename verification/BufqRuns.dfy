/** Whole runs of a queue, and two queues that share a pool. */
module BufqRuns {
  import opened Common
  import opened BufqChunk
  import opened BufqList
  import opened Bufq

  datatype Op =
    | Write(bytes: seq<Byte>)
    | Read(len: nat)
    | Skip(amount: nat)
    | Peek
    | PeekAt(offset: nat)
    | Sip(maxLen: nat)
    | Slurp(maxLen: nat)
    | Pass
    | WritePass(bytes: seq<Byte>)
    | Reset

  /** A slurp without a maximum ends under a soft limit only if the reader stops now and then. */
  ghost predicate Ends(q: Queue, op: Op, reader: Reader) {
    q.softLimit && op == Slurp(0) ==> reader.KeepsStopping(q.chunkSize)
  }

  /** What a call returns: its code, the count it reports, and the bytes it shows or hands out. */
  datatype Result = Result(code: Code, count: nat, bytes: seq<Byte>)

  /** What is queued, how many bytes a hard-limited queue still takes, and the space for the next read. */
  datatype State = State(bytes: seq<Byte>, room: nat, next: nat)

  ghost function StateOf(q: Queue): State
    reads q, q.data, q.spare
  {
    State(q.Contents(), q.Room(), q.NextRoom())
  }

  /** A queue, its reader and its writer. */
  datatype Parties = Parties(q: Queue, reader: Reader, writer: Writer)

  /** The numbers of the calls of the reader or the writer: the first one, and the one that comes next. */
  datatype Calls = Calls(first: nat, next: nat)

  /** Under a hard limit, what is queued and the room make up all chunks, less what was read from the
      first one. */
  ghost predicate Fits(state: State, q: Queue) {
    !q.softLimit ==>
      q.maxChunks * q.chunkSize - q.chunkSize < state.room + |state.bytes| <= q.maxChunks * q.chunkSize
  }

  lemma StateFits(q: Queue)
    requires q.Valid()
    ensures Fits(StateOf(q), q)
  {
    hide Queue.Valid, Queue.Room, Queue.Contents;
    if !q.softLimit {
      q.RoomIs();
    }
  }

  /** One call: the queue before and after it, what entered the queue and what left it, and how the reader
      or the writer was called. */
  datatype Step = Step(op: Op, result: Result, before: State, entered: seq<Byte>, left: seq<Byte>, after: State,
                       calls: Calls)

  predicate Reads(op: Op) {
    op.Sip? || op.Slurp?
  }

  predicate Writes(op: Op) {
    op.Pass? || op.WritePass?
  }

  /** What a call does and returns, by its kind. */
  ghost predicate IsStep(s: Step, p: Parties) {
    && s.left + s.after.bytes == s.before.bytes + s.entered
    && Fits(s.before, p.q) && Fits(s.after, p.q)
    && match s.op
       case Write(bytes) => Wrote(s, p.q)
       case Read(len) =>
         && s.entered == [] && s.left == s.before.bytes[..Min(len, |s.before.bytes|)]
         && s.result == Result(if s.left == [] then Again else Ok, |s.left|, s.left)
       case Skip(amount) => s.entered == [] && s.left == s.before.bytes[..Min(amount, |s.before.bytes|)]
       case Peek =>
         && s.entered == s.left == []
         && s.result.bytes <= s.before.bytes && (s.result.bytes == [] <==> s.before.bytes == [])
       case PeekAt(offset) =>
         && s.entered == s.left == [] && (s.result.bytes == [] <==> offset >= |s.before.bytes|)
         && (offset <= |s.before.bytes| ==> s.result.bytes <= s.before.bytes[offset..])
       case Sip(maxLen) => TookIn(s, p.q, maxLen) && Sipped(s, p, maxLen)
       case Slurp(maxLen) => TookIn(s, p.q, maxLen) && Slurped(s, p, maxLen)
       case Pass => s.entered == [] && |s.left| == s.result.count && Passed(s, p)
       case WritePass(bytes) => WroteOn(s, p, bytes)
       case Reset => s.entered == [] && s.after.bytes == []
  }

  /** One read, unless there is no space for it: as much as the reader has and the space and the maximum
      allow. */
  ghost predicate Sipped(s: Step, p: Parties, maxLen: nat) {
    var n, code := s.result.count, s.result.code;
    && s.calls.first <= s.calls.next <= s.calls.first + 1 && (code != Ok ==> n == 0)
    && (s.calls.next == s.calls.first && p.q.allocates ==> code == Again && !p.q.softLimit && s.before.room == 0)
    && (s.calls.next > s.calls.first ==>
          var a := p.reader.answers(s.calls.first);
          code == a.code && (code == Ok ==> n == Min(|a.bytes|, Limited(s.before.next, maxLen))))
  }

  /** Reads until the maximum is reached, a hard limit is, or the reader fails or does not fill its space;
      then the code is that of the reader, but for being blocked after some bytes. */
  ghost predicate Slurped(s: Step, p: Parties, maxLen: nat) {
    var n, code, first, next := s.result.count, s.result.code, s.calls.first, s.calls.next;
    && first <= next && (code == Again ==> n == 0) && (next == first ==> code != Ok)
    && (forall i: nat :: i < next - 1 ==> !p.reader.StopsAt(i, first, s.before.next, p.q.chunkSize))
    && (p.q.allocates && next == first ==> code == Again && !p.q.softLimit && s.before.room == 0)
    && (p.q.allocates && next > first ==>
          var last := p.reader.answers(next - 1).code;
          && code == (if last == Again && n > 0 then Ok else last)
          && (|| (maxLen > 0 && n == maxLen) || (!p.q.softLimit && s.after.room == 0)
              || p.reader.StopsAt(next - 1, first, s.before.next, p.q.chunkSize)))
  }

  /** Everything is passed on, unless the writer stops it. */
  ghost predicate Passed(s: Step, p: Parties) {
    && s.calls.first <= s.calls.next && (s.before.bytes != [] ==> s.calls.first < s.calls.next)
    && (s.after.bytes == [] ==> s.result.code == Ok)
    && (s.after.bytes != [] ==>
          && s.calls.first < s.calls.next && IsRefusal(p.writer.answers(s.calls.next - 1))
          && s.result.code == Stopped(p.writer.answers(s.calls.next - 1).code, s.result.count))
  }

  /** All bytes go in, unless the writer stops it; it is not called while there is room for them. */
  ghost predicate WroteOn(s: Step, p: Parties, bytes: seq<Byte>) {
    var n, code := s.result.count, s.result.code;
    && s.entered <= bytes && n <= |s.entered| && s.calls.first <= s.calls.next
    && (code == Ok ==> n > 0 || bytes == []) && (code == Again ==> n == 0 && bytes != [])
    && (p.q.allocates ==> n == |s.entered| && (n == |bytes| ==> code == Ok))
    && (p.q.allocates && n < |bytes| ==>
          && s.calls.first < s.calls.next && IsRefusal(p.writer.answers(s.calls.next - 1))
          && code == Stopped(p.writer.answers(s.calls.next - 1).code, n))
    && (p.q.allocates && !p.q.softLimit && |bytes| <= s.before.room ==>
          n == |bytes| && s.left == [] && s.calls.next == s.calls.first)
  }

  /** A write takes a beginning of the bytes: all that there is room for under a hard limit, and all of
      them under a soft one, unless memory runs out. */
  ghost predicate Wrote(s: Step, q: Queue)
    requires s.op.Write?
  {
    var n, code, bytes := s.result.count, s.result.code, s.op.bytes;
    && s.left == [] && n <= |bytes| && s.entered == bytes[..n]
    && (code == Ok ==> n > 0 || bytes == [])
    && (code == Again ==> n == 0 && bytes != [] && !q.softLimit)
    && (code == Ok || code == Again || (code == OutOfMemory && !q.allocates))
    && (q.allocates && q.softLimit ==> code == Ok && n == |bytes|)
    && (q.allocates && !q.softLimit ==> n == Min(s.before.room, |bytes|) && s.after.room == s.before.room - n)
    && (q.allocates && !q.softLimit && bytes != [] ==> (code == Again <==> s.before.room == 0))
  }

  /** The count is that of the bytes that came in, and under a hard limit they use up room. */
  ghost predicate TookIn(s: Step, q: Queue, maxLen: nat) {
    && s.left == [] && |s.entered| == s.result.count && (maxLen > 0 ==> s.result.count <= maxLen)
    && (!q.softLimit ==> s.after.room + s.result.count == s.before.room)
  }

  /** The calls one after the other, each on the queue that the one before it left. */
  ghost predicate IsRun(trace: seq<Step>, first: State, last: State, p: Parties) {
    if trace == [] then first == last
    else
      var n := |trace| - 1;
      IsRun(trace[..n], first, trace[n].before, p) && IsStep(trace[n], p) && trace[n].after == last
  }

  ghost function Entered(trace: seq<Step>): seq<Byte> {
    if trace == [] then [] else Entered(trace[..|trace| - 1]) + trace[|trace| - 1].entered
  }

  ghost function Left(trace: seq<Step>): seq<Byte> {
    if trace == [] then [] else Left(trace[..|trace| - 1]) + trace[|trace| - 1].left
  }

  /** The bytes that came from the reader, and those that went to the writer. */
  ghost function FromReader(trace: seq<Step>): seq<Byte> {
    if trace == [] then []
    else
      var s := trace[|trace| - 1];
      FromReader(trace[..|trace| - 1]) + if Reads(s.op) then s.entered else []
  }

  ghost function ToWriter(trace: seq<Step>): seq<Byte> {
    if trace == [] then []
    else
      var s := trace[|trace| - 1];
      ToWriter(trace[..|trace| - 1]) + if Writes(s.op) then s.left else []
  }

  /** The number of the next call of the reader, and of the writer. */
  datatype Turns = Turns(reader: nat, writer: nat)

  /** The reader and the writer answer the calls of the run one after the other, without a gap. */
  ghost predicate InTurn(trace: seq<Step>, first: Turns, last: Turns) {
    if trace == [] then first == last
    else
      var n := |trace| - 1;
      var s := trace[n];
      && InTurn(trace[..n], first, Turns(if Reads(s.op) then s.calls.first else last.reader,
                                         if Writes(s.op) then s.calls.first else last.writer))
      && (Reads(s.op) ==> s.calls.next == last.reader) && (Writes(s.op) ==> s.calls.next == last.writer)
  }

  lemma NoTurns(turns: Turns)
    ensures InTurn([], turns, turns)
  {
  }

  lemma TurnSnoc(trace: seq<Step>, s: Step, first: Turns, mid: Turns, last: Turns)
    requires InTurn(trace, first, mid)
    requires mid.reader == if Reads(s.op) then s.calls.first else last.reader
    requires mid.writer == if Writes(s.op) then s.calls.first else last.writer
    requires (Reads(s.op) ==> s.calls.next == last.reader) && (Writes(s.op) ==> s.calls.next == last.writer)
    ensures InTurn(trace + [s], first, last)
  {
    assert (trace + [s])[..|trace|] == trace;
  }

  lemma RunSnoc(trace: seq<Step>, s: Step, first: State, p: Parties)
    requires IsRun(trace, first, s.before, p) && IsStep(s, p)
    ensures IsRun(trace + [s], first, s.after, p)
    ensures FromReader(trace + [s]) == FromReader(trace) + if Reads(s.op) then s.entered else []
    ensures ToWriter(trace + [s]) == ToWriter(trace) + if Writes(s.op) then s.left else []
  {
    assert (trace + [s])[..|trace|] == trace;
  }

  /** First in, first out: over any run, what came out followed by what is still queued is what was
      queued followed by what went in. */
  lemma {:induction false} FirstInFirstOut(trace: seq<Step>, first: State, last: State, p: Parties)
    requires IsRun(trace, first, last, p)
    ensures Left(trace) + last.bytes == first.bytes + Entered(trace)
  {
    if trace != [] {
      hide IsStep;
      var n := |trace| - 1;
      var s := trace[n];
      FirstInFirstOut(trace[..n], first, s.before, p);
      assert s.left + s.after.bytes == s.before.bytes + s.entered by { StepConserves(s, p); }
      Assoc(Left(trace[..n]), s.left, last.bytes);
      Assoc(Left(trace[..n]), s.before.bytes, s.entered);
      Assoc(first.bytes, Entered(trace[..n]), s.entered);
    } else {
      assert first.bytes == first.bytes + [];
    }
  }

  lemma StepConserves(s: Step, p: Parties)
    requires IsStep(s, p)
    ensures s.left + s.after.bytes == s.before.bytes + s.entered
  {
  }

  /** A read into a buffer of its own. */
  method ReadOut(q: Queue, len: nat) returns (code: Code, bytes: seq<Byte>)
    requires q.Valid()
    modifies q, q.Heap()
    ensures q.Valid() && q.Heap() <= old(q.Heap()) && q.accepted == old(q.accepted)
    ensures bytes == old(q.Contents())[..Min(len, |old(q.Contents())|)]
    ensures q.Contents() == old(q.Contents())[|bytes|..] && q.removed == old(q.removed) + bytes
    ensures code == if bytes == [] then Again else Ok
  {
    hide ChunkQueue.Valid, ChunkStack.Valid, Queue.Contents;
    var dst := new Byte[len];
    var n;
    code, n := q.Read(dst, len);
    bytes := dst[..n];
  }

  /** The calls that only hand bytes out. */
  method Withdraw(q: Queue, op: Op, ghost p: Parties) returns (r: Result, ghost s: Step)
    requires q.Valid() && p.q == q && (op.Read? || op.Skip? || op.Peek? || op.PeekAt? || op.Reset?)
    modifies q, q.Heap()
    ensures q.Valid() && q.Heap() <= old(q.Heap())
    ensures s.op == op && s.result == r && s.before == old(StateOf(q)) && s.after == StateOf(q)
    ensures IsStep(s, p)
  {
    hide Queue.Valid, Queue.Contents, Queue.Room, Queue.NextRoom, Fits;
    ghost var c, start := q.Contents(), StateOf(q);
    StateFits(q);
    r := Result(Ok, 0, []);
    ghost var left: seq<Byte> := [];
    assert c[..|c|] == c && c[|c|..] == [] && c + [] == c;
    match op {
      case Read(len) =>
        var code, bytes := ReadOut(q, len);
        r := Result(code, |bytes|, bytes);
        left := bytes;
      case Skip(amount) =>
        q.Skip(amount);
        left := c[..Min(amount, |c|)];
      case Peek =>
        var found, bytes := q.Peek();
        r := r.(bytes := bytes);
      case PeekAt(offset) =>
        var found, bytes := q.PeekAt(offset);
        r := r.(bytes := if found then bytes else []);
      case Reset =>
        q.Reset();
        left := c;
    }
    StateFits(q);
    s := Step(op, r, start, [], left, StateOf(q), Calls(0, 0));
  }

  /** A write. */
  method Fill(q: Queue, bytes: seq<Byte>, ghost p: Parties) returns (r: Result, ghost s: Step)
    requires q.Valid() && p.q == q
    modifies q, q.Heap()
    ensures q.Valid() && fresh(q.Heap() - old(q.Heap()))
    ensures s.op == Write(bytes) && s.result == r && s.before == old(StateOf(q)) && s.after == StateOf(q)
    ensures IsStep(s, p)
  {
    hide Queue.Valid, Queue.Contents, Queue.Room, Queue.IsFull, Queue.NextRoom, Fits;
    ghost var c, start := q.Contents(), StateOf(q);
    StateFits(q);
    ghost var accepted, removed := q.accepted, q.removed;
    History(q);
    var code, n := q.Write(bytes);
    r := Result(code, n, []);
    History(q);
    assert removed + [] == removed;
    Account(removed, [], q.Contents(), c, bytes[..n]);
    StateFits(q);
    s := Step(Write(bytes), r, start, bytes[..n], [], StateOf(q), Calls(0, 0));
  }

  /** The calls that read. */
  method Draw(q: Queue, op: Op, reader: Reader, ghost p: Parties) returns (r: Result, ghost s: Step)
    requires q.Valid() && reader !in q.Heap() && p.q == q && p.reader == reader
    requires Reads(op) && Ends(q, op, reader)
    modifies q, q.Heap(), reader
    ensures q.Valid() && fresh(q.Heap() - old(q.Heap()))
    ensures s.op == op && s.result == r && s.before == old(StateOf(q)) && s.after == StateOf(q)
    ensures IsStep(s, p) && s.calls == Calls(old(reader.calls), reader.calls)
    ensures reader.given == old(reader.given) + s.entered
  {
    hide Queue.Valid, Queue.Contents, Queue.Room, Queue.IsFull, Queue.NextRoom, Reader.KeepsStopping, Reader.StopsFrom;
    hide Fits, Reader.StopsAt, Limited, Min;
    ghost var c, start := q.Contents(), StateOf(q);
    StateFits(q);
    ghost var accepted, removed := q.accepted, q.removed;
    History(q);
    var code, n;
    match op {
      case Sip(maxLen) =>
        code, n := q.Sip(maxLen, reader);
      case Slurp(maxLen) =>
        if q.softLimit && maxLen == 0 {
          reader.StopsAgain(reader.calls, q.NextRoom(), q.chunkSize);
        }
        code, n := q.Slurp(maxLen, reader);
    }
    ghost var entered := reader.given[|old(reader.given)|..];
    r := Result(code, n, []);
    History(q);
    assert removed + [] == removed;
    Account(removed, [], q.Contents(), c, entered);
    StateFits(q);
    s := Step(op, r, start, entered, [], StateOf(q), Calls(old(reader.calls), reader.calls));
  }

  /** The calls that hand bytes to the writer. */
  method Drain(q: Queue, op: Op, writer: Writer, ghost p: Parties) returns (r: Result, ghost s: Step)
    requires q.Valid() && writer !in q.Heap() && p.q == q && p.writer == writer
    requires Writes(op)
    modifies q, q.Heap(), writer
    ensures q.Valid() && fresh(q.Heap() - old(q.Heap()))
    ensures s.op == op && s.result == r && s.before == old(StateOf(q)) && s.after == StateOf(q)
    ensures IsStep(s, p) && s.calls == Calls(old(writer.calls), writer.calls)
    ensures writer.taken == old(writer.taken) + s.left
  {
    hide Queue.Valid, Queue.Contents, Queue.Room, Queue.IsFull, Queue.NextRoom;
    hide Fits;
    ghost var c, start := q.Contents(), StateOf(q);
    StateFits(q);
    ghost var entered, left: seq<Byte> := [], [];
    ghost var accepted, removed := q.accepted, q.removed;
    History(q);
    var code, n;
    match op {
      case Pass =>
        code, n := q.Pass(writer);
        left := c[..n];
      case WritePass(bytes) =>
        ghost var added;
        code, n, left, added := q.WritePass(bytes, writer);
        entered := bytes[..added];
    }
    r := Result(code, n, []);
    History(q);
    assert accepted + [] == accepted && removed + [] == removed;
    Account(removed, left, q.Contents(), c, entered);
    StateFits(q);
    s := Step(op, r, start, entered, left, StateOf(q), Calls(old(writer.calls), writer.calls));
  }

  lemma History(q: Queue)
    requires q.Valid()
    ensures q.accepted == q.removed + q.Contents()
  {
  }

  /** One call of any kind. */
  method Apply(q: Queue, op: Op, reader: Reader, writer: Writer) returns (r: Result, ghost s: Step)
    requires q.Valid() && reader !in q.Heap() && writer !in q.Heap()
    requires Ends(q, op, reader)
    modifies q, q.Heap(), reader, writer
    ensures q.Valid() && fresh(q.Heap() - old(q.Heap()))
    ensures s.op == op && s.result == r && s.before == old(StateOf(q)) && s.after == StateOf(q)
    ensures IsStep(s, Parties(q, reader, writer))
    ensures reader.given == old(reader.given) + if Reads(op) then s.entered else []
    ensures writer.taken == old(writer.taken) + if Writes(op) then s.left else []
    ensures reader.calls == if Reads(op) then s.calls.next else old(reader.calls)
    ensures writer.calls == if Writes(op) then s.calls.next else old(writer.calls)
    ensures (Reads(op) ==> s.calls.first == old(reader.calls)) && (Writes(op) ==> s.calls.first == old(writer.calls))
  {
    hide Queue.Valid, Queue.Contents, IsStep, StateOf, Ends;
    if op.Read? || op.Skip? || op.Peek? || op.PeekAt? || op.Reset? {
      r, s := Withdraw(q, op, Parties(q, reader, writer));
    } else if Writes(op) {
      r, s := Drain(q, op, writer, Parties(q, reader, writer));
    } else if Reads(op) {
      r, s := Draw(q, op, reader, Parties(q, reader, writer));
    } else {
      r, s := Fill(q, op.bytes, Parties(q, reader, writer));
    }
  }

  /** Any run of a queue: every call does what its kind and its result say to what was queued before it,
      the reader gave what `Sip` and `Slurp` took in, and the writer got what `Pass` and `WritePass`
      handed out. */
  method Run(q: Queue, ops: seq<Op>, reader: Reader, writer: Writer)
    returns (results: seq<Result>, ghost trace: seq<Step>)
    requires q.Valid() && reader !in q.Heap() && writer !in q.Heap()
    requires forall i :: 0 <= i < |ops| ==> Ends(q, ops[i], reader)
    modifies q, q.Heap(), reader, writer
    ensures q.Valid() && |results| == |trace| == |ops|
    ensures forall i :: 0 <= i < |ops| ==> trace[i].op == ops[i] && trace[i].result == results[i]
    ensures IsRun(trace, old(StateOf(q)), StateOf(q), Parties(q, reader, writer))
    ensures Left(trace) + q.Contents() == old(q.Contents()) + Entered(trace)
    ensures reader.given == old(reader.given) + FromReader(trace)
    ensures writer.taken == old(writer.taken) + ToWriter(trace)
    ensures InTurn(trace, old(Turns(reader.calls, writer.calls)), Turns(reader.calls, writer.calls))
  {
    hide Queue.Valid, Queue.Contents, IsStep, Queue.Room, Queue.NextRoom, Left, Entered, Ends, InTurn;
    results, trace := [], [];
    NoTurns(Turns(reader.calls, writer.calls));
    assert reader.given + [] == reader.given && writer.taken + [] == writer.taken;
    for k := 0 to |ops|
      invariant q.Valid() && fresh(q.Heap() - old(q.Heap()))
      invariant reader !in q.Heap() && writer !in q.Heap()
      invariant |results| == |trace| == k
      invariant forall i :: 0 <= i < k ==> trace[i].op == ops[i] && trace[i].result == results[i]
      invariant IsRun(trace, old(StateOf(q)), StateOf(q), Parties(q, reader, writer))
      invariant reader.given == old(reader.given) + FromReader(trace)
      invariant writer.taken == old(writer.taken) + ToWriter(trace)
      invariant InTurn(trace, old(Turns(reader.calls, writer.calls)), Turns(reader.calls, writer.calls))
    {
      ghost var s;
      var r;
      ghost var turns := Turns(reader.calls, writer.calls);
      r, s := Apply(q, ops[k], reader, writer);
      TurnSnoc(trace, s, old(Turns(reader.calls, writer.calls)), turns, Turns(reader.calls, writer.calls));
      RunSnoc(trace, s, old(StateOf(q)), Parties(q, reader, writer));
      Assoc(old(reader.given), FromReader(trace), if Reads(s.op) then s.entered else []);
      Assoc(old(writer.taken), ToWriter(trace), if Writes(s.op) then s.left else []);
      results, trace := results + [r], trace + [s];
    }
    FirstInFirstOut(trace, old(StateOf(q)), StateOf(q), Parties(q, reader, writer));
  }

  /** Two queues with one pool, and nothing else in common; the reader and the writer are outside. */
  ghost predicate Beside(q: Queue, other: Queue, reader: Reader, writer: Writer)
    reads q, other, q.data, q.spare, other.data, other.spare, q.pool, other.pool
  {
    && q != other && q.pool == other.pool
    && q.Own() !! other.Own() && q !in other.Own() && other !in q.Own()
    && reader !in q.Heap() + other.Heap() && writer !in q.Heap() + other.Heap()
  }

  /** What calls on either of two queues may change. */
  ghost function Joint(q: Queue, other: Queue): set<object>
    reads q.data, q.spare, q.pool, other.data, other.spare, other.pool
  {
    q.Heap() + other.Heap()
  }

  lemma BesideEither(q: Queue, other: Queue, reader: Reader, writer: Writer)
    requires Beside(q, other, reader, writer)
    ensures Beside(other, q, reader, writer) && Joint(other, q) == Joint(q, other)
    ensures q.Heap() <= Joint(q, other) && other.Heap() <= Joint(q, other)
  {
  }

  /** One call on a queue does not touch the other one: it keeps its bytes, its shape and its limits, and
      they still have nothing in common. */
  method ApplyBeside(q: Queue, other: Queue, op: Op, reader: Reader, writer: Writer, ghost joint: set<object>)
    returns (r: Result, ghost s: Step)
    requires q.Valid() && other.Valid() && Beside(q, other, reader, writer) && joint == Joint(q, other)
    requires Ends(q, op, reader)
    modifies q, q.Heap(), reader, writer
    ensures q.Valid() && other.Valid() && Beside(q, other, reader, writer)
    ensures fresh(Joint(q, other) - joint)
    ensures StateOf(other) == old(StateOf(other)) && other.Slots() == old(other.Slots())
    ensures other.chunkCount == old(other.chunkCount)
    ensures s.op == op && s.result == r && s.before == old(StateOf(q)) && s.after == StateOf(q)
    ensures IsStep(s, Parties(q, reader, writer))
    ensures reader.given == old(reader.given) + if Reads(op) then s.entered else []
    ensures writer.taken == old(writer.taken) + if Writes(op) then s.left else []
  {
    hide ChunkQueue.Valid, ChunkStack.Valid, IsStep, Shape, Flatten, Ends;
    r, s := Apply(q, op, reader, writer);
  }

  /** The calls on one of two queues. */
  function Selected(calls: seq<Call>, first: bool): seq<Op> {
    if calls == [] then []
    else
      var c := calls[|calls| - 1];
      Selected(calls[..|calls| - 1], first) + if c.first == first then [c.op] else []
  }

  function Ops(trace: seq<Step>): (ops: seq<Op>)
    ensures |ops| == |trace| && forall i :: 0 <= i < |ops| ==> ops[i] == trace[i].op
  {
    seq(|trace|, i requires 0 <= i < |trace| => trace[i].op)
  }

  lemma SelectedSnoc(calls: seq<Call>, k: nat, first: bool, trace: seq<Step>, s: Step)
    requires k < |calls| && Ops(trace) == Selected(calls[..k], first) && s.op == calls[k].op
    ensures Selected(calls[..k + 1], first) == Ops(if calls[k].first == first then trace + [s] else trace)
  {
    assert calls[..k + 1][..k] == calls[..k];
    assert Ops(trace + [s]) == Ops(trace) + [s.op];
  }

  datatype Call = Call(first: bool, op: Op)

  /** One call on one of the two. */
  method Turn(q: Queue, other: Queue, call: Call, reader: Reader, writer: Writer, ghost joint: set<object>)
    returns (ghost s: Step, ghost joint': set<object>)
    requires q.Valid() && other.Valid() && Beside(q, other, reader, writer) && joint == Joint(q, other)
    requires Ends(if call.first then q else other, call.op, reader)
    modifies q, other, Joint(q, other), reader, writer
    ensures q.Valid() && other.Valid() && Beside(q, other, reader, writer)
    ensures joint' == Joint(q, other) && fresh(joint' - joint) && s.op == call.op
    ensures call.first ==> IsStep(s, Parties(q, reader, writer)) && s.before == old(StateOf(q)) && s.after == StateOf(q)
                           && StateOf(other) == old(StateOf(other))
    ensures !call.first ==> IsStep(s, Parties(other, reader, writer))
                            && s.before == old(StateOf(other)) && s.after == StateOf(other)
                            && StateOf(q) == old(StateOf(q))
  {
    hide Queue.Valid, Queue.Contents, IsStep, StateOf, Ends, Queue.Slots, Beside;
    var r;
    BesideEither(q, other, reader, writer);
    if call.first {
      r, s := ApplyBeside(q, other, call.op, reader, writer, joint);
    } else {
      r, s := ApplyBeside(other, q, call.op, reader, writer, joint);
      BesideEither(other, q, reader, writer);
    }
    joint' := Joint(q, other);
  }

  /** Any run of calls on two queues with one pool, in any order: each of the queues is first in, first
      out on its own calls, as if the other were not there. */
  method RunBeside(q: Queue, other: Queue, calls: seq<Call>, reader: Reader, writer: Writer)
    returns (ghost trace: seq<Step>, ghost trace': seq<Step>)
    requires q.Valid() && other.Valid() && Beside(q, other, reader, writer)
    requires forall i :: 0 <= i < |calls| ==> Ends(if calls[i].first then q else other, calls[i].op, reader)
    modifies q, other, Joint(q, other), reader, writer
    ensures q.Valid() && other.Valid() && Beside(q, other, reader, writer)
    ensures Ops(trace) == Selected(calls, true) && Ops(trace') == Selected(calls, false)
    ensures IsRun(trace, old(StateOf(q)), StateOf(q), Parties(q, reader, writer))
    ensures IsRun(trace', old(StateOf(other)), StateOf(other), Parties(other, reader, writer))
  {
    hide Queue.Valid, Queue.Contents, IsStep, StateOf, Ends, Selected, Ops, Beside, IsRun, Joint;
    hide Queue.Room, Queue.NextRoom;
    trace, trace' := [], [];
    NoCalls(StateOf(q), Parties(q, reader, writer));
    NoCalls(StateOf(other), Parties(other, reader, writer));
    NoneSelected();
    ghost var start, joint := Joint(q, other), Joint(q, other);
    assert calls[..0] == [];
    for k := 0 to |calls|
      invariant q.Valid() && other.Valid() && Beside(q, other, reader, writer)
      invariant joint == Joint(q, other) && fresh(joint - start)
      invariant Ops(trace) == Selected(calls[..k], true) && Ops(trace') == Selected(calls[..k], false)
      invariant IsRun(trace, old(StateOf(q)), StateOf(q), Parties(q, reader, writer))
      invariant IsRun(trace', old(StateOf(other)), StateOf(other), Parties(other, reader, writer))
    {
      ghost var s;
      s, joint := Turn(q, other, calls[k], reader, writer, joint);
      SelectedSnoc(calls, k, true, trace, s);
      SelectedSnoc(calls, k, false, trace', s);
      if calls[k].first {
        RunSnoc(trace, s, old(StateOf(q)), Parties(q, reader, writer));
        trace := trace + [s];
      } else {
        RunSnoc(trace', s, old(StateOf(other)), Parties(other, reader, writer));
        trace' := trace' + [s];
      }
    }
    assert calls[..|calls|] == calls;
  }

  lemma NoCalls(state: State, p: Parties)
    ensures IsRun([], state, state, p)
  {
  }

  lemma NoneSelected()
    ensures Selected([], true) == Selected([], false) == Ops([])
  {
  }
}
