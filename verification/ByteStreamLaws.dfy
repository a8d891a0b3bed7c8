/** What every run of the flat queue, and so of every `ByteStream`, promises to its callers. */
module ByteStreamLaws {
  import opened MachineTypes
  import opened ByteStreams

  /** The bytes that one entry of a log says were accepted. */
  function AcceptedBy(op: Op, reply: Reply): Text {
    if op.Write? && reply.Accepted? && reply.n <= |op.data| then op.data[..reply.n] else []
  }

  /** All the bytes that the writes of a log were told had been accepted, in order. */
  function Written(ops: seq<Op>, replies: seq<Reply>): Text
    requires |ops| == |replies|
    decreases ops
  {
    if ops == [] then [] else AcceptedBy(ops[0], replies[0]) + Written(ops[1..], replies[1..])
  }

  /** Two cursors into one append-only string: all that a client can know about a stream. */
  datatype Cursors = Cursors(cap: SizeT, w: nat, r: nat, lost: nat, ended: bool, error: bool) {
    predicate Ordered() { lost <= r <= w <= r + cap }
  }

  datatype Verdict = Unexplained | Next(c: Cursors)

  /**
   What one log entry must say of the string `text` and the cursors, and where it leaves them:
   a write extends the written part by the accepted bytes, up to the capacity; a peek, a pop or a
   read concerns the bytes right after the read cursor; a report measures the distance between
   the cursors. A pop past the end throws, moves the read cursor to the write cursor, and leaves
   those bytes out of the count.
   */
  function Follow(text: Text, c: Cursors, op: Op, reply: Reply): Verdict
    requires c.Ordered() && c.w <= |text|
  {
    match (op, reply)
    case (Write(data), Accepted(n)) =>
      if n == Min(c.cap - (c.w - c.r), |data|) && c.w + n <= |text| && text[c.w..c.w + n] == data[..n]
      then Next(c.(w := c.w + n)) else Unexplained
    case (Peek(len), Bytes(s)) => if c.r + len <= c.w && s == text[c.r..c.r + len] then Next(c) else Unexplained
    case (Peek(len), Misused) => if c.r + len > c.w then Next(c) else Unexplained
    case (Pop(len), Done) => if c.r + len <= c.w then Next(c.(r := c.r + len)) else Unexplained
    case (Pop(len), Failed(e)) =>
      if c.r + len > c.w && e == OutOfRange then Next(c.(r := c.w, lost := c.lost + (c.w - c.r))) else Unexplained
    case (Read(len), Bytes(s)) =>
      var n := Min(c.w - c.r, len);
      if s == text[c.r..c.r + n] then Next(c.(r := c.r + n)) else Unexplained
    case (EndInput, Done) => Next(c.(ended := true))
    case (SetError, Done) => Next(c.(error := true))
    case (Inspect, Report(s)) =>
      var size := c.w - c.r;
      if s == Status(size, c.cap - size, size == 0, c.ended, c.ended && size == 0, c.error, Wrap64(c.w), Wrap64(c.r - c.lost))
      then Next(c) else Unexplained
    case _ => Unexplained
  }

  /** `text` and the cursors explain every entry of the log, one after the other. */
  predicate Explains(text: Text, c: Cursors, ops: seq<Op>, replies: seq<Reply>)
    requires |ops| == |replies|
    decreases ops
  {
    c.Ordered() && c.w <= |text| &&
    (ops == [] ||
     match Follow(text, c, ops[0], replies[0])
     case Unexplained => false
     case Next(c1) => Explains(text, c1, ops[1..], replies[1..]))
  }

  /** The queue that the cursors describe, once `past` is the text written so far. */
  function QueueAt(past: Text, c: Cursors): Queue
    requires c.Ordered() && c.w == |past|
  {
    Queue(c.cap, past[c.r..], Wrap64(c.w), Wrap64(c.r - c.lost), c.ended, c.error)
  }

  /** What `Follow` must say for the log entry to agree with the step of the queue. */
  predicate Agrees(past: Text, c: Cursors, op: Op, text: Text)
    requires c.Ordered() && c.w == |past| <= |text|
  {
    var (q, reply) := Step(QueueAt(past, c), op);
    var more := past + AcceptedBy(op, reply);
    match Follow(text, c, op, reply)
    case Unexplained => false
    case Next(c1) => c1.Ordered() && c1.w == |more| && q == QueueAt(more, c1)
  }

  lemma WriteAgrees(past: Text, c: Cursors, data: StdString, text: Text)
    requires c.Ordered() && c.w == |past|
    requires past + AcceptedBy(Write(data), Step(QueueAt(past, c), Write(data)).1) <= text
    ensures Agrees(past, c, Write(data), text)
  {
    var n := Min(c.cap - (c.w - c.r), |data|);
    assert Step(QueueAt(past, c), Write(data)).1 == Accepted(n);
    WriteMoves(past, c, data[..n], text);
    Wrap64Once(c.w, n);
  }

  lemma WriteMoves(past: Text, c: Cursors, accepted: Text, text: Text)
    requires c.Ordered() && c.w == |past| && past + accepted <= text
    ensures text[c.w..c.w + |accepted|] == accepted
    ensures (past + accepted)[c.r..] == past[c.r..] + accepted
  {
    assert (past + accepted)[c.w..] == accepted;
  }

  lemma TakeAgrees(past: Text, c: Cursors, n: nat)
    requires c.Ordered() && c.w == |past| && c.r + n <= c.w
    ensures QueueAt(past, c).Take(n) == QueueAt(past, c.(r := c.r + n))
  {
    Wrap64Once(c.r - c.lost, n);
  }

  lemma PopAgrees(past: Text, c: Cursors, len: SizeT, text: Text)
    requires c.Ordered() && c.w == |past| && past <= text && c.r + len <= c.w
    ensures Agrees(past, c, Pop(len), text)
  {
    TakeAgrees(past, c, len);
    assert past + [] == past;
  }

  lemma PopPastEndAgrees(past: Text, c: Cursors, len: SizeT, text: Text)
    requires c.Ordered() && c.w == |past| && past <= text && c.r + len > c.w
    ensures Agrees(past, c, Pop(len), text)
  {
    assert past + [] == past && past[c.w..] == [];
  }

  lemma ReadAgrees(past: Text, c: Cursors, len: SizeT, text: Text)
    requires c.Ordered() && c.w == |past| && past <= text
    ensures Agrees(past, c, Read(len), text)
  {
    var n := Min(c.w - c.r, len);
    TakeAgrees(past, c, n);
    assert past + [] == past && past[c.r..][..n] == text[c.r..c.r + n];
  }

  lemma StepAgrees(past: Text, c: Cursors, op: Op, text: Text)
    requires c.Ordered() && c.w == |past|
    requires past + AcceptedBy(op, Step(QueueAt(past, c), op).1) <= text
    ensures Agrees(past, c, op, text)
  {
    if op.Write? {
      WriteAgrees(past, c, op.data, text);
    } else {
      assert past + [] == past && past == text[..c.w];
      if op.Read? {
        ReadAgrees(past, c, op.len, text);
      } else if op.Pop? {
        if c.r + op.len <= c.w {
          PopAgrees(past, c, op.len, text);
        } else {
          PopPastEndAgrees(past, c, op.len, text);
        }
      }
    }
  }

  lemma {:induction false} RunIsExplained(past: Text, c: Cursors, ops: seq<Op>)
    requires c.Ordered() && c.w == |past|
    ensures var replies := RunQueue(QueueAt(past, c), ops).1;
      Explains(past + Written(ops, replies), c, ops, replies)
    decreases ops
  {
    var q := QueueAt(past, c);
    var replies := RunQueue(q, ops).1;
    if ops != [] {
      var text := past + Written(ops, replies);
      var more := past + AcceptedBy(ops[0], replies[0]);
      assert text == more + Written(ops[1..], replies[1..]);
      StepAgrees(past, c, ops[0], text);
      RunIsExplained(more, Follow(text, c, ops[0], replies[0]).c, ops[1..]);
    }
  }

  /** First in, first out, over every finite run of a new stream. */
  lemma FirstInFirstOut(cap: SizeT, ops: seq<Op>)
    ensures var replies := RunQueue(Queue(cap, [], 0, 0, false, false), ops).1;
      Explains(Written(ops, replies), Cursors(cap, 0, 0, 0, false, false), ops, replies)
  {
    RunIsExplained([], Cursors(cap, 0, 0, 0, false, false), ops);
    var replies := RunQueue(Queue(cap, [], 0, 0, false, false), ops).1;
    assert [] + Written(ops, replies) == Written(ops, replies);
  }

  // ---------- Accounting ----------

  /** The bytes that an operation throws away: those left when a pop asks for more than there is. */
  function Discarded(q: Queue, op: Op): nat { if op.Pop? && op.len > |q.bytes| then |q.bytes| else 0 }

  function AllDiscarded(q: Queue, ops: seq<Op>): nat
    requires q.Fits()
    decreases ops
  {
    if ops == [] then 0 else Discarded(q, ops[0]) + AllDiscarded(Step(q, ops[0]).0, ops[1..])
  }

  /** By how much the counters exceed the buffer, in 64-bit arithmetic. */
  function Surplus(q: Queue): SizeT { Wrap64(q.written - q.read - |q.bytes|) }

  lemma StepSurplus(q: Queue, op: Op)
    requires q.Fits()
    ensures Surplus(Step(q, op).0) == Wrap64(Surplus(q) + Discarded(q, op))
  {
    var x := q.written - q.read - |q.bytes|;
    Wrap64Once(x, Discarded(q, op));
    match op
    case Write(data) => PutKeepsSurplus(q, data[..Min(q.cap - |q.bytes|, |data|)]);
    case Pop(len) => if len <= |q.bytes| { TakeKeepsSurplus(q, len); }
    case Read(len) => TakeKeepsSurplus(q, Min(|q.bytes|, len));
    case _ =>
  }

  lemma PutKeepsSurplus(q: Queue, data: Text)
    ensures Surplus(q.Put(data)) == Surplus(q)
  {
    var w: int, r: int := q.written, q.read;
    Wrap64Once(w + |data|, -r - |q.bytes| - |data|);
  }

  lemma TakeKeepsSurplus(q: Queue, n: nat)
    requires n <= |q.bytes|
    ensures Surplus(q.Take(n)) == Surplus(q)
  {
  }

  lemma {:induction false} RunSurplus(q: Queue, ops: seq<Op>)
    requires q.Fits()
    ensures Surplus(RunQueue(q, ops).0) == Wrap64(Surplus(q) + AllDiscarded(q, ops))
    decreases ops
  {
    if ops != [] {
      StepSurplus(q, ops[0]);
      var q1 := Step(q, ops[0]).0;
      RunSurplus(q1, ops[1..]);
      Wrap64Once(Surplus(q) + Discarded(q, ops[0]), AllDiscarded(q1, ops[1..]));
    }
  }

  predicate Balanced(s: Status) { s.size == Wrap64(s.written - s.read) }

  lemma BalancedMeansNoSurplus(q: Queue)
    requires q.Fits()
    ensures Balanced(q.Inspected()) <==> Surplus(q) == 0
  {
  }

  /**
   Bytes written less bytes read is what is buffered, through any run and any wrapping of the
   counters, if and only if the pops past the end have thrown away nothing (modulo 2^64).
   */
  lemma AccountingExact(q: Queue, ops: seq<Op>)
    requires q.Fits() && Balanced(q.Inspected())
    ensures Balanced(RunQueue(q, ops).0.Inspected()) <==> Wrap64(AllDiscarded(q, ops)) == 0
  {
    RunSurplus(q, ops);
    BalancedMeansNoSurplus(q);
    BalancedMeansNoSurplus(RunQueue(q, ops).0);
  }

  /** A concrete pop past the end that leaves the counters and the buffer in disagreement. */
  lemma PopPastEndUnbalances()
    ensures var q := RunQueue(Queue(4, [], 0, 0, false, false), [Write([7])]).0;
      Balanced(q.Inspected()) && !Balanced(Step(q, Pop(2)).0.Inspected())
  {
  }

  /** No client that looks before it pops ever throws bytes away. */
  lemma {:induction false} NothingDiscardedExactly(q: Queue, ops: seq<Op>)
    requires q.Fits()
    ensures AllDiscarded(q, ops) == 0
       <==> forall i | 0 <= i < |ops| && ops[i].Pop? :: var b := RunQueue(q, ops[..i]).0.bytes; ops[i].len <= |b| || b == []
    decreases ops
  {
    if ops != [] {
      var q1 := Step(q, ops[0]).0;
      NothingDiscardedExactly(q1, ops[1..]);
      forall i | 0 < i < |ops|
        ensures RunQueue(q, ops[..i]).0 == RunQueue(q1, ops[1..][..i - 1]).0
      {
        assert ops[..i][1..] == ops[1..][..i - 1];
      }
      assert forall j | 0 <= j < |ops| - 1 :: ops[1..][j] == ops[j + 1];
    }
  }

  // ---------- The end of the stream ----------

  predicate AtEnd(q: Queue) { q.ended && q.bytes == [] }

  /** At every point of the run, the stream is at its end. */
  predicate StaysAtEnd(q: Queue, ops: seq<Op>)
    requires q.Fits()
    decreases ops
  {
    AtEnd(q) && (ops != [] ==> StaysAtEnd(Step(q, ops[0]).0, ops[1..]))
  }

  /**
   Ending the input does not close the stream to writers: once `eof` holds, it goes on holding
   through a run if and only if no later write brings a byte, or there is no room for any.
   */
  lemma {:induction false} EofIsFinalExactly(q: Queue, ops: seq<Op>)
    requires q.Fits() && AtEnd(q)
    ensures StaysAtEnd(q, ops) <==> q.cap == 0 || forall op | op in ops && op.Write? :: op.data == []
    decreases ops
  {
    if ops != [] {
      var q1 := Step(q, ops[0]).0;
      assert forall op :: op in ops <==> op == ops[0] || op in ops[1..];
      if AtEnd(q1) {
        EofIsFinalExactly(q1, ops[1..]);
      } else {
        assert ops[0].Write? && ops[0] in ops;
      }
    }
  }

  /** A concrete run in which `eof` is reported and then taken back. */
  lemma EofTakenBack()
    ensures var q := RunQueue(Queue(1, [], 0, 0, false, false), [EndInput]).0;
      AtEnd(q) && !AtEnd(RunQueue(q, [Write([7])]).0)
  {
  }
}
