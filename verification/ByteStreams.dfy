/** The flow-controlled byte stream, and the flat bounded queue that it implements. */
module ByteStreams {
  import opened MachineTypes
  import opened Buffers

  /** A call of the public interface. `Inspect` calls every const getter. */
  datatype Op = Write(data: StdString) | Peek(len: SizeT) | Pop(len: SizeT) | Read(len: SizeT) | EndInput | SetError | Inspect

  /** What the call returned. `Misused` answers a peek that the stream does not support. */
  datatype Reply = Accepted(n: SizeT) | Bytes(text: Text) | Done | Failed(error: Exception) | Misused | Report(status: Status)

  datatype Status = Status(
    size: SizeT, remaining: SizeT, empty: bool, ended: bool, eof: bool, error: bool, written: SizeT, read: SizeT)

  /** A flat queue of bytes, with 64-bit counters of the bytes that went in and out. */
  datatype Queue = Queue(cap: SizeT, bytes: Text, written: SizeT, read: SizeT, ended: bool, error: bool) {
    predicate Fits() { |bytes| <= cap }

    function Inspected(): Status
      requires Fits()
    {
      Status(|bytes|, cap - |bytes|, bytes == [], ended, ended && bytes == [], error, written, read)
    }

    function Put(text: Text): Queue {
      this.(bytes := bytes + text, written := Wrap64(written + |text|))
    }

    function Take(n: nat): Queue
      requires n <= |bytes|
    {
      this.(bytes := bytes[n..], read := Wrap64(read + n))
    }
  }

  function Step(q: Queue, op: Op): (r: (Queue, Reply))
    requires q.Fits()
    ensures r.0.Fits() && r.0.cap == q.cap
  {
    match op
    case Write(data) =>
      var n := Min(q.cap - |q.bytes|, |data|);
      (q.Put(data[..n]), Accepted(n))
    case Peek(len) => (q, if len <= |q.bytes| then Bytes(q.bytes[..len]) else Misused)
    case Pop(len) => if len <= |q.bytes| then (q.Take(len), Done) else (q.(bytes := []), Failed(OutOfRange))
    case Read(len) => var n := Min(|q.bytes|, len); (q.Take(n), Bytes(q.bytes[..n]))
    case EndInput => (q.(ended := true), Done)
    case SetError => (q.(error := true), Done)
    case Inspect => (q, Report(q.Inspected()))
  }

  class ByteStream {
    const cap: SizeT
    const dataStream: BufferList
    var writeByte: SizeT
    var readByte: SizeT
    var endInput: bool
    var error: bool
    ghost var model: Queue
    ghost var Repr: set<object>

    ghost predicate Owned()
      reads this, Repr
    {
      && this in Repr && dataStream in Repr && dataStream.Repr <= Repr && this !in dataStream.Repr
      && dataStream.Valid()
    }

    ghost predicate Accounts()
      reads this, dataStream
    {
      && model.Fits()
      && model.cap == cap && model.bytes == dataStream.contents
      && model.ended == endInput && model.error == error
      && model.written == writeByte && model.read == readByte
    }

    ghost predicate Valid()
      reads this, Repr
      ensures Valid() ==> this in Repr
    {
      Owned() && Accounts()
    }

    constructor (capacity: SizeT)
      ensures Valid() && model == Queue(capacity, [], 0, 0, false, false)
      ensures fresh(Repr)
    {
      cap := capacity;
      var empty := new BufferList.Empty();
      dataStream := empty;
      writeByte, readByte, endInput, error := 0, 0, false, false;
      Repr := {this, empty} + empty.Repr;
      model := Queue(capacity, [], 0, 0, false, false);
    }

    method BufferSize() returns (n: SizeT)
      requires Valid()
      ensures n == |model.bytes|
    {
      n := dataStream.Size();
    }

    method RemainingCapacity() returns (n: SizeT)
      requires Valid()
      ensures n == cap - |model.bytes|
    {
      var size := BufferSize();
      n := cap - size;
    }

    method Inspected() returns (s: Status)
      requires Valid()
      ensures s == model.Inspected()
    {
      var size := BufferSize();
      var remaining := RemainingCapacity();
      s := Status(size, remaining, size == 0, endInput, endInput && size == 0, error, writeByte, readByte);
    }

    /** Appends a fresh one-buffer list, which holds the empty string when nothing fits. */
    method Store(text: StdString)
      requires Owned()
      modifies this`Repr, dataStream
      ensures Owned() && fresh(Repr - old(Repr)) && old(Repr) <= Repr
      ensures dataStream.contents == old(dataStream.contents) + text
    {
      var accepted := new BufferList.FromString(text);
      dataStream.Append(accepted);
      Repr := Repr + dataStream.Repr;
    }

    method Write(data: StdString) returns (len: SizeT)
      requires Valid()
      modifies Repr
      ensures Valid() && fresh(Repr - old(Repr))
      ensures len == Min(cap - |old(model).bytes|, |data|) && model == old(model).Put(data[..len])
    {
      var remaining := RemainingCapacity();
      len := Min(remaining, |data|);
      ghost var next := model.Put(data[..len]);
      Store(data[..len]);
      CountWritten(len, next);
    }

    method CountWritten(n: SizeT, ghost next: Queue)
      requires Owned() && next.Fits()
      requires next == Queue(cap, dataStream.contents, Wrap64(writeByte + n), readByte, endInput, error)
      modifies this`writeByte, this`model
      ensures Valid() && model == next
    {
      writeByte := Wrap64(writeByte + n);
      model := next;
    }

    /** Copies without a bounds check, so the caller must not ask for more than is buffered. */
    method PeekOutput(len: SizeT) returns (s: Text)
      requires Valid() && len <= |model.bytes|
      ensures s == model.bytes[..len]
    {
      s := dataStream.Concatenate();
      s := s[..len];
    }

    method Discard(len: SizeT) returns (r: Result<()>)
      requires Owned()
      modifies dataStream.Repr
      ensures Owned()
      ensures r == if len <= |old(dataStream.contents)| then Returned(()) else Threw(OutOfRange)
      ensures dataStream.contents == if r.Returned? then old(dataStream.contents)[len..] else []
    {
      r := dataStream.RemovePrefix(len);
    }

    method CountRead(n: SizeT, ghost next: Queue)
      requires Owned() && next.Fits()
      requires next == Queue(cap, dataStream.contents, writeByte, Wrap64(readByte + n), endInput, error)
      modifies this`readByte, this`model
      ensures Valid() && model == next
    {
      readByte := Wrap64(readByte + n);
      model := next;
    }

    ghost method CountNothing(next: Queue)
      requires Owned() && next.Fits()
      requires next == Queue(cap, dataStream.contents, writeByte, readByte, endInput, error)
      modifies this`model
      ensures Valid() && model == next
    {
      model := next;
    }

    /** Popping too much empties the stream and throws before the bytes are counted as read. */
    method PopOutput(len: SizeT) returns (r: Result<()>)
      requires Valid()
      modifies Repr
      ensures Valid() && fresh(Repr - old(Repr))
      ensures r == if len <= |old(model).bytes| then Returned(()) else Threw(OutOfRange)
      ensures model == if r.Returned? then old(model).Take(len) else old(model).(bytes := [])
    {
      ghost var next := if len <= |model.bytes| then model.Take(len) else model.(bytes := []);
      r := Discard(len);
      if r.Threw? {
        CountNothing(next);
        return;
      }
      CountRead(len, next);
    }

    method Read(len: SizeT) returns (s: Text)
      requires Valid()
      modifies Repr
      ensures Valid() && fresh(Repr - old(Repr))
      ensures var n := Min(|old(model).bytes|, len); s == old(model).bytes[..n] && model == old(model).Take(n)
    {
      var size := BufferSize();
      var length := Min(size, len);
      s := PeekOutput(length);
      var r := PopOutput(length);
    }

    method EndTheInput()
      requires Valid()
      modifies Repr
      ensures Valid() && fresh(Repr - old(Repr)) && model == old(model).(ended := true)
    {
      endInput := true;
      model := model.(ended := true);
    }

    method SetTheError()
      requires Valid()
      modifies Repr
      ensures Valid() && fresh(Repr - old(Repr)) && model == old(model).(error := true)
    {
      error := true;
      model := model.(error := true);
    }

    /** One call of a client that respects the precondition of `PeekOutput`. */
    method Perform(op: Op) returns (reply: Reply)
      requires Valid()
      modifies Repr
      ensures Valid() && fresh(Repr - old(Repr)) && Step(old(model), op) == (model, reply)
    {
      match op {
        case Write(data) => var n := Write(data); reply := Accepted(n);
        case Peek(len) =>
          var size := BufferSize();
          if len > size {
            return Misused;
          }
          var s := PeekOutput(len);
          reply := Bytes(s);
        case Pop(len) => var r := PopOutput(len); reply := if r.Returned? then Done else Failed(r.error);
        case Read(len) => var s := Read(len); reply := Bytes(s);
        case EndInput => EndTheInput(); reply := Done;
        case SetError => SetTheError(); reply := Done;
        case Inspect => var s := Inspected(); reply := Report(s);
      }
    }
  }

  // ---------- Whole runs ----------

  function RunQueue(q: Queue, ops: seq<Op>): (r: (Queue, seq<Reply>))
    requires q.Fits()
    ensures r.0.Fits() && r.0.cap == q.cap && |r.1| == |ops|
    decreases ops
  {
    if ops == [] then (q, [])
    else
      var (q1, reply) := Step(q, ops[0]);
      var (q2, replies) := RunQueue(q1, ops[1..]);
      (q2, [reply] + replies)
  }

  lemma RunOneMore(q: Queue, ops: seq<Op>, i: nat, replies: seq<Reply>)
    requires q.Fits() && i < |ops|
    ensures var (q1, reply) := Step(q, ops[i]);
      var r, r1 := RunQueue(q, ops[i..]), RunQueue(q1, ops[i + 1..]);
      r.0 == r1.0 && replies + r.1 == replies + [reply] + r1.1
  {
    assert ops[i..][0] == ops[i] && ops[i..][1..] == ops[i + 1..];
    var (q1, reply) := Step(q, ops[i]);
    assert RunQueue(q, ops[i..]).1 == [reply] + RunQueue(q1, ops[i + 1..]).1;
  }

  /** Every finite run of the stream answers exactly as the flat queue does. */
  method Run(s: ByteStream, ops: seq<Op>) returns (replies: seq<Reply>)
    requires s.Valid()
    modifies s.Repr
    ensures s.Valid() && fresh(s.Repr - old(s.Repr))
    ensures s.model == RunQueue(old(s.model), ops).0 && replies == RunQueue(old(s.model), ops).1
  {
    var i := 0;
    replies := [];
    while i < |ops|
      invariant i <= |ops| && s.Valid() && fresh(s.Repr - old(s.Repr))
      invariant RunQueue(old(s.model), ops).0 == RunQueue(s.model, ops[i..]).0
      invariant RunQueue(old(s.model), ops).1 == replies + RunQueue(s.model, ops[i..]).1
    {
      RunOneMore(s.model, ops, i, replies);
      var reply := s.Perform(ops[i]);
      replies, i := replies + [reply], i + 1;
    }
    assert ops[i..] == [] && RunQueue(s.model, ops[i..]) == (s.model, []);
  }
}
