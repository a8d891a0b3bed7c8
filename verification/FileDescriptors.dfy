/** The shared state of a file descriptor, and the loop that writes a list of views to it. */
module FileDescriptors {
  import opened MachineTypes
  import opened Buffers

  const INT_MAX: int := 0x7fff_ffff
  const SSIZE_MAX: int := 0x7fff_ffff_ffff_ffff

  /** What a system call gives back: its value, and errno, which may be stale after a success. */
  datatype Reply = Reply(ret: SSizeT, errno: int)

  /** Conversion of a wider integer to a 32-bit int. */
  function NarrowToInt(x: int): int {
    if Wrap32(x) <= INT_MAX then Wrap32(x) else Wrap32(x) - 0x1_0000_0000
  }

  /** Conversion of a size_t to a ssize_t. */
  function ToSSizeT(x: SizeT): int {
    if x <= SSIZE_MAX then x else x - 0x1_0000_0000_0000_0000
  }

  /** The error-checking wrapper takes the value as an int; no errno is masked. */
  function SystemCall(reply: Reply): Result<int> {
    var value := NarrowToInt(reply.ret);
    if value >= 0 || reply.errno == 0 then Returned(value) else Threw(UnixError(reply.errno))
  }

  /** POSIX: a failure is -1 and sets errno, and more than SSIZE_MAX bytes at once are refused. */
  predicate Posix(size: nat, reply: Reply) {
    && reply.ret >= -1
    && (reply.ret < 0 ==> reply.errno != 0)
    && (size > SSIZE_MAX ==> reply.ret < 0)
  }

  /** The bytes that the kernel accepts when it is offered `text` and gives this reply. */
  function Taken(text: Text, reply: Reply): Text {
    text[..if reply.ret < 0 then 0 else Min(reply.ret, |text|)]
  }

  /** The other end of a descriptor. It accepts what it likes of what it is handed, and answers what it likes. */
  class Kernel {
    ghost var received: Text
    ghost var replies: seq<Reply>

    constructor ()
      ensures received == [] && replies == []
    {
      received, replies := [], [];
    }

    /** Any reply that POSIX permits, even one that claims more than was offered. */
    method Writev(iovecs: seq<StringView>) returns (reply: Reply)
      modifies this
      ensures Posix(|Flat(iovecs)|, reply)
      ensures received == old(received) + Taken(Flat(iovecs), reply) && replies == old(replies) + [reply]
    {
      var ret: SSizeT, errno: int := *, *;
      if ret < -1 || |Flat(iovecs)| > SSIZE_MAX {
        ret := -1;
      }
      if ret < 0 && errno == 0 {
        errno := 1;
      }
      reply := Reply(ret, errno);
      received, replies := received + Taken(Flat(iovecs), reply), replies + [reply];
    }
  }

  // ---------- The write loop as a state machine over the kernel's replies ----------

  /** No progress on a non-empty buffer, or more progress than there was to make. */
  predicate Rejected(n: int, size: SizeT) { (n == 0 && size != 0) || n > ToSSizeT(size) }

  datatype End = Running | Finished | Failed(error: Exception)

  /** `sent` is what the kernel has accepted, `left` what the loop believes is still to be sent. */
  datatype Session = Session(left: Text, total: SizeT, sent: Text, writes: UInt32, end: End) {
    /** One turn of the loop. */
    function Turn(reply: Reply, writeAll: bool): Session
      requires end == Running
    {
      var s := this.(sent := sent + Taken(left, reply));
      match SystemCall(reply)
      case Threw(e) => s.(end := Failed(e))
      case Returned(n) =>
        var size := Wrap64(|left|);
        if Rejected(n, size) then s.(end := Failed(RuntimeError))
        else if Wrap64(n) > |left| then s.(left := [], writes := Wrap32(writes + 1), end := Failed(OutOfRange))
        else
          var rest := left[Wrap64(n)..];
          Session(rest, Wrap64(total + n), s.sent, Wrap32(writes + 1), if writeAll && Wrap64(|rest|) != 0 then Running else Finished)
    }
  }

  function Start(contents: Text, writes: UInt32): Session { Session(contents, 0, [], writes, Running) }

  /** The loop after these replies; nothing happens any more once it has ended. */
  function Run(start: Session, replies: seq<Reply>, writeAll: bool): Session {
    if replies == [] then start
    else
      var s := Run(start, replies[..|replies| - 1], writeAll);
      if s.end == Running then s.Turn(replies[|replies| - 1], writeAll) else s
  }

  /** Every reply that the loop received was one that POSIX permits. */
  predicate PosixRun(start: Session, replies: seq<Reply>, writeAll: bool) {
    forall i | 0 <= i < |replies| :: Posix(|Run(start, replies[..i], writeAll).left|, replies[i])
  }

  /** The loop was still going when it received the last reply. */
  predicate Waited(start: Session, replies: seq<Reply>, writeAll: bool) {
    replies != [] && Run(start, replies[..|replies| - 1], writeAll).end == Running
  }

  lemma RunSnoc(start: Session, replies: seq<Reply>, reply: Reply, writeAll: bool)
    requires PosixRun(start, replies, writeAll)
    requires var s := Run(start, replies, writeAll); s.end == Running && Posix(|s.left|, reply)
    ensures Run(start, replies + [reply], writeAll) == Run(start, replies, writeAll).Turn(reply, writeAll)
    ensures PosixRun(start, replies + [reply], writeAll) && Waited(start, replies + [reply], writeAll)
  {
    var more := replies + [reply];
    assert more[..|replies|] == replies;
    forall i | 0 <= i < |more|
      ensures Posix(|Run(start, more[..i], writeAll).left|, more[i])
    {
      if i < |replies| {
        assert more[..i] == replies[..i];
      }
    }
  }

  /** The loop goes on while `writeAll` finds something left to send. */
  lemma TurnEnds(s: Session, reply: Reply, writeAll: bool)
    requires s.end == Running && !s.Turn(reply, writeAll).end.Failed?
    ensures var t := s.Turn(reply, writeAll); t.end == if writeAll && Wrap64(|t.left|) != 0 then Running else Finished
  {
  }

  /** Zero progress throws or ends the loop, so every further turn has less left to send. */
  lemma TurnsMakeProgress(s: Session, reply: Reply, writeAll: bool)
    requires s.end == Running && s.Turn(reply, writeAll).end == Running
    ensures |s.Turn(reply, writeAll).left| < |s.left|
  {
  }

  /** The bytes that the kernel took are counted as sent whatever the loop makes of the reply. */
  lemma SentGrows(s: Session, reply: Reply, writeAll: bool)
    requires s.end == Running
    ensures s.Turn(reply, writeAll).sent == s.sent + Taken(s.left, reply)
  {
  }

  /** The flags and counters of a descriptor at one moment. */
  datatype FdState = FdState(eof: bool, closed: bool, readCount: UInt32, writeCount: UInt32)

  class FDWrapper {
    const fd: nat
    var eof: bool
    var closed: bool
    var readCount: UInt32
    var writeCount: UInt32

    function State(): FdState reads this { FdState(eof, closed, readCount, writeCount) }

    constructor (fd: nat)
      ensures this.fd == fd && !eof && !closed && readCount == 0 && writeCount == 0
    {
      this.fd := fd;
      eof, closed, readCount, writeCount := false, false, 0, 0;
    }

    method RegisterWrite()
      modifies this`writeCount
      ensures writeCount == Wrap32(old(writeCount) + 1)
    {
      writeCount := Wrap32(writeCount + 1);
    }

    /** What the loop does with a reply that is not an error. */
    method Advance(buffer: BufferViewList, total: SizeT, bytesWritten: int) returns (next: SizeT, r: Result<()>)
      modifies this`writeCount, buffer
      ensures
        var left := old(buffer.Contents());
        if Rejected(bytesWritten, Wrap64(|left|)) then r == Threw(RuntimeError) && writeCount == old(writeCount)
        else
          && writeCount == Wrap32(old(writeCount) + 1)
          && if Wrap64(bytesWritten) > |left| then r == Threw(OutOfRange)
             else r == Returned(()) && buffer.Contents() == left[Wrap64(bytesWritten)..] && next == Wrap64(total + bytesWritten)
    {
      next := total;
      var size := buffer.Size();
      if Rejected(bytesWritten, size) {
        return next, Threw(RuntimeError);
      }
      RegisterWrite();
      r := buffer.RemovePrefix(Wrap64(bytesWritten));
      next := Wrap64(total + bytesWritten);
    }

    /** One turn of the loop of `Write`, on its own copy of the views. What the kernel receives is what `s` calls sent. */
    method WriteOnce(buffer: BufferViewList, total: SizeT, writeAll: bool, kernel: Kernel, ghost s: Session, ghost before: Text)
      returns (next: SizeT, r: Result<()>, ghost reply: Reply, ghost s': Session)
      requires s.end == Running && s.left == buffer.Contents() && s.total == total && s.writes == writeCount
      requires kernel.received == before + s.sent
      modifies this`writeCount, buffer, kernel
      ensures Posix(|s.left|, reply) && s' == s.Turn(reply, writeAll)
      ensures kernel.received == before + s'.sent && kernel.replies == old(kernel.replies) + [reply]
      ensures s'.end.Failed? <==> r.Threw?
      ensures r.Threw? ==> s'.end == Failed(r.error)
      ensures r.Returned? ==> next == s'.total && buffer.Contents() == s'.left
      ensures writeCount == s'.writes
    {
      next := total;
      var iovecs := buffer.AsIovecs();
      var answer := kernel.Writev(iovecs);
      reply := answer;
      s' := s.Turn(reply, writeAll);
      SentGrows(s, reply, writeAll);
      assert before + s.sent + Taken(s.left, reply) == before + s'.sent;
      var call := SystemCall(answer);
      if call.Threw? {
        return next, Threw(call.error), reply, s';
      }
      next, r := Advance(buffer, total, call.value);
    }

    /** Writes the views once, or with `writeAll` until nothing is left. */
    method Write(buffer: BufferViewList, writeAll: bool, kernel: Kernel) returns (r: Result<SizeT>, ghost replies: seq<Reply>)
      modifies this`writeCount, kernel
      ensures kernel.replies == old(kernel.replies) + replies
      ensures Waited(old(Start(buffer.Contents(), writeCount)), replies, writeAll)
      ensures PosixRun(old(Start(buffer.Contents(), writeCount)), replies, writeAll)
      ensures var s := Run(old(Start(buffer.Contents(), writeCount)), replies, writeAll);
        && (r.Returned? <==> s.end == Finished) && (r.Returned? ==> r.value == s.total)
        && (r.Threw? ==> s.end == Failed(r.error))
        && writeCount == s.writes && kernel.received == old(kernel.received) + s.sent
    {
      var views := new BufferViewList.CopyOf(buffer);
      ghost var start := Start(buffer.Contents(), writeCount);
      var total: SizeT := 0;
      var more := true;
      ghost var s := start;
      replies := [];
      while more
        modifies this`writeCount, views, kernel
        invariant s == Run(start, replies, writeAll) && PosixRun(start, replies, writeAll)
        invariant more ==> s.end == Running
        invariant !more ==> s.end == Finished && Waited(start, replies, writeAll)
        invariant views.Contents() == s.left && total == s.total
        invariant writeCount == s.writes
        invariant kernel.received == old(kernel.received) + s.sent && kernel.replies == old(kernel.replies) + replies
        decreases more, |s.left|
      {
        var next, turn; ghost var reply, s';
        next, turn, reply, s' := WriteOnce(views, total, writeAll, kernel, s, old(kernel.received));
        RunSnoc(start, replies, reply, writeAll);
        replies := replies + [reply];
        if s'.end == Running {
          TurnsMakeProgress(s, reply, writeAll);
        }
        if turn.Threw? {
          return Threw(turn.error), replies;
        }
        TurnEnds(s, reply, writeAll);
        s, total := s', next;
        var size := views.Size();
        more := writeAll && size != 0;
      }
      r := Returned(total);
    }
  }
}
