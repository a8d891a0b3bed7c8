/** What the write loop promises about every behaviour of the kernel. */
module WriteLaws {
  import opened MachineTypes
  import opened FileDescriptors

  predicate FitInt(replies: seq<Reply>) { forall i | 0 <= i < |replies| :: replies[i].ret <= INT_MAX }

  lemma NarrowKeepsInt(x: int)
    requires -0x8000_0000 <= x <= INT_MAX
    ensures NarrowToInt(x) == x
  {
  }

  // ---------- The cases of one turn ----------

  /** The loop can go on from a claim of `n` bytes: it is progress, and no more than was offered. */
  predicate Accepts(s: Session, n: int) { 0 <= n <= |s.left| && (n == 0 ==> s.left == []) }

  lemma AcceptedTurn(s: Session, reply: Reply, n: int, writeAll: bool)
    requires s.end == Running && |s.left| <= SSIZE_MAX && SystemCall(reply) == Returned(n) && Accepts(s, n)
    ensures s.Turn(reply, writeAll)
         == Session(s.left[n..], Wrap64(s.total + n), s.sent + Taken(s.left, reply), Wrap32(s.writes + 1),
                    if writeAll && n < |s.left| then Running else Finished)
  {
    assert Wrap64(n) == n && Wrap64(|s.left|) == |s.left|;
    assert Wrap64(|s.left[n..]|) == |s.left| - n;
  }

  lemma RejectedTurn(s: Session, reply: Reply, n: int, writeAll: bool)
    requires s.end == Running && |s.left| <= SSIZE_MAX && SystemCall(reply) == Returned(n) && !Accepts(s, n)
    ensures s.Turn(reply, writeAll).end == Failed(if n < 0 then OutOfRange else RuntimeError)
  {
    assert Wrap64(|s.left|) == |s.left|;
    if n < 0 {
      assert Wrap64(n) == n + 0x1_0000_0000_0000_0000;
    }
  }

  /** The int that is read for a reply: the one that agrees with it in the low 32 bits. */
  lemma NarrowIsCongruent(x: int)
    ensures -0x8000_0000 <= NarrowToInt(x) < 0x8000_0000 && (x - NarrowToInt(x)) % 0x1_0000_0000 == 0
  {
  }

  /** A reply that is neither a system error nor rejected counts as a write. */
  predicate Registers(size: nat, reply: Reply) {
    var n := NarrowToInt(reply.ret);
    (n >= 0 || reply.errno == 0) && n <= size && (n == 0 ==> size == 0)
  }

  /**
   Every outcome of a turn, for every reply: the exception is the system's for a negative value with
   errno set, a runtime error for no progress or too much of it, and an overrun for a negative value
   without errno; otherwise the views lose what was claimed. Only the last two count as a write.
   */
  lemma TurnOutcomes(s: Session, reply: Reply, writeAll: bool)
    requires s.end == Running && |s.left| <= SSIZE_MAX
    ensures var t, n := s.Turn(reply, writeAll), NarrowToInt(reply.ret);
      && (n < 0 && reply.errno != 0 ==> t.end == Failed(UnixError(reply.errno)))
      && (n < 0 && reply.errno == 0 ==> t.end == Failed(OutOfRange))
      && (n > |s.left| || (n == 0 && s.left != []) ==> t.end == Failed(RuntimeError))
      && (0 < n <= |s.left| || (n == 0 && s.left == []) ==>
            t.left == s.left[n..] && t.total == Wrap64(s.total + n) && t.end == if writeAll && n < |s.left| then Running else Finished)
      && t.writes == if Registers(|s.left|, reply) then Wrap32(s.writes + 1) else s.writes
  {
    var n := NarrowToInt(reply.ret);
    if SystemCall(reply).Returned? {
      if Accepts(s, n) {
        AcceptedTurn(s, reply, n, writeAll);
      } else {
        RejectedTurn(s, reply, n, writeAll);
        RejectedWrites(s, reply, n, writeAll);
      }
    }
  }

  lemma RejectedWrites(s: Session, reply: Reply, n: int, writeAll: bool)
    requires s.end == Running && |s.left| <= SSIZE_MAX && SystemCall(reply) == Returned(n) && !Accepts(s, n)
    ensures s.Turn(reply, writeAll).writes == if n < 0 then Wrap32(s.writes + 1) else s.writes
  {
    assert Wrap64(|s.left|) == |s.left|;
    if n < 0 {
      assert Wrap64(n) == n + 0x1_0000_0000_0000_0000;
    }
  }

  /** An exception of the system, or for no progress or too much of it, comes before the write is counted. */
  predicate FailedBeforeCounting(end: End) { end.Failed? && end.error != OutOfRange }

  lemma TurnIsCounted(s: Session, reply: Reply, writeAll: bool)
    requires s.end == Running && Posix(|s.left|, reply)
    ensures var t := s.Turn(reply, writeAll);
      t.writes == if FailedBeforeCounting(t.end) then s.writes else Wrap32(s.writes + 1)
  {
    if |s.left| > SSIZE_MAX {
      RefusedTurn(s, reply, writeAll);
    } else {
      TurnOutcomes(s, reply, writeAll);
    }
  }

  /** A 32-bit counter after `k` increments, which is `w + k` modulo 2^32. */
  function Bumped(w: UInt32, k: nat): UInt32 { if k == 0 then w else Wrap32(Bumped(w, k - 1) + 1) }

  lemma {:induction false} BumpedIsWrapped(w: UInt32, k: nat)
    ensures Bumped(w, k) == Wrap32(w + k)
  {
    if k > 0 {
      BumpedIsWrapped(w, k - 1);
      Wrap32Once(w + k - 1, 1);
    }
  }

  lemma StillWaiting(start: Session, replies: seq<Reply>, writeAll: bool)
    requires replies != [] && Run(start, replies, writeAll).end == Running
    ensures Waited(start, replies, writeAll)
  {
  }

  lemma NextIsCounted(s: Session, reply: Reply, writeAll: bool, first: UInt32, n: nat, t: Session)
    requires s.end == Running && Posix(|s.left|, reply) && s.writes == Bumped(first, n) && t == s.Turn(reply, writeAll)
    ensures t.writes == Bumped(first, if FailedBeforeCounting(t.end) then n else n + 1)
  {
    TurnIsCounted(s, reply, writeAll);
  }

  /**
   Over a run that waited for every reply, the write count is incremented once for each reply but a
   last one that failed before it was counted.
   */
  lemma {:induction false} WritesAreCounted(start: Session, replies: seq<Reply>, writeAll: bool, s: Session)
    requires PosixRun(start, replies, writeAll) && s == Run(start, replies, writeAll)
    requires start.end == Running && (replies == [] || Waited(start, replies, writeAll))
    ensures s.writes == Bumped(start.writes, if FailedBeforeCounting(s.end) then |replies| - 1 else |replies|)
    decreases replies
  {
    if replies != [] {
      var n := |replies| - 1;
      var s' := Run(start, replies[..n], writeAll);
      PosixPrefix(start, replies, writeAll);
      if n > 0 {
        StillWaiting(start, replies[..n], writeAll);
      }
      WritesAreCounted(start, replies[..n], writeAll, s');
      NextIsCounted(s', replies[n], writeAll, start.writes, n, s);
    }
  }

  /** One turn whose reply fits an int moves exactly the accepted bytes from `left` to `sent`. */
  lemma FaithfulTurn(s: Session, reply: Reply, writeAll: bool)
    requires s.end == Running && Posix(|s.left|, reply) && reply.ret <= INT_MAX
    requires |s.left| <= SSIZE_MAX && s.total + |s.left| < 0x1_0000_0000_0000_0000
    ensures var t := s.Turn(reply, writeAll);
      && t.sent <= s.sent + s.left
      && t.end != Failed(OutOfRange)
      && (!t.end.Failed? ==>
            t.sent + t.left == s.sent + s.left && t.total - s.total == |t.sent| - |s.sent|
            && (t.end == Finished <==> !writeAll || t.left == []))
  {
    NarrowKeepsInt(reply.ret);
    SentGrows(s, reply, writeAll);
    if SystemCall(reply).Returned? {
      var n := reply.ret;
      if Accepts(s, n) {
        AcceptedTurn(s, reply, n, writeAll);
        assert s.sent + s.left[..n] + s.left[n..] == s.sent + s.left;
      } else {
        RejectedTurn(s, reply, n, writeAll);
      }
    }
  }

  lemma RefusedTurn(s: Session, reply: Reply, writeAll: bool)
    requires s.end == Running && Posix(|s.left|, reply) && |s.left| > SSIZE_MAX
    ensures s.Turn(reply, writeAll) == s.(end := Failed(UnixError(reply.errno)))
  {
  }

  lemma PosixPrefix(start: Session, replies: seq<Reply>, writeAll: bool)
    requires replies != [] && PosixRun(start, replies, writeAll)
    ensures PosixRun(start, replies[..|replies| - 1], writeAll)
    ensures Posix(|Run(start, replies[..|replies| - 1], writeAll).left|, replies[|replies| - 1])
  {
    var n := |replies| - 1;
    forall i | 0 <= i < n
      ensures Posix(|Run(start, replies[..n][..i], writeAll).left|, replies[..n][i])
    {
      assert replies[..n][..i] == replies[..i];
    }
  }

  /**
   As long as every reply fits an int, nothing is lost or duplicated at any moment: what the kernel
   accepted is a prefix of the contents, followed (until an exception) by what is still to be sent,
   and counted exactly. The removal of the accepted bytes never throws. A normal return has sent
   everything in order with `writeAll`, and a single write's worth without it.
   */
  lemma {:induction false} NothingLostOrDuplicated(contents: Text, writes: UInt32, replies: seq<Reply>, writeAll: bool)
    requires PosixRun(Start(contents, writes), replies, writeAll) && FitInt(replies)
    ensures var s := Run(Start(contents, writes), replies, writeAll);
      && s.sent <= contents
      && s.end != Failed(OutOfRange)
      && (!s.end.Failed? ==> s.sent + s.left == contents && s.total == |s.sent|)
      && (s.end == Finished && writeAll ==> s.sent == contents)
      && (s.end == Running && replies != [] ==> writeAll && s.left != [])
    decreases replies
  {
    var start := Start(contents, writes);
    if replies == [] {
      assert [] + contents == contents;
    } else {
      var n := |replies| - 1;
      PosixPrefix(start, replies, writeAll);
      NothingLostOrDuplicated(contents, writes, replies[..n], writeAll);
      var s := Run(start, replies[..n], writeAll);
      if s.end == Running {
        if |s.left| > SSIZE_MAX {
          RefusedTurn(s, replies[n], writeAll);
        } else {
          SmallTotal(contents, writes, replies[..n], writeAll);
          FaithfulTurn(s, replies[n], writeAll);
        }
      }
    }
  }

  /** A run that is still going after a reply had no more than SSIZE_MAX bytes to begin with. */
  lemma {:induction false} SmallTotal(contents: Text, writes: UInt32, replies: seq<Reply>, writeAll: bool)
    requires PosixRun(Start(contents, writes), replies, writeAll)
    requires Run(Start(contents, writes), replies, writeAll).end == Running
    ensures replies != [] ==> |contents| <= SSIZE_MAX
    decreases replies
  {
    var start := Start(contents, writes);
    if replies != [] {
      PosixPrefix(start, replies, writeAll);
      if |replies| == 1 {
        assert replies[..0] == [];
        if |contents| > SSIZE_MAX {
          RefusedTurn(start, replies[0], writeAll);
        }
      } else {
        SmallTotal(contents, writes, replies[..|replies| - 1], writeAll);
      }
    }
  }

  // ---------- Replies too large for an int ----------

  /** Every reply was waited for, and none claims more bytes than were offered. */
  predicate Truthful(start: Session, replies: seq<Reply>, writeAll: bool)
    decreases replies
  {
    replies == [] ||
    var n := |replies| - 1;
    var s := Run(start, replies[..n], writeAll);
    Truthful(start, replies[..n], writeAll) && s.end == Running && Posix(|s.left|, replies[n]) && replies[n].ret <= |s.left|
  }

  lemma NarrowShrinks(x: nat)
    ensures NarrowToInt(x) <= x && (NarrowToInt(x) == x <==> x <= INT_MAX)
    ensures NarrowToInt(x) >= -0x8000_0000
  {
  }

  /** `total` falls short of what was sent unless every reply did `fit`. */
  predicate Counted(size: nat, s: Session, fit: bool) {
    |s.left| + s.total == size && |s.sent| >= s.total && (|s.sent| == s.total <==> fit)
  }

  lemma CountingTurn(size: nat, s: Session, fit: bool, reply: Reply, writeAll: bool)
    requires s.end == Running && Posix(|s.left|, reply) && reply.ret <= |s.left|
    requires size <= SSIZE_MAX && Counted(size, s, fit)
    requires !s.Turn(reply, writeAll).end.Failed?
    ensures Counted(size, s.Turn(reply, writeAll), fit && reply.ret <= INT_MAX)
  {
    var n := NarrowToInt(reply.ret);
    if reply.ret < 0 {
      NarrowKeepsInt(reply.ret);
    } else {
      NarrowShrinks(reply.ret);
    }
    if SystemCall(reply).Returned? {
      if Accepts(s, n) {
        AcceptedTurn(s, reply, n, writeAll);
      } else {
        RejectedTurn(s, reply, n, writeAll);
      }
    }
  }

  lemma {:induction false} CountOfRun(contents: Text, writes: UInt32, replies: seq<Reply>, writeAll: bool)
    requires |contents| <= SSIZE_MAX && Truthful(Start(contents, writes), replies, writeAll)
    requires !Run(Start(contents, writes), replies, writeAll).end.Failed?
    ensures Counted(|contents|, Run(Start(contents, writes), replies, writeAll), FitInt(replies))
    decreases replies
  {
    if replies != [] {
      var n := |replies| - 1;
      CountOfRun(contents, writes, replies[..n], writeAll);
      CountingTurn(|contents|, Run(Start(contents, writes), replies[..n], writeAll), FitInt(replies[..n]), replies[n], writeAll);
      FitIntSnoc(replies);
    }
  }

  lemma FitIntSnoc(replies: seq<Reply>)
    requires replies != []
    ensures FitInt(replies) == (FitInt(replies[..|replies| - 1]) && replies[|replies| - 1].ret <= INT_MAX)
  {
    var n := |replies| - 1;
    if FitInt(replies[..n]) && replies[n].ret <= INT_MAX {
      forall i | 0 <= i < |replies|
        ensures replies[i].ret <= INT_MAX
      {
        assert i < n ==> replies[..n][i].ret <= INT_MAX;
      }
    }
    if FitInt(replies) {
      assert forall i | 0 <= i < n :: replies[..n][i] == replies[i];
    }
  }

  lemma TurnLeavesLess(s: Session, reply: Reply)
    requires s.end == Running && |s.left| <= SSIZE_MAX
    ensures var t := s.Turn(reply, true); |t.left| <= |s.left| && (t.end == Finished ==> t.left == [])
  {
    if SystemCall(reply).Returned? {
      var n := SystemCall(reply).value;
      if Accepts(s, n) {
        AcceptedTurn(s, reply, n, true);
      } else {
        RejectedTurn(s, reply, n, true);
        RejectedLeavesLess(s, reply, n);
      }
    }
  }

  lemma RejectedLeavesLess(s: Session, reply: Reply, n: int)
    requires s.end == Running && SystemCall(reply) == Returned(n) && s.Turn(reply, true).end.Failed?
    ensures |s.Turn(reply, true).left| <= |s.left|
  {
  }

  /** With `writeAll` a normal return means that the loop believes it has nothing left to send. */
  lemma {:induction false} FinishedMeansNothingLeft(start: Session, replies: seq<Reply>)
    requires start.end == Running && |start.left| <= SSIZE_MAX
    ensures var s := Run(start, replies, true); |s.left| <= |start.left| && (s.end == Finished ==> s.left == [])
    decreases replies
  {
    if replies != [] {
      var n := |replies| - 1;
      FinishedMeansNothingLeft(start, replies[..n]);
      var s := Run(start, replies[..n], true);
      if s.end == Running {
        TurnLeavesLess(s, replies[n]);
      }
    }
  }

  /**
   The system-call wrapper narrows its value to an int. A normal return reports the number of bytes
   that the kernel accepted if and only if every reply fitted; otherwise it reports too few, and
   with `writeAll` the loop has sent some bytes twice.
   */
  lemma ReturnedCountExact(contents: Text, writes: UInt32, replies: seq<Reply>, writeAll: bool)
    requires |contents| <= SSIZE_MAX && Truthful(Start(contents, writes), replies, writeAll)
    requires Run(Start(contents, writes), replies, writeAll).end == Finished
    ensures var s := Run(Start(contents, writes), replies, writeAll);
      && (s.total == |s.sent| <==> FitInt(replies))
      && (!FitInt(replies) ==> s.total < |s.sent| && (writeAll ==> |s.sent| > |contents|))
  {
    CountOfRun(contents, writes, replies, writeAll);
    if writeAll {
      FinishedMeansNothingLeft(Start(contents, writes), replies);
    }
  }

  // ---------- What the caller can check before the call ----------

  /** A normal return on a kernel that never claims more than it was offered. */
  predicate Returns(contents: Text, writes: UInt32, replies: seq<Reply>, writeAll: bool) {
    Truthful(Start(contents, writes), replies, writeAll) && Run(Start(contents, writes), replies, writeAll).end == Finished
  }

  /** The call reports what the kernel accepted. */
  predicate CountsRight(s: Session) { s.total == |s.sent| }

  /** The kernel accepted the first bytes of the contents, as many as reported, and with `writeAll` all of them. */
  predicate SendsRight(contents: Text, s: Session, writeAll: bool) {
    s.total <= |contents| && s.sent == contents[..s.total] && (writeAll ==> s.sent == contents)
  }

  lemma TruthfulSnoc(start: Session, replies: seq<Reply>, reply: Reply, writeAll: bool)
    requires Truthful(start, replies, writeAll)
    requires var s := Run(start, replies, writeAll); s.end == Running && Posix(|s.left|, reply) && reply.ret <= |s.left|
    ensures Truthful(start, replies + [reply], writeAll)
    ensures Run(start, replies + [reply], writeAll) == Run(start, replies, writeAll).Turn(reply, writeAll)
  {
    assert (replies + [reply])[..|replies|] == replies;
  }

  lemma {:induction false} TruthfulIsPosix(start: Session, replies: seq<Reply>, writeAll: bool)
    requires Truthful(start, replies, writeAll)
    ensures PosixRun(start, replies, writeAll)
    decreases replies
  {
    if replies != [] {
      var n := |replies| - 1;
      TruthfulIsPosix(start, replies[..n], writeAll);
      RunSnoc(start, replies[..n], replies[n], writeAll);
      InitAndLast(replies);
    }
  }

  /** A reply between 2^31 and 2^32 is read as negative or as no progress, so the loop never goes on from it. */
  lemma TurnFits(s: Session, reply: Reply, writeAll: bool)
    requires s.end == Running && Posix(|s.left|, reply) && reply.ret <= |s.left| <= 0x1_0000_0000
    requires !s.Turn(reply, writeAll).end.Failed?
    ensures reply.ret <= INT_MAX
  {
    if reply.ret > INT_MAX && SystemCall(reply).Returned? {
      assert NarrowToInt(reply.ret) <= 0;
      RejectedTurn(s, reply, NarrowToInt(reply.ret), writeAll);
    }
  }

  lemma {:induction false} RunFits(contents: Text, writes: UInt32, replies: seq<Reply>, writeAll: bool)
    requires |contents| <= 0x1_0000_0000 && Truthful(Start(contents, writes), replies, writeAll)
    requires !Run(Start(contents, writes), replies, writeAll).end.Failed?
    ensures FitInt(replies)
    decreases replies
  {
    if replies != [] {
      var n := |replies| - 1;
      RunFits(contents, writes, replies[..n], writeAll);
      CountOfRun(contents, writes, replies[..n], writeAll);
      TurnFits(Run(Start(contents, writes), replies[..n], writeAll), replies[n], writeAll);
      FitIntSnoc(replies);
    }
  }

  /** More than SSIZE_MAX bytes are refused, so the call never returns. */
  lemma HugeNeverReturns(contents: Text, writes: UInt32, replies: seq<Reply>, writeAll: bool)
    requires |contents| > SSIZE_MAX
    ensures !Returns(contents, writes, replies, writeAll)
  {
    var start := Start(contents, writes);
    if Returns(contents, writes, replies, writeAll) {
      var n := |replies| - 1;
      TruthfulIsPosix(start, replies[..n], writeAll);
      SmallTotal(contents, writes, replies[..n], writeAll);
      if n == 0 {
        RefusedTurn(start, replies[0], writeAll);
      }
    }
  }

  /** A loop that still has something to send can always be brought to a normal return, a byte at a time. */
  lemma {:induction false} OneByteReplies(start: Session, replies: seq<Reply>) returns (more: seq<Reply>)
    requires Truthful(start, replies, true)
    requires var s := Run(start, replies, true); s.end == Running && 0 < |s.left| <= SSIZE_MAX
    ensures replies <= more && Truthful(start, more, true) && Run(start, more, true).end == Finished
    decreases |Run(start, replies, true).left|
  {
    var s, one := Run(start, replies, true), Reply(1, 0);
    TruthfulSnoc(start, replies, one, true);
    AcceptedTurn(s, one, 1, true);
    more := replies + [one];
    if |s.left| > 1 {
      more := OneByteReplies(start, more);
    }
  }

  /** Contents of more than 2^32 bytes can be written, with a normal return, on a reply that is read as 1. */
  lemma LargeCanReturn(contents: Text, writes: UInt32, writeAll: bool) returns (replies: seq<Reply>)
    requires 0x1_0000_0000 < |contents| <= SSIZE_MAX
    ensures Returns(contents, writes, replies, writeAll) && !FitInt(replies)
  {
    var start, large := Start(contents, writes), Reply(0x1_0000_0001, 0);
    TruthfulSnoc(start, [], large, writeAll);
    AcceptedTurn(start, large, 1, writeAll);
    assert [] + [large] == [large];
    replies := [large];
    if writeAll {
      replies := OneByteReplies(start, replies);
    }
    assert replies[0] == large;
  }

  lemma SmallSendsRight(contents: Text, writes: UInt32, replies: seq<Reply>, writeAll: bool)
    requires |contents| <= 0x1_0000_0000 && Returns(contents, writes, replies, writeAll)
    ensures var s := Run(Start(contents, writes), replies, writeAll); CountsRight(s) && SendsRight(contents, s, writeAll)
  {
    RunFits(contents, writes, replies, writeAll);
    TruthfulIsPosix(Start(contents, writes), replies, writeAll);
    NothingLostOrDuplicated(contents, writes, replies, writeAll);
  }

  /** Every normal return reports what the kernel accepted exactly when the contents have at most 2^32 bytes, or too many to write at all. */
  lemma CountRightExactly(contents: Text, writes: UInt32, writeAll: bool)
    ensures (forall replies | Returns(contents, writes, replies, writeAll) ::
               CountsRight(Run(Start(contents, writes), replies, writeAll)))
       <==> |contents| <= 0x1_0000_0000 || |contents| > SSIZE_MAX
  {
    forall replies | Returns(contents, writes, replies, writeAll) && !(0x1_0000_0000 < |contents| <= SSIZE_MAX)
      ensures CountsRight(Run(Start(contents, writes), replies, writeAll))
    {
      if |contents| <= 0x1_0000_0000 {
        SmallSendsRight(contents, writes, replies, writeAll);
      } else {
        HugeNeverReturns(contents, writes, replies, writeAll);
      }
    }
    if 0x1_0000_0000 < |contents| <= SSIZE_MAX {
      var replies := LargeCanReturn(contents, writes, writeAll);
      ReturnedCountExact(contents, writes, replies, writeAll);
    }
  }

  /** The same sizes decide whether every normal return has sent the right bytes, each once and in order. */
  lemma SendRightExactly(contents: Text, writes: UInt32, writeAll: bool)
    ensures (forall replies | Returns(contents, writes, replies, writeAll) ::
               SendsRight(contents, Run(Start(contents, writes), replies, writeAll), writeAll))
       <==> |contents| <= 0x1_0000_0000 || |contents| > SSIZE_MAX
  {
    forall replies | Returns(contents, writes, replies, writeAll) && !(0x1_0000_0000 < |contents| <= SSIZE_MAX)
      ensures SendsRight(contents, Run(Start(contents, writes), replies, writeAll), writeAll)
    {
      if |contents| <= 0x1_0000_0000 {
        SmallSendsRight(contents, writes, replies, writeAll);
      } else {
        HugeNeverReturns(contents, writes, replies, writeAll);
      }
    }
    if 0x1_0000_0000 < |contents| <= SSIZE_MAX {
      var replies := LargeCanReturn(contents, writes, writeAll);
      ReturnedCountExact(contents, writes, replies, writeAll);
    }
  }

  /** A single write of 2^32 + 5 bytes, all accepted, is reported as 5. */
  lemma LargeWriteMiscounted(contents: Text, writes: UInt32)
    requires |contents| == 0x1_0000_0005
    ensures var s := Run(Start(contents, writes), [Reply(0x1_0000_0005, 0)], false);
      s.end == Finished && s.total == 5 && |s.sent| == 0x1_0000_0005
  {
  }

  /** The kernel never fails and accepts at least one byte whenever it is offered any. */
  predicate Obliging(start: Session, replies: seq<Reply>, writeAll: bool) {
    Truthful(start, replies, writeAll) &&
    forall i | 0 <= i < |replies| :: replies[i].ret >= 0 && (Run(start, replies[..i], writeAll).left != [] ==> replies[i].ret > 0)
  }

  lemma ObligingTurn(s: Session, reply: Reply, writeAll: bool)
    requires s.end == Running && |s.left| <= INT_MAX
    requires 0 <= reply.ret <= |s.left| && (s.left != [] ==> reply.ret > 0)
    ensures var t := s.Turn(reply, writeAll); !t.end.Failed? && |t.left| <= |s.left|
  {
    NarrowKeepsInt(reply.ret);
  }

  lemma {:induction false} ObligingRun(contents: Text, writes: UInt32, replies: seq<Reply>, writeAll: bool)
    requires |contents| <= INT_MAX && Obliging(Start(contents, writes), replies, writeAll)
    ensures var s := Run(Start(contents, writes), replies, writeAll); !s.end.Failed? && |s.left| <= |contents|
    decreases replies
  {
    if replies != [] {
      var n := |replies| - 1;
      assert forall i | 0 <= i < n :: replies[..n][..i] == replies[..i];
      ObligingRun(contents, writes, replies[..n], writeAll);
      ObligingTurn(Run(Start(contents, writes), replies[..n], writeAll), replies[n], writeAll);
    }
  }

  /** Writing cannot fail on an obliging kernel exactly when the contents fit an int. */
  lemma NeverFailsExactly(contents: Text, writes: UInt32, writeAll: bool)
    requires |contents| <= SSIZE_MAX
    ensures (forall replies | Obliging(Start(contents, writes), replies, writeAll) ::
               !Run(Start(contents, writes), replies, writeAll).end.Failed?)
       <==> |contents| <= INT_MAX
  {
    var start := Start(contents, writes);
    if |contents| <= INT_MAX {
      forall replies | Obliging(start, replies, writeAll)
        ensures !Run(start, replies, writeAll).end.Failed?
      {
        ObligingRun(contents, writes, replies, writeAll);
      }
    } else {
      var reply := Reply(0x8000_0000, 11);
      assert [reply][..0] == [] && Truthful(start, [], writeAll);
      assert Obliging(start, [reply], writeAll);
      assert NarrowToInt(reply.ret) == -0x8000_0000;
      assert Run(start, [reply], writeAll) == start.Turn(reply, writeAll);
    }
  }

  /** A single write of 2^31 bytes, all accepted, is taken for a failure. */
  lemma LargeWriteFails(contents: Text, writes: UInt32)
    requires |contents| == 0x8000_0000
    ensures var s := Run(Start(contents, writes), [Reply(0x8000_0000, 11)], false);
      s.end == Failed(UnixError(11)) && |s.sent| == 0x8000_0000
  {
  }

  /** Whatever the kernel answers, the loop ends within one turn for each byte, and at least one. */
  lemma {:induction false} EndsInTime(contents: Text, writes: UInt32, replies: seq<Reply>, writeAll: bool)
    ensures var s := Run(Start(contents, writes), replies, writeAll);
      s.end == Running ==> |replies| + |s.left| <= |contents| && (replies != [] ==> |replies| < |contents|)
    decreases replies
  {
    if replies != [] {
      var n := |replies| - 1;
      EndsInTime(contents, writes, replies[..n], writeAll);
      var s := Run(Start(contents, writes), replies[..n], writeAll);
      if s.end == Running && s.Turn(replies[n], writeAll).end == Running {
        TurnsMakeProgress(s, replies[n], writeAll);
      }
    }
  }
}
