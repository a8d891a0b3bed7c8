/** What one call of the event loop keeps, whatever the rules' functions and the kernel do. */
module EventLoopLaws {
  import opened MachineTypes
  import opened FileDescriptors
  import opened EventLoops

  // ---------- Reading a log ----------

  /** The rules that a log cancels, and those that it calls, in order. */
  function Cancels(log: seq<Event>): seq<Rule> {
    if log == [] then []
    else
      var e := log[|log| - 1];
      Cancels(log[..|log| - 1]) + if e.Cancelled? then [e.rule] else []
  }

  function Calls(log: seq<Event>): seq<Rule> {
    if log == [] then []
    else
      var e := log[|log| - 1];
      Calls(log[..|log| - 1]) + if e.Called? then [e.rule] else []
  }

  lemma LogSnoc(log: seq<Event>, e: Event)
    ensures Cancels(log + [e]) == Cancels(log) + if e.Cancelled? then [e.rule] else []
    ensures Calls(log + [e]) == Calls(log) + if e.Called? then [e.rule] else []
  {
  }

  lemma {:induction false} LogConcat(a: seq<Event>, b: seq<Event>)
    ensures Cancels(a + b) == Cancels(a) + Cancels(b)
    ensures Calls(a + b) == Calls(a) + Calls(b)
    decreases |b|
  {
    if b == [] {
      assert a + b == a;
    } else {
      var n := |b| - 1;
      assert a + b == (a + b[..n]) + [b[n]];
      InitAndLast(b);
      LogConcat(a, b[..n]);
      LogSnoc(b[..n], b[n]);
      LogSnoc(a + b[..n], b[n]);
    }
  }

  /** The strictly increasing positions `at` pick `s` out of `t`. */
  predicate Picks(s: seq<Rule>, t: seq<Rule>, at: seq<nat>) {
    && |at| == |s|
    && (forall i | 0 <= i < |s| :: at[i] < |t| && s[i] == t[at[i]])
    && (forall i, j | 0 <= i < j < |s| :: at[i] < at[j])
  }

  /** `s` is obtained from `t` by leaving elements out, in order. */
  ghost predicate Subsequence(s: seq<Rule>, t: seq<Rule>) { exists at: seq<nat> :: Picks(s, t, at) }

  lemma SubsequenceEmpty(t: seq<Rule>)
    ensures Subsequence([], t)
  {
    assert Picks([], t, []);
  }

  lemma SubsequenceSnoc(s: seq<Rule>, t: seq<Rule>, r: Rule)
    requires Subsequence(s, t)
    ensures Subsequence(s, t + [r]) && Subsequence(s + [r], t + [r])
  {
    var at: seq<nat> :| Picks(s, t, at);
    assert Picks(s, t + [r], at);
    assert Picks(s + [r], t + [r], at + [|t|]);
  }

  lemma SubsequenceRest(s: seq<Rule>, t: seq<Rule>, rest: seq<Rule>)
    requires Subsequence(s, t)
    ensures Subsequence(s, t + rest) && Subsequence(s + rest, t + rest)
  {
    var at: seq<nat> :| Picks(s, t, at);
    assert Picks(s, t + rest, at);
    assert Picks(s + rest, t + rest, at + seq<nat>(|rest|, k requires k >= 0 => |t| + k));
  }

  lemma SubsequenceTransitive(s: seq<Rule>, t: seq<Rule>, u: seq<Rule>)
    requires Subsequence(s, t) && Subsequence(t, u)
    ensures Subsequence(s, u)
  {
    var at: seq<nat> :| Picks(s, t, at);
    var at': seq<nat> :| Picks(t, u, at');
    assert Picks(s, u, seq(|s|, i requires 0 <= i < |s| => at'[at[i]]));
  }

  // ---------- Conservation ----------

  /** Every rule of `before` is either kept, in order, or cancelled, and no rule both. */
  ghost predicate Conserved(before: seq<Rule>, kept: seq<Rule>, log: seq<Event>) {
    Subsequence(kept, before) && multiset(kept) + multiset(Cancels(log)) == multiset(before)
  }

  lemma ConservedSnoc(before: seq<Rule>, kept: seq<Rule>, log: seq<Event>, r: Rule, log': seq<Event>)
    requires Conserved(before, kept, log)
    ensures Cancels(log') == Cancels(log) ==> Conserved(before + [r], kept + [r], log')
    ensures Cancels(log') == Cancels(log) + [r] ==> Conserved(before + [r], kept, log')
  {
    SubsequenceSnoc(kept, before, r);
  }

  lemma ConservedRest(before: seq<Rule>, kept: seq<Rule>, log: seq<Event>, rest: seq<Rule>)
    requires Conserved(before, kept, log)
    ensures Conserved(before + rest, kept + rest, log)
  {
    SubsequenceRest(kept, before, rest);
  }

  lemma ConservedTwice(before: seq<Rule>, kept: seq<Rule>, log: seq<Event>, after: seq<Rule>, log': seq<Event>, both: seq<Event>)
    requires Conserved(before, kept, log) && Conserved(kept, after, log') && Cancels(both) == Cancels(log) + Cancels(log')
    ensures Conserved(before, after, both)
  {
    SubsequenceTransitive(after, kept, before);
  }

  lemma SetupThenConserves(rules: seq<Rule>, s: Setup, r: Rule, a: Answer)
    requires Conserved(rules, s.kept, s.log) && Calls(s.log) == []
    ensures var u := s.Then(r, a); Conserved(rules + [r], u.kept, u.log) && Calls(u.log) == []
  {
    var e := if r.GoneIn(s.world) then Cancelled(r, a.world) else Asked(r, a.yes, a.world);
    LogSnoc(s.log, e);
    ConservedSnoc(rules, s.kept, s.log, r, s.log + [e]);
  }

  lemma {:induction false} SetUpConserves(rules: seq<Rule>, world: World, answers: seq<Answer>)
    requires |answers| == |rules|
    ensures var s := SetUp(rules, world, answers); Conserved(rules, s.kept, s.log) && Calls(s.log) == []
    decreases |rules|
  {
    if rules == [] {
      SubsequenceEmpty([]);
    } else {
      var n := |rules| - 1;
      InitAndLast(rules);
      SetUpConserves(rules[..n], world, answers[..n]);
      SetupThenConserves(rules[..n], SetUp(rules[..n], world, answers[..n]), rules[n], answers[n]);
    }
  }

  lemma ThenLog(t: Serving, r: Rule, p: PollFd, turn: Turn)
    ensures var u := t.Then(r, p, turn);
      && Cancels(u.log) == Cancels(t.log) + (if t.progress == Going && !p.Broken() && p.HungUp() then [r] else [])
      && Calls(u.log) == Calls(t.log) + (if t.progress == Going && !p.Broken() && p.Ready() then [r] else [])
  {
    var called, asked := Called(r, turn.world), Asked(r, turn.answer.yes, turn.answer.world);
    LogSnoc(t.log, Cancelled(r, turn.world));
    LogSnoc(t.log, called);
    LogSnoc(t.log + [called], asked);
    assert t.log + [called] + [asked] == t.log + [called, asked];
  }

  lemma ThenConserves(rules: seq<Rule>, t: Serving, r: Rule, p: PollFd, turn: Turn)
    requires Conserved(rules, t.kept, t.log)
    ensures var u := t.Then(r, p, turn); Conserved(rules + [r], u.kept, u.log)
  {
    ThenLog(t, r, p, turn);
    ConservedSnoc(rules, t.kept, t.log, r, t.Then(r, p, turn).log);
  }

  lemma {:induction false} ServeConserves(rules: seq<Rule>, polled: seq<PollFd>, world: World, turns: seq<Turn>)
    requires |polled| == |rules| == |turns|
    ensures var t := Serve(rules, polled, world, turns); Conserved(rules, t.kept, t.log)
    decreases |rules|
  {
    if rules == [] {
      SubsequenceEmpty([]);
    } else {
      var n := |rules| - 1;
      InitAndLast(rules);
      ServeConserves(rules[..n], polled[..n], world, turns[..n]);
      ThenConserves(rules[..n], Serve(rules[..n], polled[..n], world, turns[..n]), rules[n], polled[n], turns[n]);
    }
  }

  lemma {:induction false} CallsInOrder(rules: seq<Rule>, polled: seq<PollFd>, world: World, turns: seq<Turn>)
    requires |polled| == |rules| == |turns|
    ensures Subsequence(Calls(Serve(rules, polled, world, turns).log), rules)
    decreases |rules|
  {
    if rules == [] {
      SubsequenceEmpty([]);
    } else {
      var n := |rules| - 1;
      InitAndLast(rules);
      var t := Serve(rules[..n], polled[..n], world, turns[..n]);
      CallsInOrder(rules[..n], polled[..n], world, turns[..n]);
      ThenLog(t, rules[n], polled[n], turns[n]);
      SubsequenceSnoc(Calls(t.log), rules[..n], rules[n]);
      assert Calls(t.log) + [] == Calls(t.log);
    }
  }

  lemma PollLog(log: seq<Event>, fds: seq<PollFd>, reply: Reply)
    ensures Cancels(log + [Polled(fds, reply)]) == Cancels(log) && Calls(log + [Polled(fds, reply)]) == Calls(log)
  {
  }

  lemma ThreeLogs(a: seq<Event>, fds: seq<PollFd>, reply: Reply, b: seq<Event>)
    requires Calls(a) == []
    ensures Calls(a + [Polled(fds, reply)] + b) == Calls(b)
    ensures Cancels(a + [Polled(fds, reply)] + b) == Cancels(a) + Cancels(b)
  {
    PollLog(a, fds, reply);
    LogConcat(a + [Polled(fds, reply)], b);
    assert [] + Calls(b) == Calls(b);
  }

  lemma ServePrefixConserves(rules: seq<Rule>, polled: seq<PollFd>, world: World, turns: seq<Turn>)
    requires |turns| <= |rules| == |polled|
    ensures var n := |turns|; var t := Serve(rules[..n], polled[..n], world, turns);
      Conserved(rules, t.kept + rules[n..], t.log) && Subsequence(Calls(t.log), rules)
  {
    var n := |turns|;
    assert rules == rules[..n] + rules[n..];
    var t := Serve(rules[..n], polled[..n], world, turns);
    ServeConserves(rules[..n], polled[..n], world, turns);
    CallsInOrder(rules[..n], polled[..n], world, turns);
    ConservedRest(rules[..n], t.kept, t.log, rules[n..]);
    SubsequenceRest(Calls(t.log), rules[..n], rules[n..]);
  }

  /** The call went through poll and on to the second pass. */
  predicate ReachesSecondPass(before: seq<Rule>, world: World, a: Answers)
    requires |a.interests| == |before|
  {
    var n := NarrowToInt(a.reply.ret);
    SetUp(before, world, a.interests).wanted && n != 0 && (n < 0 ==> a.reply.errno != 4)
  }

  /** The second pass as far as it got. */
  function SecondPassOf(before: seq<Rule>, world: World, a: Answers): Serving
    requires |a.interests| == |before|
    requires |a.turns| <= |SetUp(before, world, a.interests).kept| == |a.polled|
  {
    var s, n := SetUp(before, world, a.interests), |a.turns|;
    Serve(s.kept[..n], a.polled[..n], s.world, a.turns)
  }

  /** A call that got as far as the second pass ran through these stages. */
  lemma SecondStage(before: seq<Rule>, world: World, a: Answers, after: seq<Rule>, log: seq<Event>, r: Result<Outcome>)
    requires WaitRun(before, world, a, after, log, r) && ReachesSecondPass(before, world, a)
    ensures var s, t := SetUp(before, world, a.interests), SecondPassOf(before, world, a);
      && Conserved(s.kept, after, t.log) && Subsequence(Calls(t.log), s.kept)
      && Calls(log) == Calls(t.log) && Cancels(log) == Cancels(s.log) + Cancels(t.log)
  {
    var s := SetUp(before, world, a.interests);
    SetUpConserves(before, world, a.interests);
    ServePrefixConserves(s.kept, a.polled, s.world, a.turns);
    ThreeLogs(s.log, a.polled, a.reply, SecondPassOf(before, world, a).log);
  }

  /**
   Whatever happens, exceptions included: the rules left are an order-preserving part of the old
   ones, each rule that left was cancelled exactly once and no kept rule was; and the rules called
   are called in list order, each at most once.
   */
  lemma RulesAreConserved(before: seq<Rule>, world: World, a: Answers, after: seq<Rule>, log: seq<Event>, r: Result<Outcome>)
    requires WaitRun(before, world, a, after, log, r)
    ensures Conserved(before, after, log) && Subsequence(Calls(log), before)
  {
    var s := SetUp(before, world, a.interests);
    SetUpConserves(before, world, a.interests);
    SubsequenceEmpty(before);
    if s.wanted {
      PollLog(s.log, a.polled, a.reply);
      if AfterPoll(a.reply) == GoOn {
        SecondStage(before, world, a, after, log, r);
        ConservedTwice(before, s.kept, s.log, after, SecondPassOf(before, world, a).log, log);
        SubsequenceTransitive(Calls(log), s.kept, before);
      }
    }
  }

  lemma {:induction false} DistinctCount(rules: seq<Rule>, r: Rule)
    requires Distinct(rules)
    ensures multiset(rules)[r] == if r in rules then 1 else 0
    decreases |rules|
  {
    if rules != [] {
      var n := |rules| - 1;
      InitAndLast(rules);
      DistinctCount(rules[..n], r);
      assert r in rules <==> r in rules[..n] || r == rules[n];
    }
  }

  lemma CancelledExactlyOnce(before: seq<Rule>, world: World, a: Answers, after: seq<Rule>, log: seq<Event>,
                             r: Result<Outcome>, rule: Rule)
    requires WaitRun(before, world, a, after, log, r) && Distinct(before) && rule in before
    ensures multiset(Cancels(log))[rule] == if rule in after then 0 else 1
    ensures multiset(after)[rule] <= 1
  {
    RulesAreConserved(before, world, a, after, log, r);
    DistinctCount(before, rule);
    assert multiset(before)[rule] == multiset(after)[rule] + multiset(Cancels(log))[rule];
  }

  // ---------- The worlds of a log ----------

  /** The descriptors as the last event of a log left them, or as they were before it. */
  function LastWorld(world: World, log: seq<Event>): World {
    if log == [] then world
    else
      var e := log[|log| - 1];
      if e.Polled? then LastWorld(world, log[..|log| - 1]) else e.world
  }

  lemma LastWorldSnoc(world: World, log: seq<Event>, e: Event)
    ensures LastWorld(world, log + [e]) == if e.Polled? then LastWorld(world, log) else e.world
  {
    assert (log + [e])[..|log|] == log;
  }

  lemma {:induction false} LastWorldConcat(world: World, a: seq<Event>, b: seq<Event>)
    ensures LastWorld(world, a + b) == LastWorld(LastWorld(world, a), b)
    decreases |b|
  {
    if b == [] {
      assert a + b == a;
    } else {
      var n := |b| - 1;
      InitAndLast(b);
      LastWorldConcat(world, a, b[..n]);
      assert a + b == (a + b[..n]) + [b[n]];
      LastWorldSnoc(world, a + b[..n], b[n]);
      LastWorldSnoc(LastWorld(world, a), b[..n], b[n]);
    }
  }

  // ---------- Who leaves in the first pass ----------

  /** What the first pass does to the rule at `k`: cancel it if its descriptor is spent at that moment, else ask it. */
  predicate Judged(rules: seq<Rule>, world: World, answers: seq<Answer>, log: seq<Event>, k: nat)
    requires k < |rules| == |answers| == |log|
  {
    var s := StateIn(LastWorld(world, log[..k]), rules[k].fd);
    log[k] == if s.closed || (rules[k].direction == In && s.eof) then Cancelled(rules[k], answers[k].world)
              else Asked(rules[k], answers[k].yes, answers[k].world)
  }

  /**
   The first pass does one thing to each rule, in list order: a rule is cancelled exactly when, at
   that moment, its descriptor is closed, or at its end while the rule reads; otherwise it is asked.
   */
  lemma {:induction false} LeavesExactly(rules: seq<Rule>, world: World, answers: seq<Answer>)
    requires |answers| == |rules|
    ensures var s := SetUp(rules, world, answers);
      && |s.log| == |rules| && s.world == LastWorld(world, s.log)
      && forall k | 0 <= k < |rules| :: Judged(rules, world, answers, s.log, k)
    decreases |rules|
  {
    if rules != [] {
      var n := |rules| - 1;
      var s, u := SetUp(rules[..n], world, answers[..n]), SetUp(rules, world, answers);
      LeavesExactly(rules[..n], world, answers[..n]);
      InitAndLast(u.log);
      LastWorldSnoc(world, s.log, u.log[n]);
      forall k | 0 <= k < |rules|
        ensures Judged(rules, world, answers, u.log, k)
      {
        assert u.log[..k] == s.log[..k];
        if k < n {
          assert Judged(rules[..n], world, answers[..n], s.log, k);
        } else {
          assert s.log[..k] == s.log;
        }
      }
    }
  }

  /** The log of a call starts with the first pass; poll follows exactly when some rule is wanted. */
  lemma FirstPassComesFirst(before: seq<Rule>, world: World, a: Answers, after: seq<Rule>, log: seq<Event>, r: Result<Outcome>)
    requires WaitRun(before, world, a, after, log, r)
    ensures var s, n := SetUp(before, world, a.interests), |before|;
      && n <= |log| && log[..n] == s.log
      && (s.wanted == (n < |log|)) && (s.wanted ==> log[n] == Polled(a.polled, a.reply))
  {
    LeavesExactly(before, world, a.interests);
  }

  /**
   Event k of a call concerns rule k of the list. It is a cancellation exactly if, as the events before
   left the descriptor, it is closed, or at its end while the rule reads; otherwise it is a question.
   */
  lemma CancelledFirstExactly(before: seq<Rule>, world: World, a: Answers, after: seq<Rule>, log: seq<Event>,
                              r: Result<Outcome>, k: nat)
    requires WaitRun(before, world, a, after, log, r) && k < |before|
    ensures k < |log| && !log[k].Polled? && !log[k].Called? && log[k].rule == before[k]
    ensures var s := StateIn(LastWorld(world, log[..k]), before[k].fd);
      log[k].Cancelled? <==> s.closed || (before[k].direction == In && s.eof)
  {
    FirstPassComesFirst(before, world, a, after, log, r);
    LeavesExactly(before, world, a.interests);
    var s := SetUp(before, world, a.interests);
    assert Judged(before, world, a.interests, s.log, k);
    assert log[..k] == s.log[..k] && log[k] == s.log[k];
  }

  // ---------- Alignment ----------

  /** The descriptor of the rule at `i` was still of use to it when the first pass got there. */
  predicate Alive(rules: seq<Rule>, world: World, answers: seq<Answer>, i: nat)
    requires i < |rules| == |answers|
  {
    var s := StateIn(SetUp(rules[..i], world, answers[..i]).world, rules[i].fd);
    !s.closed && !(rules[i].direction == In && s.eof)
  }

  /** The poll request is the one that belongs to this rule, given what it answered. */
  predicate BuiltFor(p: PollFd, r: Rule, a: Answer) {
    p.fd == r.fd.fd && p.events == if !a.yes then {} else if r.direction == In then {POLLIN} else {POLLOUT}
  }

  /** `kept` are the live rules at the positions `at`, in order, and entry j of `fds` was built for the rule at `at[j]`. */
  predicate Aligned(rules: seq<Rule>, world: World, answers: seq<Answer>, kept: seq<Rule>, fds: seq<PollFd>, at: seq<nat>)
    requires |answers| == |rules|
  {
    && Picks(kept, rules, at) && |fds| == |kept|
    && forall j | 0 <= j < |kept| :: Alive(rules, world, answers, at[j]) && BuiltFor(fds[j], rules[at[j]], answers[at[j]])
  }

  lemma AlivePrefix(rules: seq<Rule>, world: World, answers: seq<Answer>, n: nat, i: nat)
    requires i < n <= |rules| == |answers|
    ensures Alive(rules[..n], world, answers[..n], i) == Alive(rules, world, answers, i)
  {
    assert rules[..n][..i] == rules[..i] && answers[..n][..i] == answers[..i];
  }

  lemma AlignedMore(rules: seq<Rule>, world: World, answers: seq<Answer>, kept: seq<Rule>, fds: seq<PollFd>, n: nat, at: seq<nat>)
    requires n <= |rules| == |answers| && Aligned(rules[..n], world, answers[..n], kept, fds, at)
    ensures Aligned(rules, world, answers, kept, fds, at)
  {
    forall j | 0 <= j < |kept|
      ensures Alive(rules, world, answers, at[j]) && BuiltFor(fds[j], rules[at[j]], answers[at[j]])
    {
      AlivePrefix(rules, world, answers, n, at[j]);
    }
  }

  lemma AlignedSnoc(rules: seq<Rule>, world: World, answers: seq<Answer>, kept: seq<Rule>, fds: seq<PollFd>, at: seq<nat>, p: PollFd)
    requires |answers| == |rules| > 0
    requires var n := |rules| - 1;
      && Aligned(rules, world, answers, kept, fds, at) && (forall j | 0 <= j < |at| :: at[j] < n)
      && Alive(rules, world, answers, n) && BuiltFor(p, rules[n], answers[n])
    ensures Aligned(rules, world, answers, kept + [rules[|rules| - 1]], fds + [p], at + [|rules| - 1])
  {
  }

  lemma {:induction false} RequestsStayAligned(rules: seq<Rule>, world: World, answers: seq<Answer>) returns (at: seq<nat>)
    requires |answers| == |rules|
    ensures var s := SetUp(rules, world, answers); Aligned(rules, world, answers, s.kept, s.fds, at)
    decreases |rules|
  {
    if rules == [] {
      at := [];
    } else {
      var n := |rules| - 1;
      var s := SetUp(rules[..n], world, answers[..n]);
      at := RequestsStayAligned(rules[..n], world, answers[..n]);
      AlignedMore(rules, world, answers, s.kept, s.fds, n, at);
      if !rules[n].GoneIn(s.world) {
        AlignedSnoc(rules, world, answers, s.kept, s.fds, at, s.Then(rules[n], answers[n]).fds[|s.fds|]);
        at := at + [n];
      }
    }
  }

  // ---------- Callback discipline and progress ----------

  /** What the flags of an answered entry mean. */
  predicate IsReady(p: PollFd) { p.revents * p.events != {} }
  predicate IsBroken(p: PollFd) { POLLERR in p.revents || POLLNVAL in p.revents }
  predicate IsHungUp(p: PollFd) { POLLHUP in p.revents && p.events != {} && p.revents * p.events == {} }
  predicate Stays(p: PollFd) { !IsHungUp(p) }

  /** The descriptor was read, for a rule that reads, or written, for a rule that writes, between two worlds. */
  predicate Moved(r: Rule, w: World, w': World) {
    if r.direction == In then StateIn(w, r.fd).readCount != StateIn(w', r.fd).readCount
    else StateIn(w, r.fd).writeCount != StateIn(w', r.fd).writeCount
  }

  /** The entry of the second pass that calls for `r`, at the rule's own index. */
  predicate AskedFor(rules: seq<Rule>, polled: seq<PollFd>, r: Rule, j: nat)
    requires |polled| == |rules|
  {
    j < |rules| && rules[j] == r && IsReady(polled[j]) && !IsBroken(polled[j])
  }

  lemma {:induction false} CallsWereReady(rules: seq<Rule>, polled: seq<PollFd>, world: World, turns: seq<Turn>, r: Rule)
    returns (j: nat)
    requires |polled| == |rules| == |turns|
    requires r in Calls(Serve(rules, polled, world, turns).log)
    ensures AskedFor(rules, polled, r, j)
    decreases |rules|
  {
    var n := |rules| - 1;
    var t := Serve(rules[..n], polled[..n], world, turns[..n]);
    ThenLog(t, rules[n], polled[n], turns[n]);
    if r in Calls(t.log) {
      j := CallsWereReady(rules[..n], polled[..n], world, turns[..n], r);
    } else {
      j := n;
    }
  }

  /** Only a call that reaches the second pass calls a rule. */
  lemma CallsComeLast(before: seq<Rule>, world: World, a: Answers, after: seq<Rule>, log: seq<Event>, r: Result<Outcome>)
    requires WaitRun(before, world, a, after, log, r) && Calls(log) != []
    ensures ReachesSecondPass(before, world, a) && Calls(log) == Calls(SecondPassOf(before, world, a).log)
  {
    SetUpConserves(before, world, a.interests);
    if ReachesSecondPass(before, world, a) {
      SecondStage(before, world, a, after, log, r);
    } else {
      PollLog(SetUp(before, world, a.interests).log, a.polled, a.reply);
    }
  }

  lemma AlignedAnswers(rules: seq<Rule>, world: World, answers: seq<Answer>, kept: seq<Rule>, fds: seq<PollFd>,
                       polled: seq<PollFd>, at: seq<nat>)
    requires |answers| == |rules| && Aligned(rules, world, answers, kept, fds, at) && SameRequests(fds, polled)
    ensures Aligned(rules, world, answers, kept, polled, at)
  {
  }

  lemma ReadyWasWanted(p: PollFd, r: Rule, a: Answer)
    requires BuiltFor(p, r, a) && IsReady(p)
    ensures a.yes && (if r.direction == In then POLLIN else POLLOUT) in p.revents
  {
  }

  /**
   A rule is called only if it was alive and interested in the first pass, and the entry that poll
   answered at the rule's own index, built for its own descriptor and direction, was ready.
   */
  lemma CalledOnlyWhenWanted(before: seq<Rule>, world: World, a: Answers, after: seq<Rule>, log: seq<Event>,
                             r: Result<Outcome>, rule: Rule)
    returns (at: seq<nat>, j: nat)
    requires WaitRun(before, world, a, after, log, r) && rule in Calls(log)
    ensures var s := SetUp(before, world, a.interests);
      && Aligned(before, world, a.interests, s.kept, a.polled, at)
      && j < |s.kept| && s.kept[j] == rule
      && (if rule.direction == In then POLLIN else POLLOUT) in a.polled[j].revents
      && POLLERR !in a.polled[j].revents && POLLNVAL !in a.polled[j].revents && a.interests[at[j]].yes
  {
    CallsComeLast(before, world, a, after, log, r);
    var s, n := SetUp(before, world, a.interests), |a.turns|;
    j := CallsWereReady(s.kept[..n], a.polled[..n], s.world, a.turns, rule);
    at := RequestsStayAligned(before, world, a.interests);
    AlignedAnswers(before, world, a.interests, s.kept, s.fds, a.polled, at);
    ReadyWasWanted(a.polled[j], rule, a.interests[at[j]]);
  }

  /**
   The entry at `j` was not broken, and if it was ready, the callback moved the service count of its
   rule or the rule was not interested any more.
   */
  predicate ServedWell(rules: seq<Rule>, polled: seq<PollFd>, world: World, turns: seq<Turn>, j: nat)
    requires j < |rules| == |polled| == |turns|
  {
    && !IsBroken(polled[j])
    && (IsReady(polled[j]) ==>
          Moved(rules[j], Serve(rules[..j], polled[..j], world, turns[..j]).world, turns[j].world) || !turns[j].answer.yes)
  }

  lemma ServedWellPrefix(rules: seq<Rule>, polled: seq<PollFd>, world: World, turns: seq<Turn>, n: nat, j: nat)
    requires j < n <= |rules| == |polled| == |turns|
    ensures ServedWell(rules[..n], polled[..n], world, turns[..n], j) == ServedWell(rules, polled, world, turns, j)
  {
    assert rules[..n][..j] == rules[..j] && polled[..n][..j] == polled[..j] && turns[..n][..j] == turns[..j];
  }

  /** The rules of a list whose entry satisfies a condition, in order. */
  function Select(rules: seq<Rule>, polled: seq<PollFd>, chosen: PollFd -> bool): seq<Rule>
    requires |polled| == |rules|
  {
    if rules == [] then []
    else
      var n := |rules| - 1;
      Select(rules[..n], polled[..n], chosen) + if chosen(polled[n]) then [rules[n]] else []
  }

  predicate AllServedWell(rules: seq<Rule>, polled: seq<PollFd>, world: World, turns: seq<Turn>)
    requires |rules| == |polled| == |turns|
  {
    forall j | 0 <= j < |rules| :: ServedWell(rules, polled, world, turns, j)
  }

  lemma AllServedWellSnoc(rules: seq<Rule>, polled: seq<PollFd>, world: World, turns: seq<Turn>)
    requires |rules| == |polled| == |turns| > 0
    ensures var n := |rules| - 1;
      AllServedWell(rules, polled, world, turns)
      == (AllServedWell(rules[..n], polled[..n], world, turns[..n]) && ServedWell(rules, polled, world, turns, n))
  {
    var n := |rules| - 1;
    forall j | 0 <= j < n
      ensures ServedWell(rules[..n], polled[..n], world, turns[..n], j) == ServedWell(rules, polled, world, turns, j)
    {
      ServedWellPrefix(rules, polled, world, turns, n, j);
    }
    if AllServedWell(rules[..n], polled[..n], world, turns[..n]) && ServedWell(rules, polled, world, turns, n) {
      forall j | 0 <= j < |rules|
        ensures ServedWell(rules, polled, world, turns, j)
      {
        assert j < n ==> ServedWell(rules[..n], polled[..n], world, turns[..n], j);
      }
    }
    if AllServedWell(rules, polled, world, turns) {
      forall j | 0 <= j < n
        ensures ServedWell(rules[..n], polled[..n], world, turns[..n], j)
      {
        assert ServedWell(rules, polled, world, turns, j);
      }
    }
  }

  lemma {:induction false} GoingMeansServed(rules: seq<Rule>, polled: seq<PollFd>, world: World, turns: seq<Turn>)
    requires |polled| == |rules| == |turns|
    ensures (Serve(rules, polled, world, turns).progress == Going) == AllServedWell(rules, polled, world, turns)
    decreases |rules|
  {
    if rules != [] {
      var n := |rules| - 1;
      GoingMeansServed(rules[..n], polled[..n], world, turns[..n]);
      AllServedWellSnoc(rules, polled, world, turns);
    }
  }

  lemma {:induction false} GoingSelects(rules: seq<Rule>, polled: seq<PollFd>, world: World, turns: seq<Turn>)
    requires |polled| == |rules| == |turns| && Serve(rules, polled, world, turns).progress == Going
    ensures var t := Serve(rules, polled, world, turns);
      && t.kept == Select(rules, polled, Stays)
      && Calls(t.log) == Select(rules, polled, IsReady)
      && Cancels(t.log) == Select(rules, polled, IsHungUp)
    decreases |rules|
  {
    if rules != [] {
      var n := |rules| - 1;
      GoingSelects(rules[..n], polled[..n], world, turns[..n]);
      ThenLog(Serve(rules[..n], polled[..n], world, turns[..n]), rules[n], polled[n], turns[n]);
    }
  }

  lemma ServeFinishes(rules: seq<Rule>, polled: seq<PollFd>, world: World, turns: seq<Turn>)
    requires |polled| == |rules| == |turns|
    requires var n := |turns|; Serve(rules[..n], polled[..n], world, turns).progress == Going
    ensures var n := |turns|; var t := Serve(rules[..n], polled[..n], world, turns);
      && AllServedWell(rules, polled, world, turns)
      && t.kept + rules[n..] == Select(rules, polled, Stays)
      && Calls(t.log) == Select(rules, polled, IsReady) && Cancels(t.log) == Select(rules, polled, IsHungUp)
  {
    var n := |turns|;
    assert rules[..n] == rules && polled[..n] == polled && rules[n..] == [];
    GoingMeansServed(rules, polled, world, turns);
    GoingSelects(rules, polled, world, turns);
  }

  /**
   A call returns Success only after the second pass has seen every rule: the rules left are exactly
   those whose entry was not hung up, the rules called are exactly the ready ones in list order, those cancelled in that pass are exactly the hung-up ones,
   and every call either moved the rule's service count or left the rule uninterested.
   */
  lemma SuccessServesAll(before: seq<Rule>, world: World, a: Answers, after: seq<Rule>, log: seq<Event>)
    requires WaitRun(before, world, a, after, log, Returned(Success))
    ensures var s := SetUp(before, world, a.interests);
      && |a.turns| == |a.polled| == |s.kept|
      && AllServedWell(s.kept, a.polled, s.world, a.turns)
      && after == Select(s.kept, a.polled, Stays)
      && Calls(log) == Select(s.kept, a.polled, IsReady)
      && Cancels(log) == Cancels(s.log) + Select(s.kept, a.polled, IsHungUp)
  {
    var s := SetUp(before, world, a.interests);
    SecondStage(before, world, a, after, log, Returned(Success));
    ServeFinishes(s.kept, a.polled, s.world, a.turns);
  }

  /**
   The event after a callback, read off the log alone: the rule is asked again exactly if the count of
   its direction is what it was before the call, and a positive answer is the last thing that happens.
   */
  predicate CallPaysOff(world: World, log: seq<Event>, k: nat, mayStop: bool)
    requires k < |log|
  {
    log[k].Called? ==>
      var r, asked := log[k].rule, k + 1 < |log| && log[k + 1].Asked?;
      && asked == !Moved(r, LastWorld(world, log[..k]), log[k].world)
      && (asked ==> log[k + 1].rule == r && (log[k + 1].answer ==> mayStop && k + 2 == |log|))
  }

  predicate CallsPayOff(world: World, log: seq<Event>, mayStop: bool) {
    forall k | 0 <= k < |log| :: CallPaysOff(world, log, k, mayStop)
  }

  predicate StartsFresh(log: seq<Event>) { log != [] ==> !log[0].Asked? }

  lemma PayOffConcat(world: World, a: seq<Event>, b: seq<Event>, mayStop: bool)
    requires CallsPayOff(world, a, false) && CallsPayOff(LastWorld(world, a), b, mayStop) && StartsFresh(b)
    ensures CallsPayOff(world, a + b, mayStop)
  {
    forall k | 0 <= k < |a + b|
      ensures CallPaysOff(world, a + b, k, mayStop)
    {
      if k < |a| {
        assert (a + b)[..k] == a[..k] && CallPaysOff(world, a, k, false);
      } else {
        assert (a + b)[..k] == a + b[..k - |a|];
        LastWorldConcat(world, a, b[..k - |a|]);
        assert CallPaysOff(LastWorld(world, a), b, k - |a|, mayStop);
      }
    }
  }

  /** The events that one rule adds to the second pass. */
  lemma ThenPaysOff(t: Serving, r: Rule, p: PollFd, turn: Turn) returns (more: seq<Event>)
    requires t.progress == Going
    ensures var u := t.Then(r, p, turn);
      && u.log == t.log + more && StartsFresh(more) && u.world == LastWorld(t.world, more)
      && CallsPayOff(t.world, more, u.progress != Going)
  {
    var u := t.Then(r, p, turn);
    more := if p.Broken() then []
            else if p.HungUp() then [Cancelled(r, turn.world)]
            else if !p.Ready() then []
            else if t.Serviced(r, turn) then [Called(r, turn.world)]
            else [Called(r, turn.world), Asked(r, turn.answer.yes, turn.answer.world)];
    assert u.log == t.log + more;
    var mayStop := u.progress != Going;
    forall k | 0 <= k < |more|
      ensures CallPaysOff(t.world, more, k, mayStop)
    {
      assert more[..0] == [];
    }
  }

  lemma {:induction false} ServePaysOff(rules: seq<Rule>, polled: seq<PollFd>, world: World, turns: seq<Turn>)
    requires |polled| == |rules| == |turns|
    ensures var t := Serve(rules, polled, world, turns);
      CallsPayOff(world, t.log, t.progress != Going) && StartsFresh(t.log) && t.world == LastWorld(world, t.log)
    decreases |rules|
  {
    if rules != [] {
      var n := |rules| - 1;
      var t := Serve(rules[..n], polled[..n], world, turns[..n]);
      ServePaysOff(rules[..n], polled[..n], world, turns[..n]);
      if t.progress == Going {
        var more := ThenPaysOff(t, rules[n], polled[n], turns[n]);
        PayOffConcat(world, t.log, more, t.Then(rules[n], polled[n], turns[n]).progress != Going);
        LastWorldConcat(world, t.log, more);
      }
    }
  }

  lemma NoCallsPayOff(world: World, log: seq<Event>)
    requires forall k | 0 <= k < |log| :: !log[k].Called?
    ensures CallsPayOff(world, log, false)
  {
  }

  /** Every call, exceptions included: each callback is followed by the question that its service count calls for, or by none. */
  lemma AskedAgainExactly(before: seq<Rule>, world: World, a: Answers, after: seq<Rule>, log: seq<Event>, r: Result<Outcome>)
    requires WaitRun(before, world, a, after, log, r)
    ensures CallsPayOff(world, log, r.Threw?)
  {
    var s := SetUp(before, world, a.interests);
    var polled := s.log + [Polled(a.polled, a.reply)];
    LeavesExactly(before, world, a.interests);
    forall k | 0 <= k < |s.log|
      ensures !s.log[k].Called?
    {
      assert Judged(before, world, a.interests, s.log, k);
    }
    NoCallsPayOff(world, s.log);
    NoCallsPayOff(world, polled);
    if ReachesSecondPass(before, world, a) {
      LastWorldSnoc(world, s.log, Polled(a.polled, a.reply));
      var n := |a.turns|;
      ServePaysOff(s.kept[..n], a.polled[..n], s.world, a.turns);
      PayOffConcat(world, polled, SecondPassOf(before, world, a).log, r.Threw?);
    }
  }

  /** On Success every callback in the log moved its rule's service count or ended its interest. */
  lemma SuccessMeansProgress(before: seq<Rule>, world: World, a: Answers, after: seq<Rule>, log: seq<Event>, k: nat)
    requires WaitRun(before, world, a, after, log, Returned(Success))
    requires k < |log| && log[k].Called?
    ensures var r, w := log[k].rule, LastWorld(world, log[..k]);
      || (r.direction == In && StateIn(log[k].world, r.fd).readCount != StateIn(w, r.fd).readCount)
      || (r.direction == Out && StateIn(log[k].world, r.fd).writeCount != StateIn(w, r.fd).writeCount)
      || (k + 1 < |log| && log[k + 1].Asked? && log[k + 1].rule == r && !log[k + 1].answer)
  {
    AskedAgainExactly(before, world, a, after, log, Returned(Success));
    assert CallPaysOff(world, log, k, false);
  }

  // ---------- When a call throws, and when it exits ----------

  /** A call throws if and only if some entry it got to was broken, or was called in vain and is still wanted. */
  lemma ThrowsExactly(before: seq<Rule>, world: World, a: Answers, after: seq<Rule>, log: seq<Event>, r: Result<Outcome>)
    requires WaitRun(before, world, a, after, log, r)
    ensures var s, n := SetUp(before, world, a.interests), |a.turns|;
      r.Threw? == (ReachesSecondPass(before, world, a) && !AllServedWell(s.kept[..n], a.polled[..n], s.world, a.turns))
    ensures r.Threw? ==> r.error == RuntimeError
  {
    var s, n := SetUp(before, world, a.interests), |a.turns|;
    if ReachesSecondPass(before, world, a) {
      GoingMeansServed(s.kept[..n], a.polled[..n], s.world, a.turns);
    }
  }

  /** Where a pass that does not get through stops: nothing happens after the first entry that goes wrong. */
  lemma {:induction false} StopsAtFirst(rules: seq<Rule>, polled: seq<PollFd>, world: World, turns: seq<Turn>) returns (m: nat)
    requires |polled| == |rules| == |turns| && Serve(rules, polled, world, turns).progress != Going
    ensures m < |rules|
    ensures var t, u := Serve(rules[..m], polled[..m], world, turns[..m]), Serve(rules, polled, world, turns);
      && t.progress == Going && t.Then(rules[m], polled[m], turns[m]).progress != Going
      && u.log == t.Then(rules[m], polled[m], turns[m]).log && u.kept == t.kept + rules[m..]
    decreases |rules|
  {
    var n := |rules| - 1;
    m := n;
    if Serve(rules[..n], polled[..n], world, turns[..n]).progress != Going {
      m := StopsAtFirst(rules[..n], polled[..n], world, turns[..n]);
      TakenTwice(rules, n, m);
      TakenTwice(polled, n, m);
      TakenTwice(turns, n, m);
      assert rules[n..] == [rules[n]];
      PlusAssociates(Serve(rules[..m], polled[..m], world, turns[..m]).kept, rules[..n][m..], rules[n..]);
    }
  }

  lemma TroubleIsNotServed(t: Serving, r: Rule, p: PollFd, turn: Turn)
    requires t.progress == Going
    ensures var u := t.Then(r, p, turn);
      u.progress != Going <==> IsBroken(p) || (IsReady(p) && !Moved(r, t.world, turn.world) && turn.answer.yes)
    ensures var u := t.Then(r, p, turn);
      u.progress != Going ==>
      && Cancels(u.log) == Cancels(t.log)
      && Calls(u.log) == Calls(t.log) + if IsBroken(p) then [] else [r]
  {
    ThenLog(t, r, p, turn);
  }

  /** Entry m went wrong: it is broken, or its rule was called, its count stood still, and it is still interested. */
  predicate WentWrong(rules: seq<Rule>, polled: seq<PollFd>, world: World, turns: seq<Turn>, m: nat)
    requires m < |rules| && m < |polled| && m < |turns|
  {
    || IsBroken(polled[m])
    || (IsReady(polled[m]) && turns[m].answer.yes
        && !Moved(rules[m], Serve(rules[..m], polled[..m], world, turns[..m]).world, turns[m].world))
  }

  lemma ServeStops(rules: seq<Rule>, polled: seq<PollFd>, world: World, turns: seq<Turn>) returns (m: nat)
    requires |turns| <= |rules| == |polled|
    requires var n := |turns|; Serve(rules[..n], polled[..n], world, turns).progress != Going
    ensures m < |turns| && WentWrong(rules, polled, world, turns, m)
    ensures AllServedWell(rules[..m], polled[..m], world, turns[..m])
    ensures var n := |turns|; var t := Serve(rules[..n], polled[..n], world, turns);
      && t.kept + rules[n..] == Select(rules[..m], polled[..m], Stays) + rules[m..]
      && Cancels(t.log) == Select(rules[..m], polled[..m], IsHungUp)
      && Calls(t.log) == Select(rules[..m], polled[..m], IsReady) + if IsBroken(polled[m]) then [] else [rules[m]]
  {
    var n := |turns|;
    m := StopsAtFirst(rules[..n], polled[..n], world, turns);
    TakenTwice(rules, n, m);
    TakenTwice(polled, n, m);
    var t := Serve(rules[..m], polled[..m], world, turns[..m]);
    PlusAssociates(t.kept, rules[..n][m..], rules[n..]);
    TroubleIsNotServed(t, rules[m], polled[m], turns[m]);
    GoingMeansServed(rules[..m], polled[..m], world, turns[..m]);
    GoingSelects(rules[..m], polled[..m], world, turns[..m]);
  }

  /**
   A call that throws has served the entries before the one that went wrong as a successful call does,
   has called the rule of that entry unless the entry is broken, and has left it and all later rules alone.
   */
  lemma ThrowStopsThere(before: seq<Rule>, world: World, a: Answers, after: seq<Rule>, log: seq<Event>, r: Result<Outcome>)
    returns (m: nat)
    requires WaitRun(before, world, a, after, log, r) && r.Threw?
    ensures var s := SetUp(before, world, a.interests);
      && m < |a.turns| <= |s.kept| == |a.polled|
      && WentWrong(s.kept, a.polled, s.world, a.turns, m)
      && AllServedWell(s.kept[..m], a.polled[..m], s.world, a.turns[..m])
      && after == Select(s.kept[..m], a.polled[..m], Stays) + s.kept[m..]
      && Cancels(log) == Cancels(s.log) + Select(s.kept[..m], a.polled[..m], IsHungUp)
      && Calls(log) == Select(s.kept[..m], a.polled[..m], IsReady) + if IsBroken(a.polled[m]) then [] else [s.kept[m]]
  {
    var s := SetUp(before, world, a.interests);
    SecondStage(before, world, a, after, log, r);
    m := ServeStops(s.kept, a.polled, s.world, a.turns);
  }

  /** The rule at `i` was alive when the first pass reached it, and was interested. */
  predicate WantedAt(rules: seq<Rule>, world: World, answers: seq<Answer>, i: nat)
    requires |answers| == |rules|
  {
    i < |rules| && Alive(rules, world, answers, i) && answers[i].yes
  }

  ghost predicate Wanted(rules: seq<Rule>, world: World, answers: seq<Answer>)
    requires |answers| == |rules|
  {
    exists i: nat :: WantedAt(rules, world, answers, i)
  }

  lemma WantedAtPrefix(rules: seq<Rule>, world: World, answers: seq<Answer>, n: nat, i: nat)
    requires i < n <= |rules| == |answers|
    ensures WantedAt(rules[..n], world, answers[..n], i) == WantedAt(rules, world, answers, i)
  {
    AlivePrefix(rules, world, answers, n, i);
  }

  lemma WantedSnoc(rules: seq<Rule>, world: World, answers: seq<Answer>)
    requires |answers| == |rules| > 0
    ensures var n := |rules| - 1;
      Wanted(rules, world, answers) == (Wanted(rules[..n], world, answers[..n]) || WantedAt(rules, world, answers, n))
  {
    var n := |rules| - 1;
    if Wanted(rules[..n], world, answers[..n]) {
      var i: nat :| WantedAt(rules[..n], world, answers[..n], i);
      WantedAtPrefix(rules, world, answers, n, i);
    }
    if Wanted(rules, world, answers) {
      var i: nat :| WantedAt(rules, world, answers, i);
      if i < n {
        WantedAtPrefix(rules, world, answers, n, i);
      }
    }
  }

  lemma {:induction false} WantedExactly(rules: seq<Rule>, world: World, answers: seq<Answer>)
    requires |answers| == |rules|
    ensures SetUp(rules, world, answers).wanted == Wanted(rules, world, answers)
    decreases |rules|
  {
    if rules != [] {
      var n := |rules| - 1;
      WantedExactly(rules[..n], world, answers[..n]);
      WantedSnoc(rules, world, answers);
    }
  }

  /** A call returns Exit if and only if no live rule is interested, however many are left, or a signal arrived. */
  lemma ExitsExactly(before: seq<Rule>, world: World, a: Answers, after: seq<Rule>, log: seq<Event>, r: Result<Outcome>)
    requires WaitRun(before, world, a, after, log, r)
    ensures r == Returned(Exit)
       <==> !Wanted(before, world, a.interests) || (NarrowToInt(a.reply.ret) < 0 && a.reply.errno == 4)
  {
    WantedExactly(before, world, a.interests);
  }

  /** A call returns Timeout if and only if it polled for some rule and poll answered 0. */
  lemma TimesOutExactly(before: seq<Rule>, world: World, a: Answers, after: seq<Rule>, log: seq<Event>, r: Result<Outcome>)
    requires WaitRun(before, world, a, after, log, r)
    ensures r == Returned(Timeout) <==> Wanted(before, world, a.interests) && NarrowToInt(a.reply.ret) == 0
  {
    WantedExactly(before, world, a.interests);
  }

  /** A call that exits or times out leaves what the first pass left, and has called nobody and cancelled nobody since. */
  lemma EarlyReturnKeeps(before: seq<Rule>, world: World, a: Answers, after: seq<Rule>, log: seq<Event>, r: Result<Outcome>)
    requires WaitRun(before, world, a, after, log, r) && (r == Returned(Exit) || r == Returned(Timeout))
    ensures var s := SetUp(before, world, a.interests);
      after == s.kept && Calls(log) == [] && Cancels(log) == Cancels(s.log)
  {
    var s := SetUp(before, world, a.interests);
    SetUpConserves(before, world, a.interests);
    PollLog(s.log, a.polled, a.reply);
  }

  // ---------- An emptied list ----------

  lemma {:induction false} WantedKeepsSome(rules: seq<Rule>, world: World, answers: seq<Answer>)
    requires |answers| == |rules| && SetUp(rules, world, answers).wanted
    ensures SetUp(rules, world, answers).kept != []
    decreases |rules|
  {
    var n := |rules| - 1;
    if SetUp(rules[..n], world, answers[..n]).wanted {
      WantedKeepsSome(rules[..n], world, answers[..n]);
    }
  }

  lemma {:induction false} StoppingKeepsSome(rules: seq<Rule>, polled: seq<PollFd>, world: World, turns: seq<Turn>)
    requires |polled| == |rules| == |turns| && Serve(rules, polled, world, turns).progress != Going
    ensures Serve(rules, polled, world, turns).kept != []
    decreases |rules|
  {
    var n := |rules| - 1;
    if Serve(rules[..n], polled[..n], world, turns[..n]).progress != Going {
      StoppingKeepsSome(rules[..n], polled[..n], world, turns[..n]);
    }
  }

  /**
   A call that leaves no rule returns Exit if and only if the first pass left none; if hangups emptied
   the list after poll, it returns Success.
   */
  lemma EmptyExitsExactly(before: seq<Rule>, world: World, a: Answers, after: seq<Rule>, log: seq<Event>, r: Result<Outcome>)
    requires WaitRun(before, world, a, after, log, r) && after == []
    ensures r == Returned(Exit) <==> SetUp(before, world, a.interests).kept == []
    ensures r == Returned(Exit) || r == Returned(Success)
  {
    var s, n := SetUp(before, world, a.interests), |a.turns|;
    if s.wanted {
      WantedKeepsSome(before, world, a.interests);
      if Serve(s.kept[..n], a.polled[..n], s.world, a.turns).progress != Going {
        StoppingKeepsSome(s.kept[..n], a.polled[..n], s.world, a.turns);
      }
    }
  }

  /** A concrete call: one live rule that is interested, its descriptor hangs up, and Success returned with no rule left. */
  lemma EmptyWithoutExit(rule: Rule, world: World)
    requires !rule.GoneIn(world)
    ensures
      var reply, answered := Reply(1, 0), PollFd(rule.fd.fd, rule.direction.Events(), {POLLHUP});
      var a := Answers([Answer(true, world)], [answered], reply, [Turn(world, Answer(false, world))]);
      WaitRun([rule], world, a, [],
              [Asked(rule, true, world), Polled([answered], reply), Cancelled(rule, world)], Returned(Success))
  {
    var answer, turn := Answer(true, world), Turn(world, Answer(false, world));
    var answered := PollFd(rule.fd.fd, rule.direction.Events(), {POLLHUP});
    SetUpSnoc([], rule, world, [], answer);
    ServeSnoc([], rule, [], answered, world, [], turn);
    assert [] + [rule] == [rule] && [] + [answer] == [answer] && [] + [answered] == [answered] && [] + [turn] == [turn];
    assert answered.HungUp() && !answered.Broken();
    assert [rule][..1] == [rule] && [answered][..1] == [answered] && [rule][1..] == [];
  }

  // ---------- A failed poll ----------

  predicate Quiet(p: PollFd) { !p.Broken() && !p.HungUp() && !p.Ready() }

  lemma NoReventsIsQuiet(p: PollFd)
    requires p.revents == {}
    ensures Quiet(p)
  {
  }

  lemma QuietThen(t: Serving, r: Rule, p: PollFd, turn: Turn)
    requires t.progress == Going && Quiet(p)
    ensures t.Then(r, p, turn) == t.(kept := t.kept + [r])
  {
  }

  lemma {:induction false} QuietPass(rules: seq<Rule>, polled: seq<PollFd>, world: World, turns: seq<Turn>)
    requires |polled| == |rules| == |turns|
    requires forall j | 0 <= j < |polled| :: Quiet(polled[j])
    ensures Serve(rules, polled, world, turns) == Serving(rules, Going, world, [])
    decreases |rules|
  {
    if rules != [] {
      var n := |rules| - 1;
      InitAndLast(rules);
      QuietPass(rules[..n], polled[..n], world, turns[..n]);
      QuietThen(Serving(rules[..n], Going, world, []), rules[n], polled[n], turns[n]);
    }
  }

  /**
   When poll fails with anything but an interruption and leaves the revents as they were set up,
   the exception is swallowed: the call returns Success and has called nobody.
   */
  lemma PollFailureIsSwallowed(before: seq<Rule>, world: World, a: Answers, after: seq<Rule>, log: seq<Event>, r: Result<Outcome>)
    requires WaitRun(before, world, a, after, log, r) && SetUp(before, world, a.interests).wanted
    requires NarrowToInt(a.reply.ret) < 0 && a.reply.errno != 4
    requires forall j | 0 <= j < |a.polled| :: a.polled[j].revents == {}
    ensures r == Returned(Success) && after == SetUp(before, world, a.interests).kept && Calls(log) == []
  {
    var s := SetUp(before, world, a.interests);
    var n := |a.turns|;
    assert s.kept == s.kept[..n] + s.kept[n..];
    forall j | 0 <= j < |a.polled|
      ensures Quiet(a.polled[j])
    {
      NoReventsIsQuiet(a.polled[j]);
    }
    QuietPass(s.kept[..n], a.polled[..n], s.world, a.turns);
    SecondStage(before, world, a, after, log, r);
  }

  const ENOMEM: int := 12

  /** A concrete call: one live rule that is interested, poll failing for want of memory, and Success returned. */
  lemma PollFailureReturnsSuccess(rule: Rule, world: World)
    requires !rule.GoneIn(world)
    ensures
      var request := PollFd(rule.fd.fd, rule.direction.Events(), {});
      var a := Answers([Answer(true, world)], [request], Reply(-1, ENOMEM), [Turn(world, Answer(false, world))]);
      WaitRun([rule], world, a, [rule], [Asked(rule, true, world), Polled([request], Reply(-1, ENOMEM))], Returned(Success))
  {
    var answer, turn := Answer(true, world), Turn(world, Answer(false, world));
    var request := PollFd(rule.fd.fd, rule.direction.Events(), {});
    SetUpSnoc([], rule, world, [], answer);
    ServeSnoc([], rule, [], request, world, [], turn);
    assert [] + [rule] == [rule] && [] + [answer] == [answer] && [] + [request] == [request] && [] + [turn] == [turn];
    NoReventsIsQuiet(request);
    assert [rule][..1] == [rule] && [request][..1] == [request] && [rule][1..] == [];
  }
}
