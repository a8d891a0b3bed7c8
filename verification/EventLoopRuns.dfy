/** Whole runs of the event loop: rules are added and events waited for, in any order and any number of times. */
module EventLoopRuns {
  import opened MachineTypes
  import opened FileDescriptors
  import opened EventLoops
  import opened EventLoopLaws

  // ---------- Nothing happens to a rule once it has been cancelled ----------

  predicate Concerns(e: Event, r: Rule) { !e.Polled? && e.rule == r }

  /** Only these rules are asked, called or cancelled. */
  predicate Within(log: seq<Event>, rules: seq<Rule>) {
    forall i | 0 <= i < |log| && !log[i].Polled? :: log[i].rule in rules
  }

  /** No event after a cancellation concerns the same rule. */
  predicate Final(log: seq<Event>) {
    forall i, j | 0 <= i < j < |log| && log[i].Cancelled? :: !Concerns(log[j], log[i].rule)
  }

  /** None of these rules is cancelled. */
  predicate Spares(log: seq<Event>, rules: seq<Rule>) {
    forall i | 0 <= i < |log| && log[i].Cancelled? :: log[i].rule !in rules
  }

  predicate Part(kept: seq<Rule>, before: seq<Rule>) { forall r | r in kept :: r in before }

  predicate Settled(before: seq<Rule>, kept: seq<Rule>, log: seq<Event>) {
    Within(log, before) && Final(log) && Spares(log, kept) && Part(kept, before)
  }

  /** What is done to the rules kept by one stage follows what that stage did. */
  lemma SettledTwice(before: seq<Rule>, kept: seq<Rule>, log: seq<Event>, after: seq<Rule>, log': seq<Event>)
    requires Settled(before, kept, log) && Settled(kept, after, log')
    ensures Settled(before, after, log + log')
  {
    forall i, j | 0 <= i < j < |log + log'| && (log + log')[i].Cancelled?
      ensures !Concerns((log + log')[j], (log + log')[i].rule)
    {
    }
  }

  /** The events of one more rule, which is kept or cancelled. */
  predicate OneRule(r: Rule, keep: bool, more: seq<Event>) {
    && (forall i | 0 <= i < |more| :: Concerns(more[i], r))
    && if keep then forall i | 0 <= i < |more| :: !more[i].Cancelled? else |more| == 1
  }

  lemma SettledSnoc(rules: seq<Rule>, kept: seq<Rule>, log: seq<Event>, r: Rule, keep: bool, more: seq<Event>)
    requires Settled(rules, kept, log) && r !in rules && OneRule(r, keep, more)
    ensures Settled(rules + [r], if keep then kept + [r] else kept, log + more)
  {
    forall i, j | 0 <= i < j < |log + more| && (log + more)[i].Cancelled?
      ensures !Concerns((log + more)[j], (log + more)[i].rule)
    {
    }
  }

  lemma SettledRest(rules: seq<Rule>, kept: seq<Rule>, log: seq<Event>, rest: seq<Rule>)
    requires Settled(rules, kept, log) && forall r | r in rest :: r !in rules
    ensures Settled(rules + rest, kept + rest, log)
  {
  }

  lemma DistinctSplit(rules: seq<Rule>, n: nat)
    requires Distinct(rules) && n <= |rules|
    ensures Distinct(rules[..n]) && forall r | r in rules[n..] :: r !in rules[..n]
  {
  }

  lemma {:induction false} SetUpSettles(rules: seq<Rule>, world: World, answers: seq<Answer>)
    requires |answers| == |rules| && Distinct(rules)
    ensures var s := SetUp(rules, world, answers); Settled(rules, s.kept, s.log)
    decreases |rules|
  {
    if rules != [] {
      var n := |rules| - 1;
      var s, r, a := SetUp(rules[..n], world, answers[..n]), rules[n], answers[n];
      DistinctSplit(rules, n);
      InitAndLast(rules);
      SetUpSettles(rules[..n], world, answers[..n]);
      var gone := r.GoneIn(s.world);
      var e := if gone then Cancelled(r, a.world) else Asked(r, a.yes, a.world);
      SettledSnoc(rules[..n], s.kept, s.log, r, !gone, [e]);
    }
  }

  lemma ThenOneRule(t: Serving, r: Rule, p: PollFd, turn: Turn) returns (keep: bool, more: seq<Event>)
    ensures var u := t.Then(r, p, turn); u.log == t.log + more && u.kept == if keep then t.kept + [r] else t.kept
    ensures OneRule(r, keep, more)
  {
    keep := !(t.progress == Going && !p.Broken() && p.HungUp());
    more := t.Then(r, p, turn).log[|t.log|..];
  }

  lemma {:induction false} ServeSettles(rules: seq<Rule>, polled: seq<PollFd>, world: World, turns: seq<Turn>)
    requires |polled| == |rules| == |turns| && Distinct(rules)
    ensures var t := Serve(rules, polled, world, turns); Settled(rules, t.kept, t.log)
    decreases |rules|
  {
    if rules != [] {
      var n := |rules| - 1;
      var t := Serve(rules[..n], polled[..n], world, turns[..n]);
      DistinctSplit(rules, n);
      InitAndLast(rules);
      ServeSettles(rules[..n], polled[..n], world, turns[..n]);
      var keep, more := ThenOneRule(t, rules[n], polled[n], turns[n]);
      SettledSnoc(rules[..n], t.kept, t.log, rules[n], keep, more);
    }
  }

  lemma DistinctPart(kept: seq<Rule>, before: seq<Rule>)
    requires Subsequence(kept, before) && Distinct(before)
    ensures Distinct(kept)
  {
    var at: seq<nat> :| Picks(kept, before, at);
  }

  lemma ServePrefixSettles(rules: seq<Rule>, polled: seq<PollFd>, world: World, turns: seq<Turn>)
    requires |turns| <= |rules| == |polled| && Distinct(rules)
    ensures var n := |turns|; var t := Serve(rules[..n], polled[..n], world, turns);
      Settled(rules, t.kept + rules[n..], t.log)
  {
    var n := |turns|;
    DistinctSplit(rules, n);
    ServeSettles(rules[..n], polled[..n], world, turns);
    var t := Serve(rules[..n], polled[..n], world, turns);
    SettledRest(rules[..n], t.kept, t.log, rules[n..]);
    assert rules == rules[..n] + rules[n..];
  }

  /** One call: no rule is asked, called or cancelled after it has been cancelled, and none that is kept is cancelled. */
  lemma WaitSettles(before: seq<Rule>, world: World, a: Answers, after: seq<Rule>, log: seq<Event>, r: Result<Outcome>)
    requires WaitRun(before, world, a, after, log, r) && Distinct(before)
    ensures Settled(before, after, log)
  {
    var s := SetUp(before, world, a.interests);
    SetUpSettles(before, world, a.interests);
    if s.wanted {
      var poll := [Polled(a.polled, a.reply)];
      SettledTwice(before, s.kept, s.log, s.kept, poll);
      if AfterPoll(a.reply) == GoOn {
        SetUpConserves(before, world, a.interests);
        DistinctPart(s.kept, before);
        ServePrefixSettles(s.kept, a.polled, s.world, a.turns);
        SettledTwice(before, s.kept, s.log + poll, after, SecondPassOf(before, world, a).log);
      }
    }
  }

  // ---------- Runs ----------

  /** A call of the loop's interface, and all that it did. */
  datatype Call =
    | Add(rule: Rule)
    | Wait(world: World, answers: Answers, after: seq<Rule>, log: seq<Event>, result: Result<Outcome>)

  /** The rules that a run adds, what it does, and the rules that it leaves. */
  function Added(calls: seq<Call>): seq<Rule> {
    if calls == [] then []
    else
      var c := calls[|calls| - 1];
      Added(calls[..|calls| - 1]) + if c.Add? then [c.rule] else []
  }

  function RunLog(calls: seq<Call>): seq<Event> {
    if calls == [] then []
    else
      var c := calls[|calls| - 1];
      RunLog(calls[..|calls| - 1]) + if c.Wait? then c.log else []
  }

  function RulesAfter(before: seq<Rule>, calls: seq<Call>): seq<Rule> {
    if calls == [] then before
    else
      var c := calls[|calls| - 1];
      if c.Add? then RulesAfter(before, calls[..|calls| - 1]) + [c.rule] else c.after
  }

  /** Each wait starts from the rules that the calls before it left, whatever the descriptors have done since. */
  predicate LoopRun(before: seq<Rule>, calls: seq<Call>) {
    calls == [] ||
    var n := |calls| - 1;
    var c := calls[n];
    && LoopRun(before, calls[..n])
    && (c.Wait? ==> WaitRun(RulesAfter(before, calls[..n]), c.world, c.answers, c.after, c.log, c.result))
  }

  lemma RunSnoc(before: seq<Rule>, calls: seq<Call>, c: Call)
    requires LoopRun(before, calls)
    requires c.Wait? ==> WaitRun(RulesAfter(before, calls), c.world, c.answers, c.after, c.log, c.result)
    ensures LoopRun(before, calls + [c])
    ensures RulesAfter(before, calls + [c]) == if c.Add? then RulesAfter(before, calls) + [c.rule] else c.after
    ensures Added(calls + [c]) == Added(calls) + if c.Add? then [c.rule] else []
    ensures RunLog(calls + [c]) == RunLog(calls) + if c.Wait? then c.log else []
  {
    assert (calls + [c])[..|calls|] == calls;
  }

  lemma AddKeepsAll(all: seq<Rule>, rules: seq<Rule>, log: seq<Event>, r: Rule)
    requires Conserved(all, rules, log) && Settled(all, rules, log) && Distinct(all + [r])
    ensures Conserved(all + [r], rules + [r], log) && Settled(all + [r], rules + [r], log)
  {
    ConservedRest(all, rules, log, [r]);
    DistinctSplit(all + [r], |all|);
    assert (all + [r])[..|all|] == all && (all + [r])[|all|..] == [r];
    SettledRest(all, rules, log, [r]);
  }

  lemma WaitKeepsAll(all: seq<Rule>, rules: seq<Rule>, log: seq<Event>, c: Call)
    requires Conserved(all, rules, log) && Settled(all, rules, log) && Distinct(rules)
    requires c.Wait? && WaitRun(rules, c.world, c.answers, c.after, c.log, c.result)
    ensures Conserved(all, c.after, log + c.log) && Settled(all, c.after, log + c.log)
  {
    RulesAreConserved(rules, c.world, c.answers, c.after, c.log, c.result);
    LogConcat(log, c.log);
    ConservedTwice(all, rules, log, c.after, c.log, log + c.log);
    WaitSettles(rules, c.world, c.answers, c.after, c.log, c.result);
    SettledTwice(all, rules, log, c.after, c.log);
  }

  /**
   Over any run, exceptions included, all the rules there ever were are either left, in the order in
   which they came, or cancelled; and after its cancellation nothing is done to a rule any more.
   */
  lemma {:induction false} RunKeepsAll(before: seq<Rule>, calls: seq<Call>)
    requires LoopRun(before, calls) && Distinct(before + Added(calls))
    ensures var all, rules, log := before + Added(calls), RulesAfter(before, calls), RunLog(calls);
      Conserved(all, rules, log) && Settled(all, rules, log) && Distinct(rules)
    decreases |calls|
  {
    var all := before + Added(calls);
    if calls == [] {
      assert all == before;
      SubsequenceSelf(before);
    } else {
      var n := |calls| - 1;
      var c, all' := calls[n], before + Added(calls[..n]);
      var rules, log := RulesAfter(before, calls[..n]), RunLog(calls[..n]);
      if c.Add? {
        assert all == all' + [c.rule];
        DistinctSplit(all, |all'|);
        assert all[..|all'|] == all';
        RunKeepsAll(before, calls[..n]);
        AddKeepsAll(all', rules, log, c.rule);
        assert log + [] == log;
      } else {
        assert Added(calls[..n]) + [] == Added(calls[..n]);
        RunKeepsAll(before, calls[..n]);
        WaitKeepsAll(all', rules, log, c);
      }
    }
    DistinctPart(RulesAfter(before, calls), all);
  }

  lemma SubsequenceSelf(s: seq<Rule>)
    ensures Subsequence(s, s)
  {
    SubsequenceEmpty([]);
    SubsequenceRest([], [], s);
    assert [] + s == s;
  }

  /** Each rule that was ever in the list is still there, or was cancelled exactly once over the whole run. */
  lemma CancelledOnceInRun(before: seq<Rule>, calls: seq<Call>, rule: Rule)
    requires LoopRun(before, calls) && Distinct(before + Added(calls)) && rule in before + Added(calls)
    ensures multiset(Cancels(RunLog(calls)))[rule] == if rule in RulesAfter(before, calls) then 0 else 1
  {
    var all: seq<Rule>, rules: seq<Rule> := before + Added(calls), RulesAfter(before, calls);
    RunKeepsAll(before, calls);
    DistinctCount(all, rule);
    DistinctCount(rules, rule);
    assert multiset(all)[rule] == multiset(rules)[rule] + multiset(Cancels(RunLog(calls)))[rule];
  }

  /** From its cancellation on, no event of the run concerns a rule. */
  lemma CancelledForGood(before: seq<Rule>, calls: seq<Call>, i: nat, j: nat)
    requires LoopRun(before, calls) && Distinct(before + Added(calls))
    requires i < j < |RunLog(calls)| && RunLog(calls)[i].Cancelled?
    ensures RunLog(calls)[i].rule !in RulesAfter(before, calls)
    ensures !Concerns(RunLog(calls)[j], RunLog(calls)[i].rule)
  {
    RunKeepsAll(before, calls);
  }

  // ---------- A program that uses the loop ----------

  lemma AddedDistinct(before: seq<Rule>, calls: seq<Call>, c: Call)
    requires Distinct(before + Added(calls)) && (c.Add? ==> c.rule !in before + Added(calls))
    ensures Distinct(before + Added(calls + [c]))
  {
    assert (calls + [c])[..|calls|] == calls;
    var all := before + Added(calls);
    assert before + Added(calls + [c]) == all + if c.Add? then [c.rule] else [];
  }

  datatype Request = AddRule(fd: FDWrapper, direction: Direction) | WaitNextEvent

  /** The call does what was requested. */
  predicate Serves(q: Request, c: Call) {
    match q
    case AddRule(fd, direction) => c.Add? && c.rule.fd == fd && c.rule.direction == direction
    case WaitNextEvent => c.Wait?
  }

  predicate ServesAll(requests: seq<Request>, calls: seq<Call>) {
    |calls| == |requests| && forall i | 0 <= i < |requests| :: Serves(requests[i], calls[i])
  }

  function NewFds(requests: seq<Request>): set<FDWrapper> { set q | q in requests && q.AddRule? :: q.fd }

  /** One call takes the list from `rules` to `after` and does `log`. */
  predicate OneCall(rules: seq<Rule>, c: Call, after: seq<Rule>, log: seq<Event>) {
    match c
    case Add(rule) => after == rules + [rule] && log == []
    case Wait(world, answers, after', log', result) =>
      WaitRun(rules, world, answers, after', log', result) && after == after' && log == log'
  }

  method ServeRequest(loop: EventLoop, env: Environment, q: Request, ghost fds: set<FDWrapper>)
    returns (ghost c: Call, ghost log: seq<Event>)
    requires Distinct(loop.rules) && loop.Watches(fds) && (q.AddRule? ==> q.fd in fds)
    modifies loop, env, fds
    ensures Serves(q, c) && Distinct(loop.rules) && loop.Watches(fds)
    ensures OneCall(old(loop.rules), c, loop.rules, log) && env.log == old(env.log) + log
    ensures c.Add? ==> fresh(c.rule)
  {
    ghost var before, world := loop.rules, Now(loop.Fds());
    log := [];
    if q.AddRule? {
      loop.AddRule(q.fd, q.direction);
      c := Add(loop.rules[|before|]);
    } else {
      var r; ghost var a;
      r, a, log := loop.WaitNextEvent(env);
      c := Wait(world, a, loop.rules, log, r);
      WaitSettles(before, world, a, loop.rules, log, r);
      RulesAreConserved(before, world, a, loop.rules, log, r);
      DistinctPart(loop.rules, before);
    }
  }

  /** The run has got this far: the rules there ever were, those that are left, and what was done. */
  predicate Stands(before: seq<Rule>, calls: seq<Call>, all: seq<Rule>, rules: seq<Rule>, log: seq<Event>) {
    LoopRun(before, calls) && all == before + Added(calls) && Distinct(all) && rules == RulesAfter(before, calls) && log == RunLog(calls)
  }

  lemma OneCallMore(before: seq<Rule>, calls: seq<Call>, all: seq<Rule>, rules: seq<Rule>, done: seq<Event>, c: Call,
                    after: seq<Rule>, log: seq<Event>)
    requires Stands(before, calls, all, rules, done) && (c.Add? ==> c.rule !in all) && OneCall(rules, c, after, log)
    ensures Stands(before, calls + [c], before + Added(calls + [c]), after, done + log)
  {
    RunSnoc(before, calls, c);
    AddedDistinct(before, calls, c);
    assert c.Add? ==> done + log == done;
  }

  /** One request more, after `done`. */
  method Continue(loop: EventLoop, env: Environment, q: Request, ghost fds: set<FDWrapper>, ghost before: seq<Rule>,
                  ghost calls: seq<Call>, ghost all: seq<Rule>, ghost first: seq<Event>, ghost done: seq<Event>)
    returns (ghost c: Call, ghost all': seq<Rule>, ghost done': seq<Event>)
    requires Stands(before, calls, all, loop.rules, done) && env.log == first + done
    requires Distinct(loop.rules) && loop.Watches(fds) && (q.AddRule? ==> q.fd in fds)
    modifies loop, env, fds
    ensures Stands(before, calls + [c], all', loop.rules, done') && env.log == first + done'
    ensures Distinct(loop.rules) && loop.Watches(fds) && Serves(q, c)
  {
    ghost var rules, log := loop.rules, [];
    c, log := ServeRequest(loop, env, q, fds);
    OneCallMore(before, calls, all, rules, done, c, loop.rules, log);
    PlusAssociates(first, done, log);
    all', done' := before + Added(calls + [c]), done + log;
  }

  /** Every sequence of requests to a loop is a run, and never adds the same rule twice. */
  method RunAll(loop: EventLoop, env: Environment, requests: seq<Request>) returns (ghost calls: seq<Call>)
    requires Distinct(loop.rules)
    modifies loop, env, loop.Fds() + NewFds(requests)
    ensures ServesAll(requests, calls)
    ensures LoopRun(old(loop.rules), calls) && Distinct(old(loop.rules) + Added(calls))
    ensures loop.rules == RulesAfter(old(loop.rules), calls) && env.log == old(env.log) + RunLog(calls)
  {
    ghost var fds, before, all, log, done := loop.Fds() + NewFds(requests), loop.rules, loop.rules, env.log, [];
    calls := [];
    assert before + Added(calls) == all;
    for i := 0 to |requests|
      invariant ServesAll(requests[..i], calls) && Stands(before, calls, all, loop.rules, done)
      invariant Distinct(loop.rules) && loop.Watches(fds) && env.log == log + done
    {
      TakeOneMore([], requests, i);
      assert requests[i] in requests;
      ghost var c;
      c, all, done := Continue(loop, env, requests[i], fds, before, calls, all, log, done);
      calls := calls + [c];
    }
    assert requests[..|requests|] == requests;
  }
}
