/**
 The event loop: one pass that erases finished rules and builds a parallel vector of poll requests,
 a call of poll, and a second pass that walks the rules and the vector together while erasing again.
 */
module EventLoops {
  import opened MachineTypes
  import opened FileDescriptors

  /** The bits of a poll mask that the loop looks at. */
  datatype PollFlag = POLLIN | POLLOUT | POLLERR | POLLHUP | POLLNVAL

  type PollMask = set<PollFlag>

  const EINTR: int := 4

  datatype Direction = In | Out {
    function Events(): (e: PollMask)
      ensures e != {}
    {
      if In? then {POLLIN} else {POLLOUT}
    }
  }

  /** The states of a set of descriptors at one moment. */
  type World = map<FDWrapper, FdState>

  function StateIn(w: World, fd: FDWrapper): FdState {
    if fd in w then w[fd] else FdState(false, false, 0, 0)
  }

  /** The descriptors as they are now. */
  ghost function Now(fds: set<FDWrapper>): World reads fds { map fd | fd in fds :: fd.State() }

  /** A recorded world shows the fields that the descriptors had. */
  lemma NowShowsFields(fds: set<FDWrapper>, fd: FDWrapper)
    requires fd in fds
    ensures var s := StateIn(Now(fds), fd);
      s.eof == fd.eof && s.closed == fd.closed && s.readCount == fd.readCount && s.writeCount == fd.writeCount
  {
  }

  /** A rule is an element of the list, so it has an identity; its three functions belong to the environment. */
  class Rule {
    const fd: FDWrapper
    const direction: Direction

    constructor (fd: FDWrapper, direction: Direction)
      ensures this.fd == fd && this.direction == direction
    {
      this.fd, this.direction := fd, direction;
    }

    /** How often the descriptor has been read or written, whichever the rule is about. */
    function ServiceCount(): UInt32 reads fd {
      if direction == In then fd.readCount else fd.writeCount
    }

    /** The service count that the rule saw, or would have seen, in a recorded world. */
    function CountIn(w: World): UInt32 {
      if direction == In then StateIn(w, fd).readCount else StateIn(w, fd).writeCount
    }

    /** The descriptor will never serve this rule again: it is closed, or there is no more to read. */
    predicate GoneIn(w: World) { (direction == In && StateIn(w, fd).eof) || StateIn(w, fd).closed }
  }

  datatype PollFd = PollFd(fd: nat, events: PollMask, revents: PollMask) {
    predicate Broken() { POLLERR in revents || POLLNVAL in revents }
    predicate Ready() { revents * events != {} }
    predicate HungUp() { POLLHUP in revents && events != {} && !Ready() }
  }

  /** What the loop does, in order, each with the world that it leaves behind. */
  datatype Event =
    | Cancelled(rule: Rule, world: World)
    | Asked(rule: Rule, answer: bool, world: World)
    | Polled(fds: seq<PollFd>, reply: Reply)
    | Called(rule: Rule, world: World)

  /** The user's functions and the kernel. Any of them may change the state of any descriptor. */
  class Environment {
    ghost var log: seq<Event>

    constructor ()
      ensures log == []
    {
      log := [];
    }

    method Cancel(r: Rule, ghost fds: set<FDWrapper>)
      modifies this, fds
      ensures log == old(log) + [Cancelled(r, Now(fds))]
    {
      modify fds;
      log := log + [Cancelled(r, Now(fds))];
    }

    method Callback(r: Rule, ghost fds: set<FDWrapper>)
      modifies this, fds
      ensures log == old(log) + [Called(r, Now(fds))]
    {
      modify fds;
      log := log + [Called(r, Now(fds))];
    }

    method Interest(r: Rule, ghost fds: set<FDWrapper>) returns (answer: bool)
      modifies this, fds
      ensures log == old(log) + [Asked(r, answer, Now(fds))]
    {
      modify fds;
      answer := *;
      log := log + [Asked(r, answer, Now(fds))];
    }

    /** Poll may answer anything at all in the revents fields, and leaves the requests alone. */
    method Poll(fds: seq<PollFd>) returns (polled: seq<PollFd>, reply: Reply)
      modifies this
      ensures SameRequests(fds, polled) && log == old(log) + [Polled(polled, reply)]
    {
      polled := [];
      for i := 0 to |fds|
        invariant SameRequests(fds[..i], polled)
      {
        var revents: PollMask := *;
        polled := polled + [fds[i].(revents := revents)];
      }
      var ret: SSizeT, errno: int := *, *;
      reply := Reply(ret, errno);
      log := log + [Polled(polled, reply)];
    }
  }

  predicate SameRequests(fds: seq<PollFd>, polled: seq<PollFd>) {
    |polled| == |fds| && forall i | 0 <= i < |fds| :: polled[i].fd == fds[i].fd && polled[i].events == fds[i].events
  }

  // ---------- The first pass ----------

  /** What a user's function answered, and the world that it left. */
  datatype Answer = Answer(yes: bool, world: World)

  /** The rules kept, the poll requests built for them, the world, and what was done on the way. */
  datatype Setup = Setup(kept: seq<Rule>, fds: seq<PollFd>, wanted: bool, world: World, log: seq<Event>) {
    function Then(r: Rule, a: Answer): Setup {
      if r.GoneIn(world) then this.(world := a.world, log := log + [Cancelled(r, a.world)])
      else Setup(kept + [r], fds + [PollFd(r.fd.fd, if a.yes then r.direction.Events() else {}, {})],
                 wanted || a.yes, a.world, log + [Asked(r, a.yes, a.world)])
    }
  }

  function SetUp(rules: seq<Rule>, world: World, answers: seq<Answer>): (s: Setup)
    requires |answers| == |rules|
    ensures |s.fds| == |s.kept| <= |rules|
  {
    if rules == [] then Setup([], [], false, world, [])
    else
      var n := |rules| - 1;
      SetUp(rules[..n], world, answers[..n]).Then(rules[n], answers[n])
  }

  // ---------- The second pass ----------

  /** The world that a rule's cancel or callback left, and its answer when asked after that. */
  datatype Turn = Turn(world: World, answer: Answer)

  datatype Progress = Going | PollError | BusyWait

  /** The rules kept, the world, and what was done, until an exception stops the pass. */
  datatype Serving = Serving(kept: seq<Rule>, progress: Progress, world: World, log: seq<Event>) {
    /** The callback read or wrote the descriptor in the direction of the rule. */
    predicate Serviced(r: Rule, t: Turn) { r.CountIn(t.world) != r.CountIn(world) }

    function Then(r: Rule, p: PollFd, t: Turn): Serving {
      if progress != Going then this.(kept := kept + [r])
      else if p.Broken() then this.(kept := kept + [r], progress := PollError)
      else if p.HungUp() then this.(world := t.world, log := log + [Cancelled(r, t.world)])
      else if !p.Ready() then this.(kept := kept + [r])
      else if Serviced(r, t) then Serving(kept + [r], Going, t.world, log + [Called(r, t.world)])
      else Serving(kept + [r], if t.answer.yes then BusyWait else Going, t.answer.world,
                   log + [Called(r, t.world), Asked(r, t.answer.yes, t.answer.world)])
    }
  }

  function Serve(rules: seq<Rule>, polled: seq<PollFd>, world: World, turns: seq<Turn>): Serving
    requires |polled| == |rules| == |turns|
  {
    if rules == [] then Serving([], Going, world, [])
    else
      var n := |rules| - 1;
      Serve(rules[..n], polled[..n], world, turns[..n]).Then(rules[n], polled[n], turns[n])
  }

  // ---------- One call of wait_next_event ----------

  datatype Outcome = Success | Timeout | Exit

  /** Everything that the environment answered during one call. */
  datatype Answers = Answers(interests: seq<Answer>, polled: seq<PollFd>, reply: Reply, turns: seq<Turn>)

  /** How the call goes on after poll: nothing, or the second pass. */
  datatype Verdict = Return(outcome: Outcome) | GoOn

  /** A failure of poll other than an interruption is caught and then ignored. */
  function AfterPoll(reply: Reply): Verdict {
    match SystemCall(reply)
    case Returned(n) => if n == 0 then Return(Timeout) else GoOn
    case Threw(e) => if e == UnixError(EINTR) then Return(Exit) else GoOn
  }

  /** A call whose first pass ended as `s` went through poll, left `after`, did `log` and ended in `r`. */
  predicate PollRun(s: Setup, a: Answers, after: seq<Rule>, log: seq<Event>, r: Result<Outcome>)
    requires |s.fds| == |s.kept|
  {
    && SameRequests(s.fds, a.polled)
    && var polledLog := s.log + [Polled(a.polled, a.reply)];
    match AfterPoll(a.reply)
    case Return(outcome) => r == Returned(outcome) && after == s.kept && log == polledLog
    case GoOn =>
      var n := |a.turns|;
      && n <= |s.kept|
      && var t := Serve(s.kept[..n], a.polled[..n], s.world, a.turns);
      && after == t.kept + s.kept[n..]
      && log == polledLog + t.log
      && (if t.progress == Going then n == |s.kept| && r == Returned(Success) else r == Threw(RuntimeError))
  }

  /** A call that found the rules `before` in `world`, left `after`, did `log` and ended in `r`. */
  predicate WaitRun(before: seq<Rule>, world: World, a: Answers, after: seq<Rule>, log: seq<Event>, r: Result<Outcome>) {
    && |a.interests| == |before|
    && var s := SetUp(before, world, a.interests);
    if !s.wanted then r == Returned(Exit) && after == s.kept && log == s.log
    else PollRun(s, a, after, log, r)
  }

  class EventLoop {
    var rules: seq<Rule>

    constructor ()
      ensures rules == []
    {
      rules := [];
    }

    ghost function Fds(): set<FDWrapper> reads this { set r | r in rules :: r.fd }

    /** A rule shares the state of the descriptor that it is added for. */
    method AddRule(fd: FDWrapper, direction: Direction)
      requires Distinct(rules)
      modifies this
      ensures Distinct(rules) && |rules| == |old(rules)| + 1 && old(rules) < rules
      ensures var r := rules[|rules| - 1]; fresh(r) && r.fd == fd && r.direction == direction
    {
      var r := new Rule(fd, direction);
      rules := rules + [r];
    }

    ghost predicate Watches(fds: set<FDWrapper>) reads this { forall r | r in rules :: r.fd in fds }

    method Erase(it: nat)
      requires it < |rules|
      modifies this
      ensures rules == old(rules)[..it] + old(rules)[it + 1..]
    {
      rules := rules[..it] + rules[it + 1..];
    }

    /** One turn of the loop of the first pass, which has got as far as `s`. */
    method LookAtRule(it: nat, pollfds: seq<PollFd>, env: Environment, ghost s: Setup, ghost rest: seq<Rule>,
                      ghost before: seq<Event>, ghost fds: set<FDWrapper>)
      returns (next: nat, extended: seq<PollFd>, interested: bool, ghost a: Answer, ghost s': Setup)
      requires Watches(fds) && rest != [] && rules == s.kept + rest && s.world == Now(fds)
      requires it == |s.kept| && pollfds == s.fds && env.log == before + s.log
      modifies this, env, fds
      ensures Watches(fds) && s' == s.Then(rest[0], a) && rules == s'.kept + rest[1..] && s'.world == Now(fds)
      ensures next == |s'.kept| && extended == s'.fds && env.log == before + s'.log
      ensures s'.wanted == (s.wanted || interested)
    {
      var thisRule := rules[it];
      assert thisRule == rest[0] && thisRule in rules;
      NowShowsFields(fds, thisRule.fd);
      next, extended, interested := it, pollfds, false;
      if (thisRule.direction == In && thisRule.fd.eof) || thisRule.fd.closed {
        env.Cancel(thisRule, fds);
        Erase(it);
      } else {
        interested := env.Interest(thisRule, fds);
        extended := pollfds + [PollFd(thisRule.fd.fd, if interested then thisRule.direction.Events() else {}, {})];
        next := it + 1;
      }
      a := Answer(interested, Now(fds));
      s' := s.Then(rest[0], a);
    }

    method FirstPass(env: Environment, ghost fds: set<FDWrapper>)
      returns (pollfds: seq<PollFd>, somethingToPoll: bool, ghost answers: seq<Answer>)
      requires Watches(fds)
      modifies this, env, fds
      ensures |answers| == |old(rules)| && Watches(fds)
      ensures var s := SetUp(old(rules), old(Now(fds)), answers);
        && rules == s.kept && pollfds == s.fds && somethingToPoll == s.wanted
        && s.world == Now(fds) && env.log == old(env.log) + s.log
    {
      pollfds, somethingToPoll, answers := [], false, [];
      ghost var s, seen, rest := Setup([], [], false, Now(fds), []), [], rules;
      var it := 0;
      while it < |rules|
        invariant Watches(fds) && old(rules) == seen + rest && rules == s.kept + rest
        invariant |answers| == |seen| && s == SetUp(seen, old(Now(fds)), answers) && s.world == Now(fds)
        invariant it == |s.kept| && pollfds == s.fds && somethingToPoll == s.wanted
        invariant env.log == old(env.log) + s.log
        decreases |rest|
      {
        var interested; ghost var a, s';
        it, pollfds, interested, a, s' := LookAtRule(it, pollfds, env, s, rest, old(env.log), fds);
        somethingToPoll := somethingToPoll || interested;
        SetUpSnoc(seen, rest[0], old(Now(fds)), answers, a);
        answers, s, seen, rest := answers + [a], s', seen + [rest[0]], rest[1..];
      }
      assert rest == [] && seen == old(rules);
    }

    /** Calls a ready rule, and asks whether it is still interested only if its service count did not move. */
    method ServeReady(r: Rule, env: Environment, ghost fds: set<FDWrapper>) returns (busy: bool, ghost t: Turn)
      requires r.fd in fds
      modifies env, fds
      ensures var serviced :=
          if r.direction == In then StateIn(t.world, r.fd).readCount != old(r.fd.readCount)
          else StateIn(t.world, r.fd).writeCount != old(r.fd.writeCount);
        && busy == (!serviced && t.answer.yes)
        && Now(fds) == (if serviced then t.world else t.answer.world)
        && env.log == old(env.log) +
             if serviced then [Called(r, t.world)] else [Called(r, t.world), Asked(r, t.answer.yes, t.answer.world)]
    {
      var countBefore := r.ServiceCount();
      env.Callback(r, fds);
      t := Turn(Now(fds), Answer(false, Now(fds)));
      if countBefore != r.ServiceCount() {
        return false, t;
      }
      busy := env.Interest(r, fds);
      t := t.(answer := Answer(busy, Now(fds)));
    }

    /** One turn of the loop of the second pass, which has got as far as `t`. */
    method ServeRule(it: nat, thisPollfd: PollFd, env: Environment, ghost t: Serving, ghost rest: seq<Rule>,
                     ghost before: seq<Event>, ghost fds: set<FDWrapper>)
      returns (next: nat, threw: bool, ghost turn: Turn, ghost t': Serving)
      requires Watches(fds) && rest != [] && rules == t.kept + rest && t.world == Now(fds)
      requires t.progress == Going && it == |t.kept| && env.log == before + t.log
      modifies this, env, fds
      ensures Watches(fds) && t' == t.Then(rest[0], thisPollfd, turn) && rules == t'.kept + rest[1..]
      ensures next == |t'.kept| && threw == (t'.progress != Going) && env.log == before + t'.log
      ensures t'.world == Now(fds)
    {
      var thisRule := rules[it];
      assert thisRule == rest[0] && thisRule in rules;
      next, threw, turn := it, thisPollfd.Broken(), Turn(Now(fds), Answer(false, Now(fds)));
      if !threw && thisPollfd.HungUp() {
        env.Cancel(thisRule, fds);
        Erase(it);
        turn := turn.(world := Now(fds));
      } else {
        if !threw && thisPollfd.Ready() {
          threw, turn := ServeReady(thisRule, env, fds);
        }
        next := it + 1;
      }
      t' := t.Then(rest[0], thisPollfd, turn);
    }

    method SecondPass(pollfds: seq<PollFd>, env: Environment, ghost fds: set<FDWrapper>)
      returns (r: Result<Outcome>, ghost turns: seq<Turn>)
      requires Watches(fds) && |pollfds| == |rules|
      modifies this, env, fds
      ensures |turns| <= |old(rules)|
      ensures var n := |turns|; var t := Serve(old(rules)[..n], pollfds[..n], old(Now(fds)), turns);
        && rules == t.kept + old(rules)[n..]
        && t.world == Now(fds) && env.log == old(env.log) + t.log
        && (if t.progress == Going then n == |old(rules)| && r == Returned(Success) else r == Threw(RuntimeError))
    {
      turns := [];
      ghost var world, t, seen, used, rest := Now(fds), Serving([], Going, Now(fds), []), [], [], rules;
      var it, idx, threw := 0, 0, false;
      while it < |rules| && !threw
        // The rule at `it` is the one that entry `idx` was built for, whatever has been erased.
        invariant Watches(fds) && old(rules) == seen + rest && rules == t.kept + rest && it == |t.kept|
        invariant idx == |turns| == |seen| && used == pollfds[..idx] && t == Serve(seen, used, world, turns)
        invariant threw == (t.progress != Going) && t.world == Now(fds) && env.log == old(env.log) + t.log
        decreases |rest|
      {
        ghost var turn, t';
        it, threw, turn, t' := ServeRule(it, pollfds[idx], env, t, rest, old(env.log), fds);
        ServeSnoc(seen, rest[0], used, pollfds[idx], world, turns, turn);
        turns, t, seen, used, rest := turns + [turn], t', seen + [rest[0]], used + [pollfds[idx]], rest[1..];
        idx := idx + 1;
      }
      assert old(rules)[..idx] == seen && old(rules)[idx..] == rest;
      r := if threw then Threw(RuntimeError) else Returned(Success);
    }

    /** What follows the first pass, which ended as `s`, when some rule is interested. */
    method PollAndServe(requests: seq<PollFd>, env: Environment, ghost s: Setup, ghost before: seq<Event>, ghost fds: set<FDWrapper>)
      returns (r: Result<Outcome>, ghost a: Answers, ghost log: seq<Event>)
      requires Watches(fds) && rules == s.kept && s.world == Now(fds) && env.log == before + s.log
      requires requests == s.fds && |s.fds| == |s.kept|
      modifies this, env, fds
      ensures env.log == before + log
      ensures forall interests :: PollRun(s, a.(interests := interests), rules, log, r)
    {
      var pollfds, reply := env.Poll(requests);
      a, log := Answers([], pollfds, reply, []), s.log + [Polled(pollfds, reply)];
      var call := SystemCall(reply);
      if call == Returned(0) {
        return Returned(Timeout), a, log;
      }
      if call == Threw(UnixError(EINTR)) {
        return Returned(Exit), a, log;
      }
      ghost var turns;
      r, turns := SecondPass(pollfds, env, fds);
      log := log + Serve(s.kept[..|turns|], pollfds[..|turns|], s.world, turns).log;
      a := a.(turns := turns);
    }

    method WaitNextEvent(env: Environment) returns (r: Result<Outcome>, ghost a: Answers, ghost log: seq<Event>)
      modifies this, env, Fds()
      ensures env.log == old(env.log) + log
      ensures WaitRun(old(rules), old(Now(Fds())), a, rules, log, r)
    {
      ghost var fds, world := Fds(), Now(Fds());
      var pollfds, somethingToPoll; ghost var answers;
      pollfds, somethingToPoll, answers := FirstPass(env, fds);
      ghost var s := SetUp(old(rules), world, answers);
      if !somethingToPoll {
        return Returned(Exit), Answers(answers, [], Reply(0, 0), []), s.log;
      }
      r, a, log := PollAndServe(pollfds, env, s, old(env.log), fds);
      a := a.(interests := answers);
    }
  }

  lemma SetUpSnoc(rules: seq<Rule>, rule: Rule, world: World, answers: seq<Answer>, a: Answer)
    requires |answers| == |rules|
    ensures SetUp(rules + [rule], world, answers + [a]) == SetUp(rules, world, answers).Then(rule, a)
  {
  }

  lemma ServeSnoc(rules: seq<Rule>, rule: Rule, polled: seq<PollFd>, p: PollFd, world: World, turns: seq<Turn>, turn: Turn)
    requires |turns| == |rules| == |polled|
    ensures Serve(rules + [rule], polled + [p], world, turns + [turn]) == Serve(rules, polled, world, turns).Then(rule, p, turn)
  {
  }
}
