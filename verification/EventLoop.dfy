/**
 EventLoop::wait_next_event of libsponge/util/eventloop.cc.  Everything outside the loop
 (the callbacks, the descriptors, poll(2)) is an environment that may react to each call
 as it likes and change the world; it can do anything but touch the list of rules.
 */
module EventLoops {
  import opened Bytes
  import opened EventTrace

  const POLLIN: bv16 := 0x01
  const POLLOUT: bv16 := 0x04
  const POLLERR: bv16 := 0x08
  const POLLHUP: bv16 := 0x10
  const POLLNVAL: bv16 := 0x20

  function Mask(d: Direction): bv16 {
    if d.In? then POLLIN else POLLOUT
  }

  /** The outcome of poll(2); an entry without an answer keeps the revents it had, 0. */
  datatype PollAnswer = Answered(revents: seq<bv16>) | TimedOut | Interrupted | Failed

  datatype Env<!W> = Env(
    fdNum: nat -> int,
    eof: (W, nat) -> bool,
    closed: (W, nat) -> bool,
    serviceCount: (W, nat, Direction) -> nat,
    interest: (W, Rule) -> (bool, W),
    callback: (W, Rule) -> W,
    cancel: (W, Rule) -> W,
    poll: (W, seq<PollFd>, int) -> (PollAnswer, W))

  // ------------------------------------------------------------------- the first pass

  datatype Pass<W> = Pass(w: W, kept: seq<Rule>, fds: seq<PollFd>, events: seq<Event<W>>)

  function Join<W>(p: Pass<W>, q: Pass<W>): Pass<W> {
    Pass(q.w, p.kept + q.kept, p.fds + q.fds, p.events + q.events)
  }

  /** One rule: cancelled if nothing can come of it any more, else entered into the poll list. */
  function Visit<W>(env: Env<W>, w: W, r: Rule): Pass<W> {
    if (r.direction.In? && env.eof(w, r.fd)) || env.closed(w, r.fd) then
      Pass(env.cancel(w, r), [], [], [Cancelled(r, w)])
    else
      var (yes, w') := env.interest(w, r);
      Pass(w', [r], [PollFd(env.fdNum(r.fd), if yes then Mask(r.direction) else 0, 0)], [Asked(r, w, yes)])
  }

  function FirstPass<W>(env: Env<W>, w: W, rules: seq<Rule>): Pass<W>
    decreases |rules|
  {
    if rules == [] then Pass(w, [], [], [])
    else
      var v := Visit(env, w, rules[0]);
      Join(v, FirstPass(env, v.w, rules[1..]))
  }

  // ------------------------------------------------------------------ the second pass

  predicate HasError(p: PollFd) {
    p.revents & (POLLERR | POLLNVAL) != 0
  }

  predicate IsReady(p: PollFd) {
    p.revents & p.events != 0
  }

  /** A hang-up is all that is left of what was asked for. */
  predicate HangupOnly(p: PollFd) {
    p.revents & POLLHUP != 0 && p.events != 0 && !IsReady(p)
  }

  datatype Outcome = Finished | FdError | BusyWait

  datatype Service<W> = Service(w: W, kept: seq<Rule>, events: seq<Event<W>>, outcome: Outcome)

  /** One rule with its poll result. */
  function Serve<W>(env: Env<W>, w: W, r: Rule, p: PollFd): Service<W> {
    if HasError(p) then Service(w, [r], [], FdError)
    else if HangupOnly(p) then Service(env.cancel(w, r), [], [Cancelled(r, w)], Finished)
    else if !IsReady(p) then Service(w, [r], [], Finished)
    else
      var w1 := env.callback(w, r);
      if env.serviceCount(w, r.fd, r.direction) != env.serviceCount(w1, r.fd, r.direction) then
        Service(w1, [r], [CalledBack(r, w)], Finished)
      else
        var (yes, w2) := env.interest(w1, r);
        Service(w2, [r], [CalledBack(r, w), Asked(r, w1, yes)], if yes then BusyWait else Finished)
  }

  /** A throw leaves the rules from the current one on in the list. */
  function SecondPass<W>(env: Env<W>, w: W, rules: seq<Rule>, fds: seq<PollFd>): Service<W>
    requires |rules| == |fds|
    decreases |rules|
  {
    if rules == [] then Service(w, [], [], Finished)
    else
      var v := Serve(env, w, rules[0], fds[0]);
      if v.outcome != Finished then v.(kept := v.kept + rules[1..])
      else After(v, SecondPass(env, v.w, rules[1..], fds[1..]))
  }

  function After<W>(v: Service<W>, rest: Service<W>): Service<W> {
    Service(rest.w, v.kept + rest.kept, v.events + rest.events, rest.outcome)
  }

  // -------------------------------------------------------------------- the whole call

  datatype Result = Success | Timeout | Exit | ThrewFdError | ThrewBusyWait

  datatype Call<W> = Call(w: W, rules: seq<Rule>, events: seq<Event<W>>, result: Result)

  function Fill(fds: seq<PollFd>, revents: seq<bv16>): seq<PollFd> {
    seq(|fds|, i requires 0 <= i < |fds| => fds[i].(revents := if i < |revents| then revents[i] else 0))
  }

  function ReventsOf(answer: PollAnswer): seq<bv16> {
    match answer
    case Answered(revents) => revents
    case _ => []
  }

  predicate SomethingToPoll(fds: seq<PollFd>) {
    exists i :: 0 <= i < |fds| && fds[i].events != 0
  }

  /** What follows the poll. */
  function Conclude<W>(env: Env<W>, w: W, rules: seq<Rule>, fds: seq<PollFd>, answer: PollAnswer,
                       events: seq<Event<W>>): Call<W>
    requires |rules| == |fds|
  {
    match answer
    case TimedOut => Call(w, rules, events, Timeout)
    case Interrupted => Call(w, rules, events, Exit)
    case _ =>
      var s := SecondPass(env, w, rules, Fill(fds, ReventsOf(answer)));
      Call(s.w, s.kept, events + s.events, ResultOf(s.outcome))
  }

  function ResultOf(outcome: Outcome): Result {
    match outcome
    case Finished => Success
    case FdError => ThrewFdError
    case BusyWait => ThrewBusyWait
  }

  function Wait<W>(env: Env<W>, w: W, rules: seq<Rule>, timeout: int): Call<W> {
    var p := FirstPass(env, w, rules);
    FirstPassPairs(env, w, rules);
    if !SomethingToPoll(p.fds) then Call(p.w, p.kept, p.events, Exit)
    else
      var (answer, w') := env.poll(p.w, p.fds, timeout);
      Conclude(env, w', p.kept, p.fds, answer, p.events + [Polled(p.fds, timeout, p.w)])
  }

  /** The poll list pairs up with the rules that are left: the k-th entry was made for the k-th rule. */
  lemma {:induction false} FirstPassPairs<W>(env: Env<W>, w: W, rules: seq<Rule>)
    ensures var p := FirstPass(env, w, rules);
            && |p.fds| == |p.kept|
            && forall k :: 0 <= k < |p.kept| ==>
                 && p.fds[k].fdNum == env.fdNum(p.kept[k].fd) && p.fds[k].revents == 0
                 && p.fds[k].events in {0x00, Requested(true, p.kept[k].direction)}
    decreases |rules|
  {
    if rules != [] {
      FirstPassPairs(env, Visit(env, w, rules[0]).w, rules[1..]);
    }
  }

  // ------------------------------------------------------------------------ the class

  lemma JoinAssoc<W>(p: Pass<W>, q: Pass<W>, r: Pass<W>)
    ensures Join(Join(p, q), r) == Join(p, Join(q, r))
  {
  }

  lemma AfterAssoc<W>(u: Service<W>, v: Service<W>, rest: Service<W>)
    ensures After(After(u, v), rest) == After(u, After(v, rest))
  {
  }

  /** What one rule does to the list: `kept` replaces it, and `it` denotes the rule after that. */
  ghost predicate Passed(rules: seq<Rule>, it: nat, kept: seq<Rule>, rules': seq<Rule>, it': nat) {
    it < |rules| && it' <= |rules'| && rules'[..it'] == rules[..it] + kept && rules'[it'..] == rules[it + 1..]
  }

  /** Going on to the next rule without erasing. */
  lemma PassedBy(rules: seq<Rule>, it: nat)
    requires it < |rules|
    ensures Passed(rules, it, [rules[it]], rules, it + 1)
  {
  }

  lemma FirstPassStep<W>(env: Env<W>, done: Pass<W>, rules: seq<Rule>, it: nat, rules': seq<Rule>, it': nat)
    requires it < |rules| && Passed(rules, it, Visit(env, done.w, rules[it]).kept, rules', it')
    requires done.kept == rules[..it]
    ensures var v := Visit(env, done.w, rules[it]);
            && Join(done, v).kept == rules'[..it']
            && Join(done, FirstPass(env, done.w, rules[it..])) ==
               Join(Join(done, v), FirstPass(env, v.w, rules'[it'..]))
  {
    var v := Visit(env, done.w, rules[it]);
    assert rules[it..][1..] == rules'[it'..];
    JoinAssoc(done, v, FirstPass(env, v.w, rules'[it'..]));
  }

  lemma SecondPassStep<W>(env: Env<W>, done: Service<W>, rules: seq<Rule>, it: nat, fds: seq<PollFd>, idx: nat,
                          rules': seq<Rule>, it': nat)
    requires it < |rules| && idx < |fds| && |rules| - it == |fds| - idx
    requires Serve(env, done.w, rules[it], fds[idx]).outcome == Finished && done.kept == rules[..it]
    requires Passed(rules, it, Serve(env, done.w, rules[it], fds[idx]).kept, rules', it')
    ensures var v := Serve(env, done.w, rules[it], fds[idx]);
            && |rules'| - it' == |fds| - (idx + 1)
            && After(done, v).kept == rules'[..it']
            && After(done, SecondPass(env, done.w, rules[it..], fds[idx..])) ==
               After(After(done, v), SecondPass(env, v.w, rules'[it'..], fds[idx + 1..]))
  {
    var v := Serve(env, done.w, rules[it], fds[idx]);
    assert |rules'[it'..]| == |rules[it + 1..]|;
    assert rules[it..][1..] == rules'[it'..] && fds[idx..][1..] == fds[idx + 1..];
    AfterAssoc(done, v, SecondPass(env, v.w, rules'[it'..], fds[idx + 1..]));
  }

  lemma SecondPassStops<W>(env: Env<W>, done: Service<W>, rules: seq<Rule>, it: nat, fds: seq<PollFd>, idx: nat)
    requires it < |rules| && idx < |fds| && |rules| - it == |fds| - idx && done.kept == rules[..it]
    requires Serve(env, done.w, rules[it], fds[idx]).outcome != Finished
    ensures var v := Serve(env, done.w, rules[it], fds[idx]);
            After(done, SecondPass(env, done.w, rules[it..], fds[idx..])) ==
            Service(v.w, rules, done.events + v.events, v.outcome)
  {
    assert rules[it..][1..] == rules[it + 1..];
    assert rules[..it] + ([rules[it]] + rules[it + 1..]) == rules;
  }

  lemma SomethingSnoc(fds: seq<PollFd>, p: PollFd)
    ensures SomethingToPoll(fds + [p]) <==> SomethingToPoll(fds) || p.events != 0
  {
    assert (fds + [p])[|fds|] == p;
    assert forall i :: 0 <= i < |fds| ==> (fds + [p])[i] == fds[i];
  }

  class EventLoop<W> {
    const env: Env<W>
    var rules: seq<Rule>
    var world: W
    var nextId: nat
    ghost var trace: seq<Event<W>>

    /** The list is what the history says it is. */
    ghost predicate Valid()
      reads this
    {
      Reachable(rules, nextId, trace)
    }

    constructor (env: Env<W>, w: W)
      ensures Valid() && this.env == env && world == w && rules == [] && trace == []
    {
      this.env := env;
      world := w;
      rules, nextId, trace := [], 0, [];
    }

    method AddRule(fd: nat, direction: Direction)
      requires Valid()
      modifies `rules, `nextId, `trace
      ensures Valid() && nextId == old(nextId) + 1
      ensures rules == old(rules) + [Rule(old(nextId), fd, direction)]
      ensures trace == old(trace) + [Added(Rule(old(nextId), fd, direction))]
    {
      var r := Rule(nextId, fd, direction);
      AddKeepsReachable(rules, nextId, trace, r);
      rules := rules + [r];
      nextId := nextId + 1;
      trace := trace + [Added(r)];
    }

    /** Lines 68-88 for one rule: erase it, or poll it for what it is interested in. */
    method VisitRule(r: Rule) returns (erase: bool, fd: PollFd)
      modifies `world, `trace
      ensures var v := Visit(env, old(world), r);
              && world == v.w && trace == old(trace) + v.events
              && v.kept == (if erase then [] else [r]) && v.fds == if erase then [] else [fd]
    {
      trace := trace + Visit(env, world, r).events;
      fd := PollFd(env.fdNum(r.fd), 0, 0);  // placeholder, errors are wanted anyway
      if r.direction.In? && env.eof(world, r.fd) {
        world := env.cancel(world, r);
        return true, fd;
      }
      if env.closed(world, r.fd) {
        world := env.cancel(world, r);
        return true, fd;
      }
      var (yes, w') := env.interest(world, r);
      world := w';
      if yes {
        fd := PollFd(env.fdNum(r.fd), Mask(r.direction), 0);
      }
      return false, fd;
    }

    /** Lines 62-89: `it` stays put when its rule is erased. */
    method SetUp() returns (fds: seq<PollFd>, something: bool)
      modifies `rules, `world, `trace
      ensures var p := FirstPass(env, old(world), old(rules));
              && rules == p.kept && world == p.w && trace == old(trace) + p.events
              && fds == p.fds && (something <==> SomethingToPoll(fds))
    {
      fds, something := [], false;
      var it := 0;
      ghost var done, whole, history := Pass(world, [], [], []), FirstPass(env, world, rules), trace;
      assert rules[0..] == rules && Join(done, whole) == whole;
      while it < |rules|
        invariant it <= |rules| && (something <==> SomethingToPoll(fds))
        invariant done.w == world && done.kept == rules[..it] && done.fds == fds
        invariant trace == history + done.events
        invariant whole == Join(done, FirstPass(env, world, rules[it..]))
        decreases |rules| - it
      {
        ghost var v, before, at := Visit(env, world, rules[it]), rules, it;
        AppendAssoc(history, done.events, v.events);
        var erase, fd := VisitRule(rules[it]);
        if erase {
          Erase(it);
        } else {
          SomethingSnoc(fds, fd);
          fds := fds + [fd];
          something := something || fd.events != 0;
          PassedBy(rules, it);
          it := it + 1;
        }
        FirstPassStep(env, done, before, at, rules, it);
        done := Join(done, v);
      }
      assert rules[it..] == [];
    }

    /** `_rules.erase(it)`: the iterator then denotes the next rule. */
    method Erase(it: nat)
      requires it < |rules|
      modifies `rules
      ensures Passed(old(rules), it, [], rules, it) && |rules| == |old(rules)| - 1
    {
      rules := rules[..it] + rules[it + 1..];
    }

    /** Lines 112-139 for one rule: an outcome that is not Finished is a throw. */
    method ServeRule(r: Rule, p: PollFd) returns (erase: bool, outcome: Outcome)
      modifies `world, `trace
      ensures var v := Serve(env, old(world), r, p);
              && world == v.w && trace == old(trace) + v.events && outcome == v.outcome
              && v.kept == if erase then [] else [r]
    {
      trace := trace + Serve(env, world, r, p).events;
      if HasError(p) {
        return false, FdError;
      }
      if HangupOnly(p) {
        world := env.cancel(world, r);
        return true, Finished;
      }
      if IsReady(p) {
        var countBefore := env.serviceCount(world, r.fd, r.direction);
        world := env.callback(world, r);
        if countBefore == env.serviceCount(world, r.fd, r.direction) {
          var (yes, w') := env.interest(world, r);
          world := w';
          if yes {
            return false, BusyWait;
          }
        }
      }
      return false, Finished;
    }

    /** Lines 109-142: `idx` runs through the poll list while `it` runs through the shrinking rules. */
    method HandleResults(fds: seq<PollFd>) returns (outcome: Outcome)
      requires |fds| == |rules|
      modifies `rules, `world, `trace
      ensures var s := SecondPass(env, old(world), old(rules), fds);
              && rules == s.kept && world == s.w && trace == old(trace) + s.events && outcome == s.outcome
    {
      var it, idx := 0, 0;
      ghost var done, whole := Service(world, [], [], Finished), SecondPass(env, world, rules, fds);
      ghost var history := trace;
      assert rules[0..] == rules && fds[0..] == fds && After(done, whole) == whole;
      while it < |rules|
        invariant it <= idx <= |fds| && |rules| - it == |fds| - idx
        invariant done.w == world && done.kept == rules[..it] && done.outcome == Finished
        invariant trace == history + done.events
        invariant whole == After(done, SecondPass(env, world, rules[it..], fds[idx..]))
        decreases |fds| - idx
      {
        ghost var v, before, at := Serve(env, world, rules[it], fds[idx]), rules, it;
        AppendAssoc(history, done.events, v.events);
        var erase;
        erase, outcome := ServeRule(rules[it], fds[idx]);
        if outcome != Finished {
          SecondPassStops(env, done, rules, it, fds, idx);
          return;
        }
        if erase {
          Erase(it);
        } else {
          PassedBy(rules, it);
          it := it + 1;
        }
        SecondPassStep(env, done, before, at, fds, idx, rules, it);
        done := After(done, v);
        idx := idx + 1;
      }
      assert rules[it..] == [];
      return Finished;
    }

    method WaitNextEvent(timeout: int) returns (result: Result)
      requires Valid()
      modifies `rules, `world, `trace
      ensures Valid()
      ensures var c := Wait(env, old(world), old(rules), timeout);
              && rules == c.rules && world == c.w && trace == old(trace) + c.events && result == c.result
    {
      WaitKeepsReachable(env, world, rules, nextId, trace, timeout);
      FirstPassPairs(env, world, rules);
      ghost var p := FirstPass(env, world, rules);
      var fds, something := SetUp();
      if !something {
        return Exit;
      }
      AppendAssoc(old(trace), p.events, [Polled(fds, timeout, world)]);
      trace := trace + [Polled(fds, timeout, world)];
      var (answer, w') := env.poll(world, fds, timeout);
      world := w';
      match answer {
        case TimedOut =>
          return Timeout;
        case Interrupted =>
          return Exit;
        case Answered(revents) =>
          fds := Fill(fds, revents);
        case Failed =>
          fds := Fill(fds, []);
      }
      ghost var s := SecondPass(env, world, rules, fds);
      AppendAssoc(old(trace), p.events + [Polled(p.fds, timeout, p.w)], s.events);
      var outcome := HandleResults(fds);
      result := ResultOf(outcome);
    }
  }

  // ----------------------------------------------------------------- safety of all runs

  /** The rules in the list, in order, are those that a legal history leaves. */
  ghost predicate Reachable<W>(rules: seq<Rule>, nextId: nat, trace: seq<Event<W>>) {
    && Legal(trace) && Live(trace) == rules
    && forall r :: r in AddedRules(trace) ==> r.id < nextId
  }

  lemma AddKeepsReachable<W>(rules: seq<Rule>, nextId: nat, trace: seq<Event<W>>, r: Rule)
    requires Reachable(rules, nextId, trace) && r.id == nextId
    ensures Reachable(rules + [r], nextId + 1, trace + [Added(r)])
  {
  }

  /** The first pass, run when `front` has been dealt with, is legal and leaves what it kept. */
  lemma {:induction false} FirstPassLegal<W>(env: Env<W>, w: W, front: seq<Rule>, rules: seq<Rule>,
                                             nextId: nat, trace: seq<Event<W>>)
    requires Reachable(front + rules, nextId, trace)
    ensures var p := FirstPass(env, w, rules);
            Reachable(front + p.kept, nextId, trace + p.events)
    decreases |rules|
  {
    if rules == [] {
      assert trace + [] == trace;
    } else {
      var r, v := rules[0], Visit(env, w, rules[0]);
      var rest := FirstPass(env, v.w, rules[1..]);
      assert front + rules == front + [r] + rules[1..];
      assert front + [] == front && v.events == [v.events[0]];
      OneEventLegal(front, r, rules[1..], nextId, trace, v.events[0]);
      AppendAssoc(trace, v.events, rest.events);
      FirstPassLegal(env, v.w, front + v.kept, rules[1..], nextId, trace + v.events);
      AppendAssoc(front, v.kept, rest.kept);
    }
  }

  /** A cancellation removes its rule, any other call on a rule leaves the list alone. */
  lemma OneEventLegal<W>(front: seq<Rule>, r: Rule, back: seq<Rule>, nextId: nat, trace: seq<Event<W>>, e: Event<W>)
    requires Reachable(front + [r] + back, nextId, trace)
    requires !e.Added? && !e.Polled? && e.rule == r
    ensures Reachable(if e.Cancelled? then front + back else front + [r] + back, nextId, trace + [e])
  {
    Snoc(trace, e);
    LiveLaws(trace);
    assert (front + [r] + back)[|front|] == r;
    if e.Cancelled? {
      WithoutMiddle(front, r, back);
    }
  }

  lemma {:induction false} SecondPassLegal<W>(env: Env<W>, w: W, front: seq<Rule>, rules: seq<Rule>, fds: seq<PollFd>,
                                              nextId: nat, trace: seq<Event<W>>)
    requires |rules| == |fds| && Reachable(front + rules, nextId, trace)
    ensures var s := SecondPass(env, w, rules, fds);
            Reachable(front + s.kept, nextId, trace + s.events)
    decreases |rules|
  {
    if rules == [] {
      assert trace + [] == trace;
    } else {
      var r, v := rules[0], Serve(env, w, rules[0], fds[0]);
      assert front + rules == front + [r] + rules[1..];
      ServeLegal(env, w, front, r, fds[0], rules[1..], nextId, trace);
      if v.outcome == Finished {
        var rest := SecondPass(env, v.w, rules[1..], fds[1..]);
        AppendAssoc(trace, v.events, rest.events);
        SecondPassLegal(env, v.w, front + v.kept, rules[1..], fds[1..], nextId, trace + v.events);
        AppendAssoc(front, v.kept, rest.kept);
      } else {
        AppendAssoc(front, [r], rules[1..]);
      }
    }
  }

  lemma ServeLegal<W>(env: Env<W>, w: W, front: seq<Rule>, r: Rule, p: PollFd, back: seq<Rule>,
                      nextId: nat, trace: seq<Event<W>>)
    requires Reachable(front + [r] + back, nextId, trace)
    ensures var v := Serve(env, w, r, p);
            Reachable(front + v.kept + back, nextId, trace + v.events)
  {
    var v := Serve(env, w, r, p);
    if |v.events| == 0 {
      assert trace + [] == trace;
    } else {
      OneEventLegal(front, r, back, nextId, trace, v.events[0]);
      if |v.events| == 2 {
        OneEventLegal(front, r, back, nextId, trace + [v.events[0]], v.events[1]);
        assert trace + v.events == trace + [v.events[0]] + [v.events[1]];
      } else {
        assert v.events == [v.events[0]];
        assert front + [] == front;
      }
    }
  }

  /** On every exit, both throws included, the list is what the history leaves. */
  lemma WaitKeepsReachable<W>(env: Env<W>, w: W, rules: seq<Rule>, nextId: nat, trace: seq<Event<W>>, timeout: int)
    requires Reachable(rules, nextId, trace)
    ensures var c := Wait(env, w, rules, timeout);
            Reachable(c.rules, nextId, trace + c.events)
  {
    var p := FirstPass(env, w, rules);
    FirstPassPairs(env, w, rules);
    assert [] + rules == rules && [] + p.kept == p.kept;
    FirstPassLegal(env, w, [], rules, nextId, trace);
    if SomethingToPoll(p.fds) {
      var polled := Polled(p.fds, timeout, p.w);
      Snoc(trace + p.events, polled);
      AppendAssoc(trace, p.events, [polled]);
      var (answer, w') := env.poll(p.w, p.fds, timeout);
      ConcludeKeepsReachable(env, w', p.kept, p.fds, answer, nextId, trace, p.events + [polled]);
    }
  }

  lemma ConcludeKeepsReachable<W>(env: Env<W>, w: W, rules: seq<Rule>, fds: seq<PollFd>, answer: PollAnswer,
                                  nextId: nat, trace: seq<Event<W>>, events: seq<Event<W>>)
    requires |rules| == |fds| && Reachable(rules, nextId, trace + events)
    ensures var c := Conclude(env, w, rules, fds, answer, events);
            Reachable(c.rules, nextId, trace + c.events)
  {
    if answer.Answered? || answer.Failed? {
      var s := SecondPass(env, w, rules, Fill(fds, ReventsOf(answer)));
      assert [] + rules == rules && [] + s.kept == s.kept;
      SecondPassLegal(env, w, [], rules, Fill(fds, ReventsOf(answer)), nextId, trace + events);
      AppendAssoc(trace, events, s.events);
    }
  }
}
