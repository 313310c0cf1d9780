/** What every call of wait_next_event guarantees, and what holds over all runs of a loop. */
module EventLoopRuns {
  import opened Bytes
  import opened EventTrace
  import opened EventLoops

  // ---------------------------------------------------------------------- all runs

  /** Between calls the world may change in any way. */
  datatype LoopOp<W> = AddRule(fd: nat, direction: Direction) | WaitNextEvent(timeout: int) | Meanwhile(w: W)

  datatype LoopState<W> = LoopState(w: W, rules: seq<Rule>, nextId: nat, trace: seq<Event<W>>)

  function Step<W>(env: Env<W>, s: LoopState<W>, op: LoopOp<W>): LoopState<W> {
    match op
    case AddRule(fd, direction) =>
      var r := Rule(s.nextId, fd, direction);
      LoopState(s.w, s.rules + [r], s.nextId + 1, s.trace + [Added(r)])
    case WaitNextEvent(timeout) =>
      var c := Wait(env, s.w, s.rules, timeout);
      LoopState(c.w, c.rules, s.nextId, s.trace + c.events)
    case Meanwhile(w) => s.(w := w)
  }

  function Run<W>(env: Env<W>, s: LoopState<W>, ops: seq<LoopOp<W>>): LoopState<W>
    decreases |ops|
  {
    if ops == [] then s else Run(env, Step(env, s, ops[0]), ops[1..])
  }

  lemma {:induction false} RunReachable<W>(env: Env<W>, s: LoopState<W>, ops: seq<LoopOp<W>>)
    requires Reachable(s.rules, s.nextId, s.trace)
    ensures var s' := Run(env, s, ops); Reachable(s'.rules, s'.nextId, s'.trace)
    decreases |ops|
  {
    if ops != [] {
      match ops[0] {
        case AddRule(fd, direction) =>
          AddKeepsReachable(s.rules, s.nextId, s.trace, Rule(s.nextId, fd, direction));
        case WaitNextEvent(timeout) =>
          WaitKeepsReachable(env, s.w, s.rules, s.nextId, s.trace, timeout);
        case Meanwhile(w) =>
      }
      RunReachable(env, Step(env, s, ops[0]), ops[1..]);
    }
  }

  /**
   Whatever the environment does, over any sequence of calls and on every exit: the list
   is the added rules in their order without the cancelled ones; a rule's cancel has run
   once if it is gone and not at all if it is there; and once it has run, the rule is
   never asked, called back or cancelled again.
   */
  lemma EveryRun<W>(env: Env<W>, w: W, ops: seq<LoopOp<W>>)
    ensures var s := Run(env, LoopState(w, [], 0, []), ops);
            && s.rules == Uncancelled(s.trace, AddedRules(s.trace)) && Distinct(s.rules)
            && (forall r :: r in AddedRules(s.trace) ==> Cancels(s.trace, r) == if r in s.rules then 0 else 1)
            && (forall i, j :: 0 <= i < j < |s.trace| && s.trace[i].Cancelled? ==>
                  s.trace[j].Polled? || s.trace[j].rule != s.trace[i].rule)
  {
    RunReachable(env, LoopState(w, [], 0, []), ops);
    var s := Run(env, LoopState(w, [], 0, []), ops);
    LiveInOrder(s.trace);
    LiveLaws(s.trace);
    forall i, j | 0 <= i < j < |s.trace| && s.trace[i].Cancelled?
      ensures s.trace[j].Polled? || s.trace[j].rule != s.trace[i].rule
    {
      NothingAfterCancel(s.trace, s.trace[i].rule, i, j);
    }
  }

  /** Driving the class is the same run. */
  method Drive<W>(loop: EventLoop<W>, ops: seq<LoopOp<W>>)
    requires loop.Valid()
    modifies loop
    ensures loop.Valid()
    ensures LoopState(loop.world, loop.rules, loop.nextId, loop.trace) ==
            Run(loop.env, old(LoopState(loop.world, loop.rules, loop.nextId, loop.trace)), ops)
  {
    var i := 0;
    assert ops[0..] == ops;
    while i < |ops|
      invariant i <= |ops| && loop.Valid()
      invariant Run(loop.env, LoopState(loop.world, loop.rules, loop.nextId, loop.trace), ops[i..]) ==
                Run(loop.env, old(LoopState(loop.world, loop.rules, loop.nextId, loop.trace)), ops)
    {
      assert ops[i..][1..] == ops[i + 1..];
      match ops[i] {
        case AddRule(fd, direction) => loop.AddRule(fd, direction);
        case WaitNextEvent(timeout) => var result := loop.WaitNextEvent(timeout);
        case Meanwhile(w) => loop.world := w;
      }
      i := i + 1;
    }
  }

  // ------------------------------------------------------------- callbacks of one call

  function Callbacks<W>(events: seq<Event<W>>, r: Rule): nat
    decreases |events|
  {
    if events == [] then 0
    else (if events[0].CalledBack? && events[0].rule == r then 1 else 0) + Callbacks(events[1..], r)
  }

  lemma {:induction false} CallbacksAppend<W>(a: seq<Event<W>>, b: seq<Event<W>>, r: Rule)
    ensures Callbacks(a + b, r) == Callbacks(a, r) + Callbacks(b, r)
    decreases |a|
  {
    if a == [] {
      assert a + b == b;
    } else {
      assert (a + b)[1..] == a[1..] + b;
      CallbacksAppend(a[1..], b, r);
    }
  }

  /** `r` said that it is interested. */
  ghost predicate Reported<W>(events: seq<Event<W>>, r: Rule) {
    exists i :: 0 <= i < |events| && events[i].Asked? && events[i].rule == r && events[i].answer
  }

  /** The callback read or wrote its descriptor, or the rule was not interested right after it. */
  ghost predicate Served<W>(env: Env<W>, e: Event<W>)
    requires e.CalledBack?
  {
    var w' := env.callback(e.w, e.rule);
    || env.serviceCount(e.w, e.rule.fd, e.rule.direction) != env.serviceCount(w', e.rule.fd, e.rule.direction)
    || !env.interest(w', e.rule).0
  }

  ghost predicate AllServed<W>(env: Env<W>, events: seq<Event<W>>) {
    forall i :: 0 <= i < |events| && events[i].CalledBack? ==> Served(env, events[i])
  }

  lemma {:induction false} FirstPassKeeps<W>(env: Env<W>, w: W, rules: seq<Rule>)
    requires Distinct(rules)
    ensures var p := FirstPass(env, w, rules);
            |p.fds| == |p.kept| && Distinct(p.kept) && forall r :: r in p.kept ==> r in rules
    decreases |rules|
  {
    if rules != [] {
      assert Distinct(rules[1..]) && rules[0] !in rules[1..];
      FirstPassKeeps(env, Visit(env, w, rules[0]).w, rules[1..]);
    }
  }

  /** The first pass calls nobody back, and hears of interest only from rules it keeps. */
  lemma {:induction false} FirstPassQuiet<W>(env: Env<W>, w: W, rules: seq<Rule>, r: Rule)
    ensures var p := FirstPass(env, w, rules);
            && Callbacks(p.events, r) == 0 && AllServed(env, p.events)
            && (Reported(p.events, r) ==> r in p.kept)
    decreases |rules|
  {
    if rules != [] {
      var v := Visit(env, w, rules[0]);
      var rest := FirstPass(env, v.w, rules[1..]);
      FirstPassQuiet(env, v.w, rules[1..], r);
      assert v.events == [v.events[0]];
      assert [v.events[0]][1..] == [];
      CallbacksAppend(v.events, rest.events, r);
      AllServedAppend(env, v.events, rest.events);
      ReportedCons(v.events[0], rest.events, r);
    }
  }

  /** Nothing can come of a rule any more: nothing to read, or its descriptor is closed. */
  predicate Defunct<W>(env: Env<W>, w: W, r: Rule) {
    env.closed(w, r.fd) || (r.direction == In && env.eof(w, r.fd))
  }

  /**
   The first pass deals with every rule, in order, once: it cancels those that it finds
   defunct and asks the others.
   */
  lemma {:induction false} FirstPassVisits<W>(env: Env<W>, w: W, rules: seq<Rule>)
    ensures var events := FirstPass(env, w, rules).events;
            && |events| == |rules|
            && forall i :: 0 <= i < |rules| ==>
                 var e := events[i];
                 && (e.Cancelled? || e.Asked?) && e.rule == rules[i]
                 && (e.Cancelled? <==> Defunct(env, e.w, e.rule))
    decreases |rules|
  {
    if rules != [] {
      var v := Visit(env, w, rules[0]);
      FirstPassVisits(env, v.w, rules[1..]);
      var events := FirstPass(env, w, rules).events;
      assert forall i :: 0 < i < |rules| ==>
          rules[i] == rules[1..][i - 1] && events[i] == FirstPass(env, v.w, rules[1..]).events[i - 1];
    }
  }

  /** A poll entry asks for the direction of its rule if the rule reported interest, else for nothing. */
  lemma {:induction false} FirstPassReports<W>(env: Env<W>, w: W, rules: seq<Rule>, k: nat)
    requires Distinct(rules) && k < |FirstPass(env, w, rules).kept|
    ensures var p := FirstPass(env, w, rules);
            k < |p.fds| && p.fds[k].events == Requested(Reported(p.events, p.kept[k]), p.kept[k].direction)
    decreases |rules|
  {
    var r, v := rules[0], Visit(env, w, rules[0]);
    var rest := FirstPass(env, v.w, rules[1..]);
    assert Distinct(rules[1..]) && r !in rules[1..];
    FirstPassKeeps(env, v.w, rules[1..]);
    FirstPassQuiet(env, v.w, rules[1..], r);
    if |v.kept| <= k {
      FirstPassReports(env, v.w, rules[1..], k - |v.kept|);
    }
    VisitReports(env, w, r, rest, k);
  }

  /** The entry of one rule, in front of those of other rules. */
  lemma VisitReports<W>(env: Env<W>, w: W, r: Rule, rest: Pass<W>, k: nat)
    requires |rest.fds| == |rest.kept| && r !in rest.kept && !Reported(rest.events, r)
    requires var v := Visit(env, w, r);
             && k < |v.kept| + |rest.kept|
             && (|v.kept| <= k ==>
                   rest.fds[k - |v.kept|].events ==
                   Requested(Reported(rest.events, rest.kept[k - |v.kept|]), rest.kept[k - |v.kept|].direction))
    ensures var p := Join(Visit(env, w, r), rest);
            k < |p.fds| && p.fds[k].events == Requested(Reported(p.events, p.kept[k]), p.kept[k].direction)
  {
    var v := Visit(env, w, r);
    assert v.events == [v.events[0]] && |v.fds| == |v.kept|;
    ReportedCons(v.events[0], rest.events, Join(v, rest).kept[k]);
  }

  lemma SomethingToPollIff<W>(env: Env<W>, w: W, rules: seq<Rule>)
    requires Distinct(rules)
    ensures var p := FirstPass(env, w, rules);
            SomethingToPoll(p.fds) <==> exists r :: Reported(p.events, r)
  {
    var p := FirstPass(env, w, rules);
    FirstPassKeeps(env, w, rules);
    if SomethingToPoll(p.fds) {
      var k :| 0 <= k < |p.fds| && p.fds[k].events != 0;
      FirstPassReports(env, w, rules, k);
      assert Reported(p.events, p.kept[k]);
    }
    if r :| Reported(p.events, r) {
      FirstPassQuiet(env, w, rules, r);
      var k :| 0 <= k < |p.kept| && p.kept[k] == r;
      FirstPassReports(env, w, rules, k);
    }
  }

  lemma ReportedCons<W>(e: Event<W>, events: seq<Event<W>>, r: Rule)
    ensures Reported([e] + events, r) <==> (e.Asked? && e.rule == r && e.answer) || Reported(events, r)
  {
    assert ([e] + events)[0] == e;
    assert forall i :: 0 <= i < |events| ==> ([e] + events)[i + 1] == events[i];
  }

  /** The second pass calls nobody else back, nobody twice, and only what is ready; on success all of that. */
  lemma {:induction false} SecondPassCallbacks<W>(env: Env<W>, w: W, rules: seq<Rule>, fds: seq<PollFd>, r: Rule)
    requires |rules| == |fds| && Distinct(rules)
    ensures var s := SecondPass(env, w, rules, fds);
            && (r !in rules ==> Callbacks(s.events, r) == 0)
            && forall k :: 0 <= k < |rules| && rules[k] == r ==>
                 && Callbacks(s.events, r) <= (if IsReady(fds[k]) then 1 else 0)
                 && (s.outcome == Finished ==> Callbacks(s.events, r) == if IsReady(fds[k]) then 1 else 0)
    decreases |rules|
  {
    if rules != [] {
      var v := Serve(env, w, rules[0], fds[0]);
      assert Distinct(rules[1..]) && rules[0] !in rules[1..];
      ServeCallbacks(env, w, rules[0], fds[0], r);
      if v.outcome == Finished {
        SecondPassCallbacks(env, v.w, rules[1..], fds[1..], r);
        CallbacksAppend(v.events, SecondPass(env, v.w, rules[1..], fds[1..]).events, r);
      }
    }
  }

  lemma ServeCallbacks<W>(env: Env<W>, w: W, rule: Rule, p: PollFd, r: Rule)
    ensures var v := Serve(env, w, rule, p);
            && (rule != r ==> Callbacks(v.events, r) == 0)
            && (rule == r ==> Callbacks(v.events, r) <= (if IsReady(p) then 1 else 0))
            && (rule == r && v.outcome == Finished ==> Callbacks(v.events, r) == if IsReady(p) then 1 else 0)
  {
    var v := Serve(env, w, rule, p);
    if |v.events| == 1 {
      assert v.events[1..] == [];
    } else if |v.events| == 2 {
      assert v.events[1..] == [v.events[1]] && !v.events[1].CalledBack?;
      assert v.events[1..][1..] == [];
      assert Callbacks(v.events[1..], r) == 0;
    }
  }

  /** The busy-wait exception is thrown exactly if some callback left its rule ready and interested. */
  lemma {:induction false} BusyWaitIff<W>(env: Env<W>, w: W, rules: seq<Rule>, fds: seq<PollFd>)
    requires |rules| == |fds|
    ensures var s := SecondPass(env, w, rules, fds);
            s.outcome == BusyWait <==> !AllServed(env, s.events)
    decreases |rules|
  {
    if rules != [] {
      var v := Serve(env, w, rules[0], fds[0]);
      assert v.outcome == BusyWait <==> !AllServed(env, v.events) by {
        if v.outcome == BusyWait {
          assert v.events[0].CalledBack? && !Served(env, v.events[0]);
        }
      }
      if v.outcome == Finished {
        BusyWaitIff(env, v.w, rules[1..], fds[1..]);
        AllServedAppend(env, v.events, SecondPass(env, v.w, rules[1..], fds[1..]).events);
      }
    }
  }

  lemma AllServedAppend<W>(env: Env<W>, a: seq<Event<W>>, b: seq<Event<W>>)
    ensures AllServed(env, a + b) <==> AllServed(env, a) && AllServed(env, b)
  {
    if AllServed(env, a + b) {
      assert forall i :: 0 <= i < |a| ==> (a + b)[i] == a[i];
      assert forall i :: 0 <= i < |b| ==> (a + b)[|a| + i] == b[i];
    }
  }

  /** The rules that are not defunct, in order. */
  function Unhung(rules: seq<Rule>, fds: seq<PollFd>): seq<Rule>
    requires |rules| == |fds|
    decreases |rules|
  {
    if rules == [] then []
    else (if HangupOnly(fds[0]) then [] else [rules[0]]) + Unhung(rules[1..], fds[1..])
  }

  lemma {:induction false} SecondPassKeeps<W>(env: Env<W>, w: W, rules: seq<Rule>, fds: seq<PollFd>)
    requires |rules| == |fds|
    ensures var s := SecondPass(env, w, rules, fds);
            && (s.outcome == Finished ==>
                  s.kept == Unhung(rules, fds) && forall k :: 0 <= k < |fds| ==> !HasError(fds[k]))
            && (s.outcome == FdError ==> exists k :: 0 <= k < |fds| && HasError(fds[k]))
    decreases |rules|
  {
    if rules != [] {
      var v := Serve(env, w, rules[0], fds[0]);
      if v.outcome == Finished {
        SecondPassKeeps(env, v.w, rules[1..], fds[1..]);
        assert forall k :: 0 < k < |fds| ==> fds[k] == fds[1..][k - 1];
        if SecondPass(env, v.w, rules[1..], fds[1..]).outcome == FdError {
          var k :| 0 <= k < |fds[1..]| && HasError(fds[1..][k]);
          assert HasError(fds[k + 1]);
        }
      } else if v.outcome == FdError {
        assert HasError(fds[0]);
      }
    }
  }

  /** How serving one rule ends. */
  lemma ServeEnds<W>(env: Env<W>, w: W, r: Rule, p: PollFd)
    ensures var v := Serve(env, w, r, p);
            && v.kept == (if v.outcome == Finished && HangupOnly(p) then [] else [r])
            && (v.outcome == FdError <==> HasError(p))
            && (v.outcome == BusyWait ==> IsReady(p) && Callbacks(v.events, r) > 0)
  {
  }

  /** `k` is where a throw stops the pass. */
  ghost predicate ThrownAt<W>(s: Service<W>, rules: seq<Rule>, fds: seq<PollFd>, k: nat)
    requires |rules| == |fds|
  {
    && k < |rules| && s.kept == Unhung(rules[..k], fds[..k]) + rules[k..]
    && (forall j :: 0 <= j < k ==> !HasError(fds[j]))
    && (s.outcome == FdError <==> HasError(fds[k]))
    && (s.outcome == BusyWait ==> IsReady(fds[k]) && Callbacks(s.events, rules[k]) > 0)
  }

  /**
   After a throw the defunct rules before the culprit are gone, all others are still
   there, no entry before it had an error, and the culprit is at fault.
   */
  lemma {:induction false} SecondPassThrowsAt<W>(env: Env<W>, w: W, rules: seq<Rule>, fds: seq<PollFd>) returns (k: nat)
    requires |rules| == |fds| && SecondPass(env, w, rules, fds).outcome != Finished
    ensures ThrownAt(SecondPass(env, w, rules, fds), rules, fds, k)
    decreases |rules|
  {
    var v := Serve(env, w, rules[0], fds[0]);
    ServeEnds(env, w, rules[0], fds[0]);
    if v.outcome != Finished {
      k := 0;
      assert rules[0..] == rules && [rules[0]] + rules[1..] == rules;
      assert Unhung(rules[..0], fds[..0]) == [];
    } else {
      var rest := SecondPass(env, v.w, rules[1..], fds[1..]);
      k := SecondPassThrowsAt(env, v.w, rules[1..], fds[1..]);
      ThrownAtCons(v, rest, rules, fds, k);
      k := k + 1;
    }
  }

  lemma ThrownAtCons<W>(v: Service<W>, rest: Service<W>, rules: seq<Rule>, fds: seq<PollFd>, k: nat)
    requires |rules| == |fds| > 0 && ThrownAt(rest, rules[1..], fds[1..], k)
    requires v.kept == (if HangupOnly(fds[0]) then [] else [rules[0]]) && !HasError(fds[0])
    ensures ThrownAt(After(v, rest), rules, fds, k + 1)
  {
    UnhungCons(rules, fds, k + 1);
    assert rules[k + 1..] == rules[1..][k..];
    AppendAssoc(v.kept, Unhung(rules[1..][..k], fds[1..][..k]), rules[k + 1..]);
    CallbacksAppend(v.events, rest.events, rules[k + 1]);
    assert forall i :: 0 < i <= k ==> fds[i] == fds[1..][i - 1];
  }

  lemma UnhungCons(rules: seq<Rule>, fds: seq<PollFd>, k: nat)
    requires |rules| == |fds| && 0 < k <= |rules|
    ensures Unhung(rules[..k], fds[..k]) ==
            (if HangupOnly(fds[0]) then [] else [rules[0]]) + Unhung(rules[1..][..k - 1], fds[1..][..k - 1])
  {
    assert rules[..k][1..] == rules[1..][..k - 1] && fds[..k][1..] == fds[1..][..k - 1];
  }

  // ---------------------------------------------------------- the guarantees of a call

  /** The poll list as poll(2) left it. */
  function PolledFds<W>(env: Env<W>, w: W, rules: seq<Rule>, timeout: int): seq<PollFd> {
    var p := FirstPass(env, w, rules);
    Fill(p.fds, ReventsOf(env.poll(p.w, p.fds, timeout).0))
  }

  /** Something is asked for, and poll neither times out nor is interrupted: the second pass is reached. */
  predicate Handles<W>(env: Env<W>, w: W, rules: seq<Rule>, timeout: int) {
    var p := FirstPass(env, w, rules);
    var answer := env.poll(p.w, p.fds, timeout).0;
    SomethingToPoll(p.fds) && !answer.TimedOut? && !answer.Interrupted?
  }

  /** The parts of a call that reaches its second pass. */
  lemma CallUnfolds<W>(env: Env<W>, w: W, rules: seq<Rule>, timeout: int)
    requires Handles(env, w, rules, timeout)
    ensures var c, p, fds := Wait(env, w, rules, timeout), FirstPass(env, w, rules), PolledFds(env, w, rules, timeout);
            && |fds| == |p.kept|
            && var s := SecondPass(env, env.poll(p.w, p.fds, timeout).1, p.kept, fds);
               && c.rules == s.kept && c.events == p.events + [Polled(p.fds, timeout, p.w)] + s.events
               && (c.result == ThrewBusyWait <==> s.outcome == BusyWait)
               && (c.result == Success <==> s.outcome == Finished)
  {
    FirstPassPairs(env, w, rules);
  }

  /** Every other call ends before that. */
  lemma CallEndsEarly<W>(env: Env<W>, w: W, rules: seq<Rule>, timeout: int)
    requires !Handles(env, w, rules, timeout)
    ensures var c, p := Wait(env, w, rules, timeout), FirstPass(env, w, rules);
            && c.rules == p.kept && c.result in {Exit, Timeout}
            && (c.events == p.events || c.events == p.events + [Polled(p.fds, timeout, p.w)])
  {
  }

  /**
   However a call ends: a rule is called back at most once, and only if it reported
   interest in the first pass of that very call.
   */
  lemma EveryCall<W>(env: Env<W>, w: W, rules: seq<Rule>, timeout: int, r: Rule)
    requires Distinct(rules)
    ensures var c, p := Wait(env, w, rules, timeout), FirstPass(env, w, rules);
            && p.events <= c.events
            && Callbacks(c.events, r) <= 1
            && (Callbacks(c.events, r) == 1 ==> r in rules && Reported(p.events, r))
  {
    var p := FirstPass(env, w, rules);
    var polled := Polled(p.fds, timeout, p.w);
    FirstPassKeeps(env, w, rules);
    FirstPassQuiet(env, w, rules, r);
    PolledIsNoCallback(env, p.events, polled, r);
    if !Handles(env, w, rules, timeout) {
      CallEndsEarly(env, w, rules, timeout);
    } else {
      var fds := PolledFds(env, w, rules, timeout);
      CallUnfolds(env, w, rules, timeout);
      SecondPassCallbacks(env, env.poll(p.w, p.fds, timeout).1, p.kept, fds, r);
      CallbacksAppend(p.events + [polled], SecondPass(env, env.poll(p.w, p.fds, timeout).1, p.kept, fds).events, r);
      ReadyWasReported(env, w, rules, timeout);
    }
  }

  /** A call throws the busy-wait exception exactly if some callback in it was not served. */
  lemma ThrowsBusyWaitIff<W>(env: Env<W>, w: W, rules: seq<Rule>, timeout: int)
    ensures var c := Wait(env, w, rules, timeout);
            c.result == ThrewBusyWait <==> !AllServed(env, c.events)
  {
    var p := FirstPass(env, w, rules);
    var polled := Polled(p.fds, timeout, p.w);
    var r := Rule(0, 0, In);
    FirstPassQuiet(env, w, rules, r);
    PolledIsNoCallback(env, p.events, polled, r);
    if !Handles(env, w, rules, timeout) {
      CallEndsEarly(env, w, rules, timeout);
    } else {
      var fds := PolledFds(env, w, rules, timeout);
      CallUnfolds(env, w, rules, timeout);
      BusyWaitIff(env, env.poll(p.w, p.fds, timeout).1, p.kept, fds);
      AllServedAppend(env, p.events + [polled], SecondPass(env, env.poll(p.w, p.fds, timeout).1, p.kept, fds).events);
    }
  }

  lemma PolledIsNoCallback<W>(env: Env<W>, events: seq<Event<W>>, e: Event<W>, r: Rule)
    requires e.Polled?
    ensures Callbacks(events + [e], r) == Callbacks(events, r)
    ensures AllServed(env, events + [e]) <==> AllServed(env, events)
  {
    CallbacksAppend(events, [e], r);
    assert [e][1..] == [];
    AllServedAppend(env, events, [e]);
  }

  lemma ReadyWasReported<W>(env: Env<W>, w: W, rules: seq<Rule>, timeout: int)
    requires Distinct(rules)
    ensures var p, fds := FirstPass(env, w, rules), PolledFds(env, w, rules, timeout);
            && |fds| == |p.kept|
            && forall k :: 0 <= k < |p.kept| && IsReady(fds[k]) ==> Reported(p.events, p.kept[k])
  {
    var p, fds := FirstPass(env, w, rules), PolledFds(env, w, rules, timeout);
    FirstPassKeeps(env, w, rules);
    forall k | 0 <= k < |p.kept| && IsReady(fds[k])
      ensures Reported(p.events, p.kept[k])
    {
      assert fds[k].events == p.fds[k].events;
      NothingAskedNothingReady(fds[k]);
      FirstPassReports(env, w, rules, k);
    }
  }

  lemma NothingAskedNothingReady(p: PollFd)
    ensures p.events == 0 ==> !IsReady(p)
  {
  }

  /**
   After Success: exactly the rules whose requested event came were called back, once
   each, and each was served; the defunct ones are gone and the others stay in order.
   */
  lemma SuccessfulCall<W>(env: Env<W>, w: W, rules: seq<Rule>, timeout: int, r: Rule)
    requires Distinct(rules) && Wait(env, w, rules, timeout).result == Success
    ensures var c, p, fds := Wait(env, w, rules, timeout), FirstPass(env, w, rules), PolledFds(env, w, rules, timeout);
            && |fds| == |p.kept|
            && (forall k :: 0 <= k < |p.kept| && p.kept[k] == r ==>
                  Callbacks(c.events, r) == if IsReady(fds[k]) then 1 else 0)
            && (r !in p.kept ==> Callbacks(c.events, r) == 0)
            && AllServed(env, c.events)
            && c.rules == Unhung(p.kept, fds) && (forall k :: 0 <= k < |fds| ==> !HasError(fds[k]))
  {
    var p, fds := FirstPass(env, w, rules), PolledFds(env, w, rules, timeout);
    CallUnfolds(env, w, rules, timeout);
    ThrowsBusyWaitIff(env, w, rules, timeout);
    var w' := env.poll(p.w, p.fds, timeout).1;
    FirstPassKeeps(env, w, rules);
    FirstPassQuiet(env, w, rules, r);
    SecondPassKeeps(env, w', p.kept, fds);
    SecondPassCallbacks(env, w', p.kept, fds, r);
    PolledIsNoCallback(env, p.events, Polled(p.fds, timeout, p.w), r);
    CallbacksAppend(p.events + [Polled(p.fds, timeout, p.w)], SecondPass(env, w', p.kept, fds).events, r);
  }

  /** These guarantees hold for the next call in every state that a loop can reach. */
  lemma EveryCallOfEveryRun<W>(env: Env<W>, w: W, ops: seq<LoopOp<W>>, timeout: int, r: Rule)
    ensures var s := Run(env, LoopState(w, [], 0, []), ops);
            var c := Wait(env, s.w, s.rules, timeout);
            && Callbacks(c.events, r) <= 1
            && (Callbacks(c.events, r) == 1 ==> r in s.rules && Reported(FirstPass(env, s.w, s.rules).events, r))
            && (c.result == ThrewBusyWait <==> !AllServed(env, c.events))
  {
    EveryRun(env, w, ops);
    var s := Run(env, LoopState(w, [], 0, []), ops);
    EveryCall(env, s.w, s.rules, timeout, r);
    ThrowsBusyWaitIff(env, s.w, s.rules, timeout);
  }
}
