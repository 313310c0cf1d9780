/**
 The results of wait_next_event against its documentation (eventloop.cc:31-60 and
 eventloop.hh:42-47): where the code does less than it says, exactly when.
 */
module EventLoopDocs {
  import opened EventTrace
  import opened EventLoops
  import opened EventLoopRuns

  // --------------------------------------------------- the history explains the world

  function WorldAfter<W>(env: Env<W>, e: Event<W>): W
    requires !e.Added?
  {
    match e
    case Asked(r, w, _) => env.interest(w, r).1
    case Cancelled(r, w) => env.cancel(w, r)
    case CalledBack(r, w) => env.callback(w, r)
    case Polled(fds, timeout, w) => env.poll(w, fds, timeout).1
  }

  /** The events lead from `w` to `w'`, each finding the world as the one before has left it. */
  ghost predicate Chain<W>(env: Env<W>, w: W, events: seq<Event<W>>, w': W)
    decreases |events|
  {
    if events == [] then w == w'
    else
      var e := events[0];
      && !e.Added? && e.w == w
      && (e.Asked? ==> e.answer == env.interest(w, e.rule).0)
      && Chain(env, WorldAfter(env, e), events[1..], w')
  }

  lemma {:induction false} ChainAppend<W>(env: Env<W>, u: W, a: seq<Event<W>>, v: W, b: seq<Event<W>>, w: W)
    requires Chain(env, u, a, v) && Chain(env, v, b, w)
    ensures Chain(env, u, a + b, w)
    decreases |a|
  {
    if a == [] {
      assert a + b == b;
    } else {
      assert (a + b)[1..] == a[1..] + b;
      ChainAppend(env, WorldAfter(env, a[0]), a[1..], v, b, w);
    }
  }

  lemma {:induction false} FirstPassChain<W>(env: Env<W>, w: W, rules: seq<Rule>)
    ensures var p := FirstPass(env, w, rules); Chain(env, w, p.events, p.w)
    decreases |rules|
  {
    if rules != [] {
      var v := Visit(env, w, rules[0]);
      FirstPassChain(env, v.w, rules[1..]);
      assert v.events[1..] == [];
      ChainAppend(env, w, v.events, v.w, FirstPass(env, v.w, rules[1..]).events, FirstPass(env, v.w, rules[1..]).w);
    }
  }

  lemma ServeChain<W>(env: Env<W>, w: W, r: Rule, p: PollFd)
    ensures var v := Serve(env, w, r, p); Chain(env, w, v.events, v.w)
  {
  }

  lemma {:induction false} SecondPassChain<W>(env: Env<W>, w: W, rules: seq<Rule>, fds: seq<PollFd>)
    requires |rules| == |fds|
    ensures var s := SecondPass(env, w, rules, fds); Chain(env, w, s.events, s.w)
    decreases |rules|
  {
    if rules != [] {
      var v := Serve(env, w, rules[0], fds[0]);
      ServeChain(env, w, rules[0], fds[0]);
      if v.outcome == Finished {
        SecondPassChain(env, v.w, rules[1..], fds[1..]);
        var rest := SecondPass(env, v.w, rules[1..], fds[1..]);
        ChainAppend(env, w, v.events, v.w, rest.events, rest.w);
      }
    }
  }

  /** A call affects the world only by the calls in its history, in that order. */
  lemma CallChain<W>(env: Env<W>, w: W, rules: seq<Rule>, timeout: int)
    ensures var c := Wait(env, w, rules, timeout); Chain(env, w, c.events, c.w)
  {
    var p := FirstPass(env, w, rules);
    FirstPassPairs(env, w, rules);
    FirstPassChain(env, w, rules);
    if SomethingToPoll(p.fds) {
      var (answer, w') := env.poll(p.w, p.fds, timeout);
      var polled := Polled(p.fds, timeout, p.w);
      assert [polled][1..] == [];
      ChainAppend(env, w, p.events, p.w, [polled], w');
      ConcludeChain(env, w, p.events + [polled], w', p.kept, p.fds, answer);
    }
  }

  lemma ConcludeChain<W>(env: Env<W>, u: W, events: seq<Event<W>>, w: W, rules: seq<Rule>, fds: seq<PollFd>,
                         answer: PollAnswer)
    requires |rules| == |fds| && Chain(env, u, events, w)
    ensures var c := Conclude(env, w, rules, fds, answer, events); Chain(env, u, c.events, c.w)
  {
    if answer.Answered? || answer.Failed? {
      var s := SecondPass(env, w, rules, Fill(fds, ReventsOf(answer)));
      SecondPassChain(env, w, rules, Fill(fds, ReventsOf(answer)));
      ChainAppend(env, u, events, w, s.events, s.w);
    }
  }

  // ------------------------------------------------------------------ Exit and Timeout

  /**
   Exit means that no rule reported interest or that a signal came, and nothing else: a
   call whose second pass cancels the last rule still returns Success.
   */
  lemma ExitIff<W>(env: Env<W>, w: W, rules: seq<Rule>, timeout: int)
    requires Distinct(rules)
    ensures var c, p := Wait(env, w, rules, timeout), FirstPass(env, w, rules);
            && (c.result == Exit <==>
                (!exists r :: Reported(p.events, r)) || env.poll(p.w, p.fds, timeout).0 == Interrupted)
            && (c.result == Timeout <==>
                (exists r :: Reported(p.events, r)) && env.poll(p.w, p.fds, timeout).0 == TimedOut)
            && (c.result in {Exit, Timeout} ==> c.rules == p.kept)
  {
    SomethingToPollIff(env, w, rules);
  }

  // ------------------------------------------------------------------- an emptied list

  lemma {:induction false} UnhungEmptyIff(rules: seq<Rule>, fds: seq<PollFd>)
    requires |rules| == |fds|
    ensures Unhung(rules, fds) == [] <==> forall k :: 0 <= k < |fds| ==> HangupOnly(fds[k])
    decreases |rules|
  {
    if rules != [] {
      UnhungEmptyIff(rules[1..], fds[1..]);
      assert forall k :: 0 < k < |fds| ==> fds[k] == fds[1..][k - 1];
      if Unhung(rules, fds) != [] && HangupOnly(fds[0]) {
        var k :| 0 <= k < |fds[1..]| && !HangupOnly(fds[1..][k]);
        assert !HangupOnly(fds[k + 1]);
      }
    }
  }

  /** The second pass empties the list exactly if all that came for every entry is a hang-up. */
  lemma SecondPassEmptiesIff<W>(env: Env<W>, w: W, rules: seq<Rule>, fds: seq<PollFd>)
    requires |rules| == |fds|
    ensures var s := SecondPass(env, w, rules, fds);
            && (s.kept == [] <==> forall k :: 0 <= k < |fds| ==> HangupOnly(fds[k]) && !HasError(fds[k]))
            && (s.kept == [] ==> s.outcome == Finished)
  {
    var s := SecondPass(env, w, rules, fds);
    if s.outcome == Finished {
      SecondPassKeeps(env, w, rules, fds);
      UnhungEmptyIff(rules, fds);
    } else {
      var k := SecondPassThrowsAt(env, w, rules, fds);
      assert rules[k] in s.kept by {
        assert s.kept[|Unhung(rules[..k], fds[..k])|] == rules[k..][0];
      }
      assert s.outcome == FdError || s.outcome == BusyWait;
      assert HasError(fds[k]) || !HangupOnly(fds[k]);
    }
  }

  /**
   The documented promise that a call which leaves no rule returns Exit holds exactly
   unless poll reports a lone hang-up for every rule: then the second pass cancels them
   all and the call returns Success.
   */
  lemma EmptiedExitIff<W>(env: Env<W>, w: W, rules: seq<Rule>, timeout: int)
    ensures var c, p, fds := Wait(env, w, rules, timeout), FirstPass(env, w, rules), PolledFds(env, w, rules, timeout);
            && ((c.rules == [] ==> c.result == Exit) <==>
                !(&& SomethingToPoll(p.fds) && env.poll(p.w, p.fds, timeout).0.Answered?
                  && forall k :: 0 <= k < |fds| ==> HangupOnly(fds[k]) && !HasError(fds[k])))
            && (c.rules == [] && c.result != Exit ==> c.result == Success)
  {
    var p, fds := FirstPass(env, w, rules), PolledFds(env, w, rules, timeout);
    FirstPassPairs(env, w, rules);
    if Handles(env, w, rules, timeout) {
      CallUnfolds(env, w, rules, timeout);
      SecondPassEmptiesIff(env, env.poll(p.w, p.fds, timeout).1, p.kept, fds);
      if !env.poll(p.w, p.fds, timeout).0.Answered? {
        assert fds[0].revents == 0 && !HangupOnly(fds[0]) by {
          NothingHangs(fds[0]);
        }
      }
    } else {
      CallEndsEarly(env, w, rules, timeout);
    }
  }

  lemma NothingHangs(p: PollFd)
    requires p.revents == 0
    ensures !HangupOnly(p)
  {
  }

  /** One rule that waits for input, and a descriptor whose peer has hung up. */
  function DefunctEnv(): Env<()> {
    Env((fd: nat) => fd, (w, fd: nat) => false, (w, fd: nat) => false, (w, fd: nat, d) => 0,
        (w, r: Rule) => (true, ()), (w, r) => (), (w, r) => (),
        (w, fds, timeout) => (Answered([POLLHUP]), ()))
  }

  /** The only rule is cancelled, the list is empty, and the call returns Success. */
  lemma EmptiedWithSuccess(timeout: int)
    ensures var r := Rule(0, 10, In);
            var c := Wait(DefunctEnv(), (), [r], timeout);
            c.rules == [] && c.result == Success && Cancels(c.events, r) == 1
  {
    var env, r := DefunctEnv(), Rule(0, 10, In);
    assert [r][1..] == [];
    var p := FirstPass(env, (), [r]);
    assert p == Pass((), [r], [PollFd(10, POLLIN, 0)], [Asked(r, (), true)]);
    assert p.fds[0].events != 0;
    var fds := Fill(p.fds, [POLLHUP]);
    assert fds == [PollFd(10, POLLIN, POLLHUP)] && fds[1..] == [];
    var v := Serve(env, (), r, fds[0]);
    assert v == Service((), [], [Cancelled(r, ())], Finished);
    var events := [Asked(r, (), true), Polled(p.fds, timeout, ()), Cancelled(r, ())];
    assert Wait(env, (), [r], timeout).events == events;
    assert events[..2][..1][..0] == [] && !events[..2][..1][0].Cancelled? && !events[..2][1].Cancelled?;
    assert Cancels(events[..2][..1], r) == 0 && Cancels(events[..2], r) == 0;
  }

  // --------------------------------------------------------------------- idle successes

  /** Of the bits that poll(2) may set: those asked for and the three that come unasked. */
  predicate Conforms(p: PollFd) {
    p.revents & !(p.events | POLLERR | POLLHUP | POLLNVAL) == 0
  }

  /** Nothing came, or a hang-up on an entry that asked for nothing. */
  predicate Idle(p: PollFd) {
    p.revents == 0 || (p.revents == POLLHUP && p.events == 0)
  }

  lemma IdleServe<W>(env: Env<W>, w: W, r: Rule, p: PollFd)
    requires Conforms(p)
    ensures var v := Serve(env, w, r, p);
            && (v.outcome == Finished && v.events == [] <==> Idle(p))
            && (Idle(p) ==> v == Service(w, [r], [], Finished))
  {
  }

  /**
   The second pass does nothing at all, and the call reports Success, exactly if every
   entry is idle.  The documentation promises that some rule was triggered.
   */
  lemma {:induction false} IdleSuccessIff<W>(env: Env<W>, w: W, rules: seq<Rule>, fds: seq<PollFd>)
    requires |rules| == |fds| && forall k :: 0 <= k < |fds| ==> Conforms(fds[k])
    ensures var s := SecondPass(env, w, rules, fds);
            && (s.outcome == Finished && s.events == [] <==> forall k :: 0 <= k < |fds| ==> Idle(fds[k]))
            && ((forall k :: 0 <= k < |fds| ==> Idle(fds[k])) ==> s == Service(w, rules, [], Finished))
    decreases |rules|
  {
    if rules != [] {
      IdleServe(env, w, rules[0], fds[0]);
      var v := Serve(env, w, rules[0], fds[0]);
      assert forall k :: 0 < k < |fds| ==> fds[k] == fds[1..][k - 1];
      IdleSuccessIff(env, v.w, rules[1..], fds[1..]);
      assert (forall k :: 0 <= k < |fds| ==> Idle(fds[k])) <==>
             Idle(fds[0]) && forall k :: 0 <= k < |fds[1..]| ==> Idle(fds[1..][k]) by {
        if forall k :: 0 <= k < |fds| ==> Idle(fds[k]) {
          forall k | 0 <= k < |fds[1..]|
            ensures Idle(fds[1..][k])
          {
            assert fds[1..][k] == fds[k + 1];
          }
        }
      }
    }
  }

  ghost predicate NobodyCalled<W>(events: seq<Event<W>>) {
    forall i :: 0 <= i < |events| ==> !events[i].CalledBack?
  }

  lemma {:induction false} QuietPassIff<W>(env: Env<W>, w: W, rules: seq<Rule>, fds: seq<PollFd>)
    requires |rules| == |fds|
    ensures var s := SecondPass(env, w, rules, fds);
            s.outcome == Finished && NobodyCalled(s.events) <==>
            forall k :: 0 <= k < |fds| ==> !IsReady(fds[k]) && !HasError(fds[k])
    decreases |rules|
  {
    if rules != [] {
      QuietServe(env, w, rules[0], fds[0]);
      var v := Serve(env, w, rules[0], fds[0]);
      if v.outcome == Finished {
        var rest := SecondPass(env, v.w, rules[1..], fds[1..]);
        QuietPassIff(env, v.w, rules[1..], fds[1..]);
        NobodyCalledAppend(v.events, rest.events);
      }
      assert (forall k :: 0 <= k < |fds| ==> !IsReady(fds[k]) && !HasError(fds[k])) <==>
             && !IsReady(fds[0]) && !HasError(fds[0])
             && forall k :: 0 <= k < |fds[1..]| ==> !IsReady(fds[1..][k]) && !HasError(fds[1..][k]) by {
        assert forall k :: 0 < k < |fds| ==> fds[k] == fds[1..][k - 1];
        assert forall k :: 0 <= k < |fds[1..]| ==> fds[1..][k] == fds[k + 1];
      }
    }
  }

  lemma QuietServe<W>(env: Env<W>, w: W, r: Rule, p: PollFd)
    ensures var v := Serve(env, w, r, p);
            v.outcome == Finished && NobodyCalled(v.events) <==> !IsReady(p) && !HasError(p)
  {
    var v := Serve(env, w, r, p);
    if IsReady(p) && !HasError(p) {
      assert v.events[0].CalledBack?;
    }
  }

  lemma NobodyCalledAppend<W>(a: seq<Event<W>>, b: seq<Event<W>>)
    ensures NobodyCalled(a + b) <==> NobodyCalled(a) && NobodyCalled(b)
  {
    if NobodyCalled(a + b) {
      assert forall i :: 0 <= i < |a| ==> (a + b)[i] == a[i];
      assert forall i :: 0 <= i < |b| ==> (a + b)[|a| + i] == b[i];
    }
  }

  /**
   Success is documented as "at least one rule was triggered".  A call returns Success
   and has called nobody back exactly if poll answered or failed, and no entry has what
   was asked for, or an error.
   */
  lemma IdleCallIff<W>(env: Env<W>, w: W, rules: seq<Rule>, timeout: int)
    ensures var c, fds := Wait(env, w, rules, timeout), PolledFds(env, w, rules, timeout);
            c.result == Success && NobodyCalled(c.events) <==>
            && Handles(env, w, rules, timeout)
            && forall k :: 0 <= k < |fds| ==> !IsReady(fds[k]) && !HasError(fds[k])
  {
    if Handles(env, w, rules, timeout) {
      var p, fds := FirstPass(env, w, rules), PolledFds(env, w, rules, timeout);
      var w' := env.poll(p.w, p.fds, timeout).1;
      CallUnfolds(env, w, rules, timeout);
      FirstPassVisits(env, w, rules);
      NobodyCalledAppend(p.events, [Polled(p.fds, timeout, p.w)]);
      NobodyCalledAppend(p.events + [Polled(p.fds, timeout, p.w)], SecondPass(env, w', p.kept, fds).events);
      QuietPassIff(env, w', p.kept, fds);
    } else {
      CallEndsEarly(env, w, rules, timeout);
    }
  }

  /** An error of poll other than a signal is not thrown: the call reports Success and has done nothing. */
  lemma PollErrorSwallowed<W>(env: Env<W>, w: W, rules: seq<Rule>, timeout: int)
    requires var p := FirstPass(env, w, rules);
             SomethingToPoll(p.fds) && env.poll(p.w, p.fds, timeout).0 == Failed
    ensures var c, p := Wait(env, w, rules, timeout), FirstPass(env, w, rules);
            c == Call(env.poll(p.w, p.fds, timeout).1, p.kept, p.events + [Polled(p.fds, timeout, p.w)], Success)
  {
    var p := FirstPass(env, w, rules);
    FirstPassPairs(env, w, rules);
    var fds := Fill(p.fds, []);
    forall k | 0 <= k < |fds|
      ensures Conforms(fds[k]) && Idle(fds[k])
    {
      NothingConforms(fds[k]);
    }
    IdleSuccessIff(env, env.poll(p.w, p.fds, timeout).1, p.kept, fds);
  }

  lemma NothingConforms(p: PollFd)
    requires p.revents == 0
    ensures Conforms(p)
  {
  }

  /** One rule waits for input that does not come; the peer of an uninterested one has hung up. */
  function HangupEnv(): Env<()> {
    Env((fd: nat) => fd, (w, fd: nat) => false, (w, fd: nat) => false, (w, fd: nat, d) => 0,
        (w, r: Rule) => (r.id == 0, ()), (w, r) => (), (w, r) => (),
        (w, fds, timeout) => (Answered([0, POLLHUP]), ()))
  }

  /** Such a loop never blocks: every call reports Success at once, calls nobody, and changes nothing. */
  lemma HangupSpins(timeout: int)
    ensures var rules := [Rule(0, 10, In), Rule(1, 11, In)];
            var c := Wait(HangupEnv(), (), rules, timeout);
            && c.result == Success && c.rules == rules && c.w == ()
            && forall i :: 0 <= i < |c.events| ==> !c.events[i].CalledBack? && !c.events[i].Cancelled?
  {
    var env, r0, r1 := HangupEnv(), Rule(0, 10, In), Rule(1, 11, In);
    var p := FirstPass(env, (), [r0, r1]);
    HangupFirstPass();
    assert p.fds[0].events != 0;
    var fds := Fill(p.fds, [0, POLLHUP]);
    assert fds == [PollFd(10, POLLIN, 0), PollFd(11, 0, POLLHUP)];
    NothingConforms(fds[0]);
    HangupConforms(fds[1]);
    IdleSuccessIff(env, (), [r0, r1], fds);
  }

  lemma HangupFirstPass()
    ensures var r0, r1 := Rule(0, 10, In), Rule(1, 11, In);
            FirstPass(HangupEnv(), (), [r0, r1]) ==
            Pass((), [r0, r1], [PollFd(10, POLLIN, 0), PollFd(11, 0, 0)], [Asked(r0, (), true), Asked(r1, (), false)])
  {
    var env, r0, r1 := HangupEnv(), Rule(0, 10, In), Rule(1, 11, In);
    assert [r0, r1][1..] == [r1] && [r1][1..] == [];
    assert Visit(env, (), r0) == Pass((), [r0], [PollFd(10, POLLIN, 0)], [Asked(r0, (), true)]);
    assert Visit(env, (), r1) == Pass((), [r1], [PollFd(11, 0, 0)], [Asked(r1, (), false)]);
    assert FirstPass(env, (), [r1]) == Join(Visit(env, (), r1), FirstPass(env, (), []));
  }

  lemma HangupConforms(p: PollFd)
    requires p.revents == POLLHUP
    ensures Conforms(p)
  {
  }
}
