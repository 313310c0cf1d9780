/**
 What becomes of every rule for every answer of poll(2), in the numbers that poll.h gives
 its bits: 0x01 for input, 0x04 for output, and unasked 0x08 for an error, 0x10 for a
 hang-up, 0x20 for a descriptor that is not open.
 */
module EventLoopBits {
  import opened Bytes
  import opened EventTrace
  import opened EventLoops
  import opened EventLoopRuns

  datatype Fate = Fails | IsCalled | IsCancelled | IsLeft

  /** Data that can still be read goes before a hang-up, an error before both. */
  function FateOf(asked: bool, d: Direction, revents: bv16): Fate {
    if revents & 0x08 != 0 || revents & 0x20 != 0 then Fails
    else if asked && revents & Requested(true, d) != 0 then IsCalled
    else if asked && revents & 0x10 != 0 then IsCancelled
    else IsLeft
  }

  /** The poll entry asks for nothing, or for the direction of its rule. */
  ghost predicate Awaits(p: PollFd, r: Rule, fate: Fate) {
    exists asked :: p.events == Requested(asked, r.direction) && fate == FateOf(asked, r.direction, p.revents)
  }

  lemma ServeByBits<W>(env: Env<W>, w: W, r: Rule, p: PollFd, fate: Fate)
    requires Awaits(p, r, fate)
    ensures var v := Serve(env, w, r, p);
            match fate
            case Fails => v == Service(w, [r], [], FdError)
            case IsCalled =>
              && v.kept == [r] && 1 <= |v.events| <= 2 && v.events[0] == CalledBack(r, w)
              && (|v.events| == 2 ==> v.events[1].Asked?)
              && v.outcome == if Served(env, v.events[0]) then Finished else BusyWait
            case IsCancelled => v == Service(env.cancel(w, r), [], [Cancelled(r, w)], Finished)
            case IsLeft => v == Service(w, [r], [], Finished)
  {
  }

  // ------------------------------------------------------------------- a whole pass

  datatype Deed = Called(rule: Rule) | Gone(rule: Rule)

  function DeedOf<W>(e: Event<W>): seq<Deed> {
    match e
    case CalledBack(r, _) => [Called(r)]
    case Cancelled(r, _) => [Gone(r)]
    case _ => []
  }

  /** Who was called back and who was cancelled, in order. */
  function Deeds<W>(events: seq<Event<W>>): seq<Deed>
    decreases |events|
  {
    if events == [] then [] else DeedOf(events[0]) + Deeds(events[1..])
  }

  function DueOf(r: Rule, fate: Fate): seq<Deed> {
    match fate
    case IsCalled => [Called(r)]
    case IsCancelled => [Gone(r)]
    case _ => []
  }

  /** Who should be. */
  function Due(rules: seq<Rule>, fates: seq<Fate>): seq<Deed>
    requires |rules| == |fates|
    decreases |rules|
  {
    if rules == [] then [] else DueOf(rules[0], fates[0]) + Due(rules[1..], fates[1..])
  }

  function LeftOf(r: Rule, fate: Fate): seq<Rule> {
    if fate == IsCancelled then [] else [r]
  }

  /** The rules that nobody cancels. */
  function Left(rules: seq<Rule>, fates: seq<Fate>): seq<Rule>
    requires |rules| == |fates|
    decreases |rules|
  {
    if rules == [] then []
    else LeftOf(rules[0], fates[0]) + Left(rules[1..], fates[1..])
  }

  lemma {:induction false} DeedsAppend<W>(a: seq<Event<W>>, b: seq<Event<W>>)
    ensures Deeds(a + b) == Deeds(a) + Deeds(b)
    decreases |a|
  {
    if a == [] {
      assert a + b == b;
    } else {
      assert (a + b)[1..] == a[1..] + b;
      DeedsAppend(a[1..], b);
    }
  }

  /** The first `met` rules have met their fate, and `outcome` is why it was no more of them. */
  ghost predicate Met(rules: seq<Rule>, fates: seq<Fate>, met: nat, kept: seq<Rule>, deeds: seq<Deed>, outcome: Outcome)
    requires |rules| == |fates|
  {
    && met <= |rules| && (outcome == Finished ==> met == |rules|)
    && deeds == Due(rules[..met], fates[..met])
    && kept == Left(rules[..met], fates[..met]) + rules[met..]
    && (forall k :: 0 <= k < met - 1 ==> fates[k] != Fails)
    && (outcome == FdError <==> met > 0 && fates[met - 1] == Fails)
    && (outcome == BusyWait ==> met > 0 && fates[met - 1] == IsCalled)
  }

  lemma ServeMeets<W>(env: Env<W>, w: W, r: Rule, p: PollFd, fate: Fate)
    requires Awaits(p, r, fate)
    ensures var v := Serve(env, w, r, p);
            && v.kept == LeftOf(r, fate) && Deeds(v.events) == DueOf(r, fate)
            && (v.outcome == FdError <==> fate == Fails) && (v.outcome == BusyWait ==> fate == IsCalled)
  {
    ServeByBits(env, w, r, p, fate);
    DeedsOfOneOrTwo(Serve(env, w, r, p).events);
  }

  lemma DeedsOfOneOrTwo<W>(events: seq<Event<W>>)
    requires |events| <= 2 && (|events| == 2 ==> events[1].Asked?)
    ensures Deeds(events) == if events == [] then [] else DeedOf(events[0])
  {
    if |events| == 2 {
      assert events[1..] == [events[1]] && Deeds([events[1]]) == DeedOf(events[1]) + [];
    }
  }

  /** One rule has met its fate before those that `kept`, `deeds` and `outcome` tell of. */
  lemma MetCons(rules: seq<Rule>, fates: seq<Fate>, met: nat, kept: seq<Rule>, deeds: seq<Deed>, outcome: Outcome)
    requires 0 < |rules| == |fates| && fates[0] != Fails
    requires Met(rules[1..], fates[1..], met, kept, deeds, outcome)
    ensures Met(rules, fates, met + 1, LeftOf(rules[0], fates[0]) + kept, DueOf(rules[0], fates[0]) + deeds, outcome)
  {
    assert rules[..met + 1][1..] == rules[1..][..met] && fates[..met + 1][1..] == fates[1..][..met];
    assert rules[met + 1..] == rules[1..][met..];
    assert forall k :: 0 < k < |fates| ==> fates[k] == fates[1..][k - 1];
  }

  /** The pass ends with its first rule. */
  lemma MetOne(rules: seq<Rule>, fates: seq<Fate>, outcome: Outcome)
    requires 0 < |rules| == |fates|
    requires (outcome == FdError && fates[0] == Fails) || (outcome == BusyWait && fates[0] == IsCalled)
    ensures Met(rules, fates, 1, [rules[0]] + rules[1..], DueOf(rules[0], fates[0]), outcome)
  {
    assert rules[..1][1..] == [] && fates[..1][1..] == [];
  }

  lemma {:induction false} SecondPassByBits<W>(env: Env<W>, w: W, rules: seq<Rule>, fds: seq<PollFd>, fates: seq<Fate>)
    returns (met: nat)
    requires |rules| == |fds| == |fates| && forall k :: 0 <= k < |rules| ==> Awaits(fds[k], rules[k], fates[k])
    ensures var s := SecondPass(env, w, rules, fds);
            Met(rules, fates, met, s.kept, Deeds(s.events), s.outcome)
    decreases |rules|
  {
    if rules == [] {
      met := 0;
    } else {
      var v := Serve(env, w, rules[0], fds[0]);
      ServeMeets(env, w, rules[0], fds[0], fates[0]);
      if v.outcome != Finished {
        MetOne(rules, fates, v.outcome);
        met := 1;
      } else {
        var rest := SecondPass(env, v.w, rules[1..], fds[1..]);
        met := SecondPassByBits(env, v.w, rules[1..], fds[1..], fates[1..]);
        MetCons(rules, fates, met, rest.kept, Deeds(rest.events), rest.outcome);
        DeedsAppend(v.events, rest.events);
        met := met + 1;
      }
    }
  }

  // ------------------------------------------------------------------- a whole call

  /** The fate of each kept rule, by what it reported and what poll answered; no answer is 0. */
  ghost function Fates<W>(events: seq<Event<W>>, kept: seq<Rule>, revents: seq<bv16>): seq<Fate> {
    seq(|kept|, k requires 0 <= k < |kept| =>
      FateOf(Reported(events, kept[k]), kept[k].direction, if k < |revents| then revents[k] else 0))
  }

  function OutcomeOf(result: Result): Outcome
    requires result in {Success, ThrewFdError, ThrewBusyWait}
  {
    match result
    case Success => Finished
    case ThrewFdError => FdError
    case _ => BusyWait
  }

  /**
   A call to which poll answered `revents`: after the poll, the rules meet their fates in
   order, and nothing else happens; the list loses the cancelled ones only; the first
   failed entry or unserved callback ends the call with its exception, and without one
   all rules have been met and the result is Success.
   */
  lemma CallByBits<W>(env: Env<W>, w: W, rules: seq<Rule>, timeout: int, revents: seq<bv16>) returns (met: nat)
    requires Distinct(rules) && exists r :: Reported(FirstPass(env, w, rules).events, r)
    requires var p := FirstPass(env, w, rules); env.poll(p.w, p.fds, timeout).0 == Answered(revents)
    ensures var c, p := Wait(env, w, rules, timeout), FirstPass(env, w, rules);
            var polled := p.events + [Polled(p.fds, timeout, p.w)];
            && polled <= c.events && c.result in {Success, ThrewFdError, ThrewBusyWait}
            && Met(p.kept, Fates(p.events, p.kept, revents), met, c.rules, Deeds(c.events[|polled|..]),
                   OutcomeOf(c.result))
            && (c.result == ThrewBusyWait <==> !AllServed(env, c.events))
  {
    var p, fds := FirstPass(env, w, rules), PolledFds(env, w, rules, timeout);
    SomethingToPollIff(env, w, rules);
    CallUnfolds(env, w, rules, timeout);
    ThrowsBusyWaitIff(env, w, rules, timeout);
    var fates := Fates(p.events, p.kept, revents);
    forall k | 0 <= k < |p.kept|
      ensures Awaits(fds[k], p.kept[k], fates[k])
    {
      FirstPassReports(env, w, rules, k);
      var asked := Reported(p.events, p.kept[k]);
      assert fates[k] == FateOf(asked, p.kept[k].direction, fds[k].revents);
    }
    var s := SecondPass(env, env.poll(p.w, p.fds, timeout).1, p.kept, fds);
    met := SecondPassByBits(env, env.poll(p.w, p.fds, timeout).1, p.kept, fds, fates);
    var c, polled := Wait(env, w, rules, timeout), p.events + [Polled(p.fds, timeout, p.w)];
    assert c.events[|polled|..] == s.events;
  }
}
