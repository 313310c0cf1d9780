/**
 Histories of an event loop: which rules were added, asked for their interest, called back
 and cancelled, in which order, and in which state of the world each call was made.
 */
module EventTrace {
  datatype Direction = In | Out

  /** Copies of a descriptor share their state, so `fd` names that state; `id` tells rules apart. */
  datatype Rule = Rule(id: nat, fd: nat, direction: Direction)

  datatype PollFd = PollFd(fdNum: int, events: bv16, revents: bv16)

  /** What poll is asked to look for: 0x01 is input and 0x04 output in poll(2). */
  function Requested(asked: bool, d: Direction): bv16 {
    if !asked then 0x00 else if d == In then 0x01 else 0x04
  }

  /** `w` is the state of the world that the callee found. */
  datatype Event<W> =
    | Added(rule: Rule)
    | Asked(rule: Rule, w: W, answer: bool)
    | Cancelled(rule: Rule, w: W)
    | CalledBack(rule: Rule, w: W)
    | Polled(fds: seq<PollFd>, timeout: int, w: W)

  // ---------------------------------------------------------------- meaning of a trace

  function Without(rules: seq<Rule>, r: Rule): seq<Rule> {
    if rules == [] then []
    else Without(rules[..|rules| - 1], r) + if rules[|rules| - 1] == r then [] else [rules[|rules| - 1]]
  }

  /** The rules added and not cancelled. */
  function Live<W>(trace: seq<Event<W>>): seq<Rule> {
    if trace == [] then []
    else
      var before, e := Live(trace[..|trace| - 1]), trace[|trace| - 1];
      if e.Added? then before + [e.rule] else if e.Cancelled? then Without(before, e.rule) else before
  }

  function AddedRules<W>(trace: seq<Event<W>>): seq<Rule> {
    if trace == [] then []
    else AddedRules(trace[..|trace| - 1]) + if trace[|trace| - 1].Added? then [trace[|trace| - 1].rule] else []
  }

  /** An event may only concern a live rule, and a rule is added once. */
  ghost predicate Legal<W>(trace: seq<Event<W>>) {
    trace != [] ==>
      var init, e := trace[..|trace| - 1], trace[|trace| - 1];
      && Legal(init)
      && (e.Added? ==> e.rule !in AddedRules(init))
      && (!e.Added? && !e.Polled? ==> e.rule in Live(init))
  }

  ghost predicate Distinct(rules: seq<Rule>) {
    forall i, j :: 0 <= i < j < |rules| ==> rules[i] != rules[j]
  }

  /** How often `r` was cancelled. */
  function Cancels<W>(trace: seq<Event<W>>, r: Rule): nat {
    if trace == [] then 0
    else Cancels(trace[..|trace| - 1], r) +
         var e := trace[|trace| - 1]; if e.Cancelled? && e.rule == r then 1 else 0
  }

  // ------------------------------------------------------------ laws of legal traces

  lemma {:induction false} WithoutLaws(rules: seq<Rule>, r: Rule)
    ensures r !in Without(rules, r)
    ensures forall x :: x in Without(rules, r) <==> x in rules && x != r
    ensures Distinct(rules) ==> Distinct(Without(rules, r))
    ensures r !in rules ==> Without(rules, r) == rules
  {
    if rules != [] {
      var init, last := rules[..|rules| - 1], rules[|rules| - 1];
      assert rules == init + [last];
      WithoutLaws(init, r);
      if Distinct(rules) {
        assert Distinct(init) && last !in init;
      }
    }
  }

  lemma {:induction false} WithoutMiddle(front: seq<Rule>, r: Rule, back: seq<Rule>)
    requires Distinct(front + [r] + back)
    ensures Without(front + [r] + back, r) == front + back
  {
    var all := front + [r] + back;
    if back == [] {
      assert all[..|all| - 1] == front;
      assert r !in front by {
        assert forall i :: 0 <= i < |front| ==> all[i] == front[i] && all[|front|] == r;
      }
      WithoutLaws(front, r);
      assert front + [] == front;
    } else {
      var init := back[..|back| - 1];
      assert all[..|all| - 1] == front + [r] + init;
      assert all[|front|] == r && all[|all| - 1] == back[|back| - 1];
      WithoutMiddle(front, r, init);
      assert front + back == (front + init) + [back[|back| - 1]];
    }
  }

  lemma {:induction false} LiveLaws<W>(trace: seq<Event<W>>)
    requires Legal(trace)
    ensures Distinct(Live(trace)) && Distinct(AddedRules(trace))
    ensures forall r :: r in Live(trace) <==> r in AddedRules(trace) && Cancels(trace, r) == 0
    ensures forall r :: Cancels(trace, r) <= 1 && (Cancels(trace, r) == 1 ==> r in AddedRules(trace))
  {
    if trace != [] {
      var init, e := trace[..|trace| - 1], trace[|trace| - 1];
      LiveLaws(init);
      if e.Cancelled? {
        WithoutLaws(Live(init), e.rule);
      }
    }
  }

  /** The rules that were never cancelled, in the order in which they were added. */
  function Uncancelled<W>(trace: seq<Event<W>>, rules: seq<Rule>): seq<Rule> {
    if rules == [] then []
    else Uncancelled(trace, rules[..|rules| - 1]) +
         if Cancels(trace, rules[|rules| - 1]) == 0 then [rules[|rules| - 1]] else []
  }

  /**
   In every legal history: the live rules are the added ones in their order minus the
   cancelled ones, and a rule has been cancelled once if it is gone and not at all if it
   is still there.
   */
  lemma {:induction false} LiveInOrder<W>(trace: seq<Event<W>>)
    requires Legal(trace)
    ensures Live(trace) == Uncancelled(trace, AddedRules(trace))
    ensures forall r :: r in AddedRules(trace) ==> Cancels(trace, r) == if r in Live(trace) then 0 else 1
  {
    LiveLaws(trace);
    if trace != [] {
      var init, e := trace[..|trace| - 1], trace[|trace| - 1];
      LiveInOrder(init);
      LiveLaws(init);
      if e.Added? {
        UncancelledSame(init, trace, AddedRules(init));
        assert AddedRules(trace)[..|AddedRules(trace)| - 1] == AddedRules(init);
      } else if e.Cancelled? {
        assert AddedRules(trace) == AddedRules(init);
        UncancelledOneMore(init, trace, AddedRules(init), e.rule);
      } else {
        assert AddedRules(trace) == AddedRules(init);
        UncancelledSame(init, trace, AddedRules(init));
      }
    }
  }

  lemma {:induction false} UncancelledSame<W>(s: seq<Event<W>>, t: seq<Event<W>>, rules: seq<Rule>)
    requires forall r :: r in rules ==> Cancels(s, r) == Cancels(t, r)
    ensures Uncancelled(s, rules) == Uncancelled(t, rules)
  {
    if rules != [] {
      assert rules[|rules| - 1] in rules && forall r :: r in rules[..|rules| - 1] ==> r in rules;
      UncancelledSame(s, t, rules[..|rules| - 1]);
    }
  }

  lemma {:induction false} UncancelledOneMore<W>(s: seq<Event<W>>, t: seq<Event<W>>, rules: seq<Rule>, r: Rule)
    requires forall x :: x in rules && x != r ==> Cancels(s, x) == Cancels(t, x)
    requires Cancels(t, r) > 0
    ensures Uncancelled(t, rules) == Without(Uncancelled(s, rules), r)
  {
    if rules != [] {
      var init, last := rules[..|rules| - 1], rules[|rules| - 1];
      assert last in rules && forall x :: x in init ==> x in rules;
      UncancelledOneMore(s, t, init, r);
      if Cancels(s, last) == 0 {
        assert Uncancelled(s, rules)[..|Uncancelled(s, rules)| - 1] == Uncancelled(s, init);
      } else {
        assert Uncancelled(s, rules) == Uncancelled(s, init) && Uncancelled(t, init) + [] == Uncancelled(t, init);
      }
    }
  }

  /** Once cancelled, a rule is never asked, called back, cancelled or added again. */
  lemma {:induction false} NothingAfterCancel<W>(trace: seq<Event<W>>, r: Rule, i: nat, j: nat)
    requires Legal(trace) && i < j < |trace|
    requires trace[i].Cancelled? && trace[i].rule == r
    ensures trace[j].Polled? || trace[j].rule != r
  {
    var init, e := trace[..|trace| - 1], trace[|trace| - 1];
    if j < |trace| - 1 {
      NothingAfterCancel(init, r, i, j);
    } else {
      LiveLaws(init);
      CancelCounted(init, r, i);
    }
  }

  lemma {:induction false} CancelCounted<W>(trace: seq<Event<W>>, r: Rule, i: nat)
    requires i < |trace| && trace[i].Cancelled? && trace[i].rule == r
    ensures Cancels(trace, r) > 0
  {
    if i < |trace| - 1 {
      CancelCounted(trace[..|trace| - 1], r, i);
    }
  }

  /** One more event. */
  lemma Snoc<W>(trace: seq<Event<W>>, e: Event<W>)
    ensures (trace + [e])[..|trace|] == trace && (trace + [e])[|trace|] == e
    ensures Legal(trace + [e]) <==>
            && Legal(trace)
            && (e.Added? ==> e.rule !in AddedRules(trace))
            && (!e.Added? && !e.Polled? ==> e.rule in Live(trace))
    ensures Live(trace + [e]) == if e.Added? then Live(trace) + [e.rule]
                                 else if e.Cancelled? then Without(Live(trace), e.rule) else Live(trace)
    ensures AddedRules(trace + [e]) == AddedRules(trace) + if e.Added? then [e.rule] else []
  {
  }
}
