/**
 The comparison of two streams of segments in tests/send_equivalence_checker.cc.  Segments
 arrive from two senders in any interleaving and are matched pairwise, in order.
 */
module EquivalenceChecker {
  import opened Bytes

  datatype Segment<H> = Segment(header: H, payload: seq<byte>)

  datatype Verdict = Ok | HeadersDiffer | PayloadsDiffer | UnmatchedA | UnmatchedB

  /**
   What TCPSegment, which is not part of this model, provides: equality of headers, and
   the copy obtained by serializing a segment and parsing the result.
   */
  datatype Segments<!H> = Segments(sameHeader: (H, H) -> bool, reparse: Segment<H> -> Segment<H>)
  {
    function Compare(a: Segment<H>, b: Segment<H>): Verdict {
      if !sameHeader(a.header, b.header) then HeadersDiffer
      else if a.payload != b.payload then PayloadsDiffer
      else Ok
    }

    ghost predicate Same(a: Segment<H>, b: Segment<H>) {
      Compare(a, b) == Ok
    }
  }

  /** Header equality is an equivalence, and a copy is the same as the segment it was made of. */
  ghost predicate Lawful<H(!new)>(segs: Segments<H>) {
    && (forall h :: segs.sameHeader(h, h))
    && (forall h, k :: segs.sameHeader(h, k) ==> segs.sameHeader(k, h))
    && (forall h, k, l :: segs.sameHeader(h, k) && segs.sameHeader(k, l) ==> segs.sameHeader(h, l))
    && (forall s :: segs.Same(segs.reparse(s), s))
  }

  // ----------------------------------------------------------- a run of the checker

  datatype Event<H> = A(seg: Segment<H>) | B(seg: Segment<H>)

  datatype Queues<H> = Queues(a: seq<Segment<H>>, b: seq<Segment<H>>)

  /** One submission; a segment that does not match leaves the queues as they are. */
  function Submit<H>(segs: Segments<H>, q: Queues<H>, e: Event<H>): (Queues<H>, Verdict) {
    match e
    case A(seg) =>
      if q.b == [] then (q.(a := q.a + [segs.reparse(seg)]), Ok)
      else
        var v := segs.Compare(seg, q.b[0]);
        (if v == Ok then q.(b := q.b[1..]) else q, v)
    case B(seg) =>
      if q.a == [] then (q.(b := q.b + [segs.reparse(seg)]), Ok)
      else
        var v := segs.Compare(q.a[0], seg);
        (if v == Ok then q.(a := q.a[1..]) else q, v)
  }

  function CheckEmptySpec<H>(q: Queues<H>): Verdict {
    if q.a != [] then UnmatchedA else if q.b != [] then UnmatchedB else Ok
  }

  /** The queues after all events, or the verdict of the first submission that throws. */
  function Run<H>(segs: Segments<H>, events: seq<Event<H>>): (Queues<H>, Verdict) {
    if events == [] then (Queues([], []), Ok)
    else
      var (q, v) := Run(segs, events[..|events| - 1]);
      if v != Ok then (q, v) else Submit(segs, q, events[|events| - 1])
  }

  /** The segments of one side, in order: all that the verdict should depend on. */
  function StreamA<H>(events: seq<Event<H>>): seq<Segment<H>> {
    if events == [] then []
    else
      var e := events[|events| - 1];
      StreamA(events[..|events| - 1]) + if e.A? then [e.seg] else []
  }

  function StreamB<H>(events: seq<Event<H>>): seq<Segment<H>> {
    if events == [] then []
    else
      var e := events[|events| - 1];
      StreamB(events[..|events| - 1]) + if e.B? then [e.seg] else []
  }

  ghost predicate Agree<H(!new)>(segs: Segments<H>, s: seq<Segment<H>>, t: seq<Segment<H>>) {
    forall i :: 0 <= i < |s| && i < |t| ==> segs.Same(s[i], t[i])
  }

  /** The queue holds copies of what one stream is ahead of the other. */
  ghost predicate Backlog<H(!new)>(segs: Segments<H>, q: seq<Segment<H>>, ahead: seq<Segment<H>>, from: nat) {
    && |q| == (if from <= |ahead| then |ahead| - from else 0)
    && forall i :: 0 <= i < |q| ==> q[i] == segs.reparse(ahead[from + i])
  }

  // ------------------------------------------------------------------ the invariant

  lemma SameLaws<H(!new)>(segs: Segments<H>, a: Segment<H>, b: Segment<H>, c: Segment<H>)
    requires Lawful(segs)
    ensures segs.Compare(a, b) == segs.Compare(b, a)
    ensures segs.Same(a, b) ==> (segs.Same(b, c) <==> segs.Same(a, c))
  {
  }

  lemma AgreeSymmetric<H(!new)>(segs: Segments<H>, s: seq<Segment<H>>, t: seq<Segment<H>>)
    requires Lawful(segs)
    ensures Agree(segs, s, t) <==> Agree(segs, t, s)
  {
  }

  /** A segment joins the stream `s` while nothing of the other stream `t` is waiting. */
  lemma Enqueue<H(!new)>(segs: Segments<H>, mine: seq<Segment<H>>, other: seq<Segment<H>>,
                         s: seq<Segment<H>>, t: seq<Segment<H>>, seg: Segment<H>)
    requires Lawful(segs) && Agree(segs, s, t)
    requires Backlog(segs, mine, s, |t|) && Backlog(segs, other, t, |s|) && other == []
    ensures Agree(segs, s + [seg], t)
    ensures Backlog(segs, mine + [segs.reparse(seg)], s + [seg], |t|) && Backlog(segs, other, t, |s| + 1)
  {
  }

  /** A segment joins `s` while `t` is ahead: it is compared with what waits longest. */
  lemma Match<H(!new)>(segs: Segments<H>, mine: seq<Segment<H>>, other: seq<Segment<H>>,
                       s: seq<Segment<H>>, t: seq<Segment<H>>, seg: Segment<H>)
    requires Lawful(segs) && Agree(segs, s, t)
    requires Backlog(segs, mine, s, |t|) && Backlog(segs, other, t, |s|) && other != []
    ensures segs.Same(seg, other[0]) <==> Agree(segs, s + [seg], t)
    ensures Backlog(segs, mine, s + [seg], |t|) && Backlog(segs, other[1..], t, |s| + 1)
  {
  }

  /** The streams s and t agree as far as both go, and the queues hold what one is ahead. */
  ghost predicate Inv<H(!new)>(segs: Segments<H>, q: Queues<H>, s: seq<Segment<H>>, t: seq<Segment<H>>) {
    Agree(segs, s, t) && Backlog(segs, q.a, s, |t|) && Backlog(segs, q.b, t, |s|)
  }

  lemma SubmitAKeepsInv<H(!new)>(segs: Segments<H>, q: Queues<H>, s: seq<Segment<H>>, t: seq<Segment<H>>,
                                  seg: Segment<H>)
    requires Lawful(segs) && Inv(segs, q, s, t)
    ensures var (q', v) := Submit(segs, q, A(seg));
            if v == Ok then Inv(segs, q', s + [seg], t) else !Agree(segs, s + [seg], t)
  {
    if q.b == [] {
      Enqueue(segs, q.a, q.b, s, t, seg);
    } else {
      Match(segs, q.a, q.b, s, t, seg);
    }
  }

  lemma SubmitBKeepsInv<H(!new)>(segs: Segments<H>, q: Queues<H>, s: seq<Segment<H>>, t: seq<Segment<H>>,
                                  seg: Segment<H>)
    requires Lawful(segs) && Inv(segs, q, s, t)
    ensures var (q', v) := Submit(segs, q, B(seg));
            if v == Ok then Inv(segs, q', s, t + [seg]) else !Agree(segs, s, t + [seg])
  {
    AgreeSymmetric(segs, s, t);
    AgreeSymmetric(segs, s, t + [seg]);
    if q.a == [] {
      Enqueue(segs, q.b, q.a, t, s, seg);
    } else {
      Match(segs, q.b, q.a, t, s, seg);
      SameLaws(segs, q.a[0], seg, seg);
    }
  }

  /**
   The invariant of every interleaving: no submission has thrown just if the streams
   agree as far as both go, and then each queue holds what its stream is ahead.
   */
  lemma {:induction false} RunInvariant<H(!new)>(segs: Segments<H>, events: seq<Event<H>>)
    requires Lawful(segs)
    ensures var (q, v) := Run(segs, events);
            var (s, t) := (StreamA(events), StreamB(events));
            if v == Ok then Inv(segs, q, s, t) else !Agree(segs, s, t)
  {
    if events != [] {
      RunInvariant(segs, events[..|events| - 1]);
      RunInvariantStep(segs, events);
    }
  }

  lemma RunInvariantStep<H(!new)>(segs: Segments<H>, events: seq<Event<H>>)
    requires Lawful(segs) && events != []
    requires var init := events[..|events| - 1];
             var (q, v) := Run(segs, init);
             if v == Ok then Inv(segs, q, StreamA(init), StreamB(init)) else !Agree(segs, StreamA(init), StreamB(init))
    ensures var (q, v) := Run(segs, events);
            if v == Ok then Inv(segs, q, StreamA(events), StreamB(events))
            else !Agree(segs, StreamA(events), StreamB(events))
  {
    var init, e := events[..|events| - 1], events[|events| - 1];
    var (q, v) := Run(segs, init);
    var (s, t) := (StreamA(init), StreamB(init));
    if v != Ok {
      Disagree(segs, s, t, StreamA(events), StreamB(events));
    } else if e.A? {
      SubmitAKeepsInv(segs, q, s, t, e.seg);
      assert StreamB(events) == t + [] == t;
    } else {
      SubmitBKeepsInv(segs, q, s, t, e.seg);
      assert StreamA(events) == s + [] == s;
    }
  }

  /** Streams that disagree still do when they get longer. */
  lemma Disagree<H(!new)>(segs: Segments<H>, s: seq<Segment<H>>, t: seq<Segment<H>>,
                          s': seq<Segment<H>>, t': seq<Segment<H>>)
    requires !Agree(segs, s, t) && s <= s' && t <= t'
    ensures !Agree(segs, s', t')
  {
  }

  // ---------------------------------------------------------------- the main results

  /** No submission throws and check_empty passes. */
  ghost predicate Passes<H>(segs: Segments<H>, events: seq<Event<H>>) {
    Run(segs, events).1 == Ok && CheckEmptySpec(Run(segs, events).0) == Ok
  }

  /** The segments at index i of two streams have equivalent headers and the same payload. */
  ghost predicate Equal<H>(segs: Segments<H>, s: seq<Segment<H>>, t: seq<Segment<H>>, i: nat)
    requires i < |s| && i < |t|
  {
    segs.sameHeader(s[i].header, t[i].header) && s[i].payload == t[i].payload
  }

  /** The checker accepts exactly the equally long streams with equivalent headers and equal payloads. */
  lemma PassesIff<H(!new)>(segs: Segments<H>, events: seq<Event<H>>)
    requires Lawful(segs)
    ensures var s, t := StreamA(events), StreamB(events);
            Passes(segs, events) <==> |s| == |t| && forall i :: 0 <= i < |s| ==> Equal(segs, s, t, i)
  {
    RunInvariant(segs, events);
    var s, t := StreamA(events), StreamB(events);
    assert forall i :: 0 <= i < |s| && i < |t| ==> (segs.Same(s[i], t[i]) <==> Equal(segs, s, t, i));
  }

  /** The same comparison made offline, on the two complete streams. */
  function Offline<H>(segs: Segments<H>, s: seq<Segment<H>>, t: seq<Segment<H>>): Verdict
    decreases |s|
  {
    if s == [] then if t == [] then Ok else UnmatchedB
    else if t == [] then UnmatchedA
    else
      var v := segs.Compare(s[0], t[0]);
      if v != Ok then v else Offline(segs, s[1..], t[1..])
  }

  /** What the checker says: the exception of the first submission that throws, else of check_empty. */
  function Online<H>(segs: Segments<H>, events: seq<Event<H>>): Verdict {
    var (q, v) := Run(segs, events);
    if v != Ok then v else CheckEmptySpec(q)
  }

  /** The verdict on the pairs at index `i` and after, as far as both streams go. */
  function Pairs<H>(segs: Segments<H>, s: seq<Segment<H>>, t: seq<Segment<H>>, i: nat): Verdict
    decreases |s| - i
  {
    if i >= |s| || i >= |t| then Ok
    else if segs.Compare(s[i], t[i]) != Ok then segs.Compare(s[i], t[i])
    else Pairs(segs, s, t, i + 1)
  }

  /** Appending to the streams only matters if all pairs so far agree. */
  lemma {:induction false} PairsGrow<H(!new)>(segs: Segments<H>, s: seq<Segment<H>>, t: seq<Segment<H>>,
                                              s': seq<Segment<H>>, t': seq<Segment<H>>, i: nat)
    requires s <= s' && t <= t'
    ensures Pairs(segs, s', t', i) ==
            if Pairs(segs, s, t, i) != Ok then Pairs(segs, s, t, i)
            else Pairs(segs, s', t', if i <= |s| && i <= |t| then Min(|s|, |t|) else i)
    decreases |s| - i
  {
    if i < |s| && i < |t| {
      PairsGrow(segs, s, t, s', t', i + 1);
    }
  }

  lemma {:induction false} RunIsPairs<H(!new)>(segs: Segments<H>, events: seq<Event<H>>)
    requires Lawful(segs)
    ensures Run(segs, events).1 == Pairs(segs, StreamA(events), StreamB(events), 0)
  {
    if events != [] {
      var init, e := events[..|events| - 1], events[|events| - 1];
      RunIsPairs(segs, init);
      var (q, v) := Run(segs, init);
      var (s, t) := (StreamA(init), StreamB(init));
      var (s', t') := (StreamA(events), StreamB(events));
      PairsGrow(segs, s, t, s', t', 0);
      if v == Ok {
        RunInvariant(segs, init);
        if e.A? && q.b != [] {
          assert q.b[0] == segs.reparse(t[|s|]) && segs.Same(q.b[0], t[|s|]);
          CompareCopy(segs, e.seg, q.b[0], t[|s|]);
          assert s'[|s|] == e.seg && Pairs(segs, s', t', |s| + 1) == Ok;
        } else if e.B? && q.a != [] {
          assert q.a[0] == segs.reparse(s[|t|]) && segs.Same(q.a[0], s[|t|]);
          CompareCopy(segs, e.seg, q.a[0], s[|t|]);
          SameLaws(segs, q.a[0], e.seg, e.seg);
          SameLaws(segs, s[|t|], e.seg, e.seg);
          assert t'[|t|] == e.seg && Pairs(segs, s', t', |t| + 1) == Ok;
        }
      }
    }
  }

  /** Comparing with a copy is comparing with the original. */
  lemma CompareCopy<H(!new)>(segs: Segments<H>, a: Segment<H>, copy: Segment<H>, b: Segment<H>)
    requires Lawful(segs) && segs.Same(copy, b)
    ensures segs.Compare(a, copy) == segs.Compare(a, b)
  {
  }

  lemma {:induction false} OfflineIsPairs<H>(segs: Segments<H>, s: seq<Segment<H>>, t: seq<Segment<H>>, i: nat)
    requires i <= |s| && i <= |t|
    ensures Offline(segs, s[i..], t[i..]) ==
            if Pairs(segs, s, t, i) != Ok then Pairs(segs, s, t, i)
            else if |s| > |t| then UnmatchedA else if |s| < |t| then UnmatchedB else Ok
    decreases |s| - i
  {
    if i < |s| && i < |t| {
      assert s[i..][1..] == s[i + 1..] && t[i..][1..] == t[i + 1..];
      OfflineIsPairs(segs, s, t, i + 1);
    }
  }

  /**
   The online checker gives, for every interleaving, the very verdict of the offline
   comparison: the same exception for the first pair that differs, else the same side with
   unmatched segments.  So the interleaving does not matter.
   */
  lemma OnlineIsOffline<H(!new)>(segs: Segments<H>, events: seq<Event<H>>)
    requires Lawful(segs)
    ensures Online(segs, events) == Offline(segs, StreamA(events), StreamB(events))
  {
    var s, t := StreamA(events), StreamB(events);
    RunIsPairs(segs, events);
    RunInvariant(segs, events);
    OfflineIsPairs(segs, s, t, 0);
    assert s[0..] == s && t[0..] == t;
  }

  /** The first k pairs are equal. */
  ghost predicate EqualUpTo<H(!new)>(segs: Segments<H>, s: seq<Segment<H>>, t: seq<Segment<H>>, k: nat) {
    k <= |s| && k <= |t| && forall i :: 0 <= i < k ==> Equal(segs, s, t, i)
  }

  /** Which verdict it is, by the first pair that differs and the lengths. */
  ghost predicate Justified<H(!new)>(segs: Segments<H>, s: seq<Segment<H>>, t: seq<Segment<H>>, v: Verdict, k: nat) {
    && EqualUpTo(segs, s, t, k)
    && match v
       case Ok => k == |s| == |t|
       case HeadersDiffer => k < |s| && k < |t| && !segs.sameHeader(s[k].header, t[k].header)
       case PayloadsDiffer =>
         k < |s| && k < |t| && segs.sameHeader(s[k].header, t[k].header) && s[k].payload != t[k].payload
       case UnmatchedA => k == |t| < |s|
       case UnmatchedB => k == |s| < |t|
  }

  lemma Differ<H(!new)>(segs: Segments<H>, s: seq<Segment<H>>, t: seq<Segment<H>>, v: Verdict, k: nat)
    requires Justified(segs, s, t, v, k)
    ensures k < |s| && k < |t| ==> !Equal(segs, s, t, k)
  {
  }

  /** Two streams justify one verdict, at one place. */
  lemma JustifiedOnce<H(!new)>(segs: Segments<H>, s: seq<Segment<H>>, t: seq<Segment<H>>,
                               v: Verdict, k: nat, v': Verdict, k': nat)
    requires Justified(segs, s, t, v, k) && Justified(segs, s, t, v', k')
    ensures v == v' && k == k'
  {
    Differ(segs, s, t, v, k);
    Differ(segs, s, t, v', k');
  }

  lemma {:induction false} PairsJustified<H(!new)>(segs: Segments<H>, s: seq<Segment<H>>, t: seq<Segment<H>>, i: nat)
    returns (k: nat)
    requires EqualUpTo(segs, s, t, i)
    ensures Justified(segs, s, t, if Pairs(segs, s, t, i) != Ok then Pairs(segs, s, t, i)
                                  else if |s| > |t| then UnmatchedA else if |s| < |t| then UnmatchedB else Ok, k)
    decreases |s| - i
  {
    k := i;
    if i < |s| && i < |t| && segs.Compare(s[i], t[i]) == Ok {
      k := PairsJustified(segs, s, t, i + 1);
    }
  }

  /**
   The verdict on every interleaving, from headers and payloads alone: the first pair that
   differs decides whether headers or payloads are said to differ; without one, the side
   that is longer has unmatched segments; and only equal streams are accepted.
   */
  lemma VerdictIff<H(!new)>(segs: Segments<H>, events: seq<Event<H>>, v: Verdict)
    requires Lawful(segs)
    ensures Online(segs, events) == v <==> exists k: nat :: Justified(segs, StreamA(events), StreamB(events), v, k)
  {
    var s, t := StreamA(events), StreamB(events);
    OnlineIsOffline(segs, events);
    OfflineIsPairs(segs, s, t, 0);
    assert s[0..] == s && t[0..] == t;
    var k := PairsJustified(segs, s, t, 0);
    if k': nat :| Justified(segs, s, t, v, k') {
      JustifiedOnce(segs, s, t, v, k', Online(segs, events), k);
    }
  }

  /** After a throw the queues are as the submission that threw found them, and it was the first. */
  lemma {:induction false} ThrowChangesNothing<H(!new)>(segs: Segments<H>, events: seq<Event<H>>) returns (k: nat)
    requires Lawful(segs) && Run(segs, events).1 != Ok
    ensures k < |events| && Run(segs, events[..k]).1 == Ok
    ensures Run(segs, events[..k + 1]).1 == Run(segs, events).1
    ensures Run(segs, events).0 == Run(segs, events[..k]).0
    ensures Inv(segs, Run(segs, events).0, StreamA(events[..k]), StreamB(events[..k]))
  {
    k := |events| - 1;
    var init := events[..k];
    if Run(segs, init).1 == Ok {
      RunInvariant(segs, init);
      assert events[..k + 1] == events;
    } else {
      k := ThrowChangesNothing(segs, init);
      assert init[..k] == events[..k] && init[..k + 1] == events[..k + 1];
    }
  }

  /** At most one queue is ever non-empty, whatever the laws; also after a throw. */
  lemma {:induction false} OneQueueEmpty<H>(segs: Segments<H>, events: seq<Event<H>>)
    ensures var q := Run(segs, events).0; q.a == [] || q.b == []
  {
    if events != [] {
      OneQueueEmpty(segs, events[..|events| - 1]);
    }
  }

  // ----------------------------------------------------------------------- the class

  class SendEquivalenceChecker<H> {
    const segs: Segments<H>
    var fromA: seq<Segment<H>>  // `as`: submitted by a, not yet matched
    var fromB: seq<Segment<H>>  // `bs`: submitted by b, not yet matched

    ghost function Abs(): Queues<H>
      reads this
    {
      Queues(fromA, fromB)
    }

    constructor (segs: Segments<H>)
      ensures this.segs == segs && Abs() == Run(segs, []).0
    {
      this.segs := segs;
      fromA, fromB := [], [];
    }

    method CheckEquivalentSegments(a: Segment<H>, b: Segment<H>) returns (v: Verdict)
      ensures v == segs.Compare(a, b)
    {
      if !segs.sameHeader(a.header, b.header) {
        return HeadersDiffer;
      }
      if a.payload != b.payload {
        return PayloadsDiffer;
      }
      return Ok;
    }

    method SubmitA(seg: Segment<H>) returns (v: Verdict)
      modifies this
      ensures (Abs(), v) == Submit(segs, old(Abs()), A(seg))
    {
      if fromB != [] {
        v := CheckEquivalentSegments(seg, fromB[0]);
        if v == Ok {
          fromB := fromB[1..];
        }
      } else {
        fromA := fromA + [segs.reparse(seg)];
        v := Ok;
      }
    }

    method SubmitB(seg: Segment<H>) returns (v: Verdict)
      modifies this
      ensures (Abs(), v) == Submit(segs, old(Abs()), B(seg))
    {
      if fromA != [] {
        v := CheckEquivalentSegments(fromA[0], seg);
        if v == Ok {
          fromA := fromA[1..];
        }
      } else {
        fromB := fromB + [segs.reparse(seg)];
        v := Ok;
      }
    }

    method CheckEmpty() returns (v: Verdict)
      ensures v == CheckEmptySpec(Abs())
    {
      if fromA != [] {
        return UnmatchedA;
      }
      if fromB != [] {
        return UnmatchedB;
      }
      return Ok;
    }
  }

  /** A whole comparison; it stops at the first submission that throws. */
  method CheckStreams<H>(segs: Segments<H>, events: seq<Event<H>>) returns (v: Verdict)
    ensures v == Online(segs, events)
  {
    var checker := new SendEquivalenceChecker(segs);
    var i := 0;
    assert events[..0] == [];
    while i < |events|
      invariant i <= |events|
      invariant checker.segs == segs && (checker.Abs(), Ok) == Run(segs, events[..i])
    {
      assert events[..i + 1][..i] == events[..i];
      if events[i].A? {
        v := checker.SubmitA(events[i].seg);
      } else {
        v := checker.SubmitB(events[i].seg);
      }
      i := i + 1;
      if v != Ok {
        ThrowIsFinal(segs, events, i);
        return;
      }
    }
    assert events[..i] == events;
    v := checker.CheckEmpty();
  }

  lemma {:induction false} ThrowIsFinal<H>(segs: Segments<H>, events: seq<Event<H>>, k: nat)
    requires k <= |events| && Run(segs, events[..k]).1 != Ok
    ensures Run(segs, events) == Run(segs, events[..k])
  {
    if k == |events| {
      assert events[..k] == events;
    } else {
      var init := events[..|events| - 1];
      assert init[..k] == events[..k];
      ThrowIsFinal(segs, init, k);
    }
  }
}
