/**
 libsponge/byte_stream.cc as it is: buffer_size() computes the fill level and returns 0
 instead, so a peek copies nothing, a pop moves nothing, and a write always sees a free
 ring; the constructor leaves both counters unset.  The lemmas say exactly when this goes
 unnoticed, operation by operation and observer by observer.  The number of slots fits an
 int, as the constructor needs it to.
 */
module ByteStreamAsWritten {
  import opened Bytes
  import opened ByteStreams

  /** The tail never leaves slot 0. */
  datatype Ring = Ring(slots: string, head: nat, closed: bool, error: bool, accepted: string,
                       numOfR: int, numOfW: int)
  {
    ghost predicate Valid() {
      head < |slots| < TWO31 && -TWO31 <= numOfR < TWO31 && -TWO31 <= numOfW < TWO31
    }
  }

  /** The counters start with whatever is in memory. */
  function New(slots: string, numOfR: int, numOfW: int): Ring {
    Ring(slots, 0, false, false, "", numOfR, numOfW)
  }

  /** The copying loop of write, around the end of the ring. */
  function Put(slots: string, head: nat, data: string): (r: (string, nat))
    requires head < |slots|
    ensures |r.0| == |slots| && r.1 < |slots|
    decreases |data|
  {
    if data == "" then (slots, head)
    else Put(slots[head := data[0]], Next(head, |slots|), data[1..])
  }

  // ------------------------------------------------------------------- the observers

  function BufferSize(s: Ring): nat {
    0
  }

  function RemainingCapacity(s: Ring): int {
    |s.slots| - 1 - BufferSize(s)
  }

  predicate BufferEmpty(s: Ring) {
    s.head == 0
  }

  predicate Eof(s: Ring) {
    s.closed && BufferEmpty(s)
  }

  function BytesRead(s: Ring): nat
    requires s.Valid()
  {
    ToSize(s.numOfR)
  }

  function BytesWritten(s: Ring): nat
    requires s.Valid()
  {
    ToSize(s.numOfW)
  }

  // ------------------------------------------------------------------- the operations

  function StepAsWritten(s: Ring, op: Op): (r: (Ring, Obs))
    requires s.Valid()
    ensures r.0.Valid() && |r.0.slots| == |s.slots|
  {
    match op
    case Write(data) =>
      if s.closed || s.error then (s.(error := true), Accepted(0))
      else
        var n := Min(|data|, |s.slots| - 1 - BufferSize(s));
        var (slots, head) := Put(s.slots, s.head, data[..n]);
        (s.(slots := slots, head := head, accepted := s.accepted + data[..n], numOfW := ToInt(s.numOfW + n)),
         Accepted(n))
    case Peek(len) => (s, Got(""))
    case Pop(len) => (s, Done)
    case Read(len) => (s, Got(""))
    case EndInput => (s.(closed := true), Done)
    case SetError => (s.(error := true), Done)
  }

  function RunAsWritten(s: Ring, ops: seq<Op>): (r: (Ring, seq<Obs>))
    requires s.Valid()
    ensures r.0.Valid() && |r.0.slots| == |s.slots|
    decreases |ops|
  {
    if ops == [] then (s, [])
    else
      var (s1, o) := StepAsWritten(s, ops[0]);
      var (s2, os) := RunAsWritten(s1, ops[1..]);
      (s2, [o] + os)
  }

  // ------------------------------------------------------- the answers of operations

  /** An operation whose answer does not depend on how much is buffered in the queue. */
  predicate Harmless(q: Stream, op: Op) {
    match op
    case Write(data) => q.closed || q.error || q.contents == "" || |data| <= Room(q)
    case Peek(len) => q.error || q.contents == "" || len == 0
    case Read(len) => q.error || q.contents == "" || len == 0
    case _ => true
  }

  predicate AllHarmless(q: Stream, ops: seq<Op>)
    decreases |ops|
  {
    ops == [] || (Harmless(q, ops[0]) && AllHarmless(Step(q, ops[0]).0, ops[1..]))
  }

  /**
   The operations (not the observers) of the code as written answer like the bounded queue
   over a run exactly when no read or peek asks for buffered octets and no write needs
   room that buffered octets occupy.
   */
  lemma {:induction false} AgreesIff(s: Ring, q: Stream, ops: seq<Op>)
    requires s.Valid() && Conserved(q) && q.capacity == |s.slots| - 1
    requires s.closed == q.closed && s.error == q.error
    ensures RunAsWritten(s, ops).1 == Run(q, ops).1 <==> AllHarmless(q, ops)
    decreases |ops|
  {
    if ops != [] {
      var (s1, o) := StepAsWritten(s, ops[0]);
      var (q1, p) := Step(q, ops[0]);
      StepConserves(q, ops[0]);
      AgreesIff(s1, q1, ops[1..]);
      assert o == p <==> Harmless(q, ops[0]);
      var os, ps := RunAsWritten(s1, ops[1..]).1, Run(q1, ops[1..]).1;
      assert ([o] + os)[1..] == os && ([p] + ps)[1..] == ps;
    }
  }

  /** What was written cannot be read: a peek after a write already answers differently. */
  lemma WrittenIsUnreadable(slots: string, r0: int, w0: int, c: char)
    requires 2 <= |slots| < TWO31 && -TWO31 <= r0 < TWO31 && -TWO31 <= w0 < TWO31
    ensures var ops := [Write([c]), Peek(1)];
            && Run(Start(|slots| - 1), ops).1 == [Accepted(1), Got([c])]
            && RunAsWritten(New(slots, r0, w0), ops).1 == [Accepted(1), Got("")]
  {
    var s, q := New(slots, r0, w0), Start(|slots| - 1);
    assert [c][..1] == [c] && [Write([c]), Peek(1)] == [Write([c])] + [Peek(1)];
    var s1, q1 := StepAsWritten(s, Write([c])).0, Step(q, Write([c])).0;
    assert q1.contents == [c] && [Peek(1)] + [] == [Peek(1)];
    RunCons(s, q, Write([c]), [Peek(1)]);
    RunCons(s1, q1, Peek(1), []);
  }

  /** The first operation of a run. */
  lemma RunCons(s: Ring, q: Stream, op: Op, rest: seq<Op>)
    requires s.Valid()
    ensures var (s', o) := StepAsWritten(s, op);
            RunAsWritten(s, [op] + rest) == (RunAsWritten(s', rest).0, [o] + RunAsWritten(s', rest).1)
    ensures var (q', p) := Step(q, op);
            Run(q, [op] + rest) == (Run(q', rest).0, [p] + Run(q', rest).1)
  {
    assert ([op] + rest)[1..] == rest;
  }

  // ------------------------------------------------------------ when octets get lost

  lemma {:induction false} PutAppends(slots: string, head: nat, data: string)
    requires head < |slots| && head + |data| < |slots|
    ensures Put(slots, head, data).1 == head + |data|
    ensures View(Put(slots, head, data).0, 0, head + |data|) == View(slots, 0, head) + data
    decreases |data|
  {
    if data != "" {
      ViewPut(slots, 0, head, data[0]);
      PutAppends(slots[head := data[0]], head + 1, data[1..]);
      AppendAssoc(View(slots, 0, head), [data[0]], data[1..]);
      assert [data[0]] + data[1..] == data;
    }
  }

  /** As long as the total fits, the ring holds all that was accepted. */
  ghost predicate Intact(s: Ring)
    requires s.Valid()
  {
    |s.accepted| < |s.slots| ==> s.head == |s.accepted| && View(s.slots, 0, s.head) == s.accepted
  }

  lemma {:induction false} RunIntact(s: Ring, ops: seq<Op>)
    requires s.Valid() && Intact(s)
    ensures Intact(RunAsWritten(s, ops).0)
    decreases |ops|
  {
    if ops != [] {
      if ops[0].Write? && !s.closed && !s.error {
        var data := ops[0].data[..Min(|ops[0].data|, |s.slots| - 1)];
        if |s.accepted| + |data| < |s.slots| {
          PutAppends(s.slots, s.head, data);
        }
      }
      RunIntact(StepAsWritten(s, ops[0]).0, ops[1..]);
    }
  }

  /** Every accepted octet is still in the ring exactly when their total fits the capacity. */
  lemma NothingLostIff(slots: string, r0: int, w0: int, ops: seq<Op>)
    requires New(slots, r0, w0).Valid()
    ensures var s := RunAsWritten(New(slots, r0, w0), ops).0;
            View(s.slots, 0, s.head) == s.accepted <==> |s.accepted| <= |slots| - 1
  {
    RunIntact(New(slots, r0, w0), ops);
  }

  // ------------------------------------------------------------------ where the head is

  lemma Multiple(d: int, k: int)
    requires d > 0
    ensures k > 0 ==> d * k >= d
    ensures k < 0 ==> d * k <= -d
  {
  }

  lemma ModUnique(n: nat, d: int, q: int, r: nat)
    requires n == d * q + r && r < d
    ensures n % d == r
  {
    var k := n / d - q;
    assert d * k == d * (n / d) - d * q == r - n % d;
    Multiple(d, k);
  }

  lemma ModNext(n: nat, size: nat)
    requires size > 0
    ensures (n + 1) % size == Next(n % size, size)
  {
    if n % size + 1 < size {
      ModUnique(n + 1, size, n / size, n % size + 1);
    } else {
      assert size * (n / size + 1) == size * (n / size) + size;
      ModUnique(n + 1, size, n / size + 1, 0);
    }
  }

  lemma {:induction false} PutMovesHead(slots: string, head: nat, data: string, total: nat)
    requires 0 < |slots| && head == total % |slots|
    ensures Put(slots, head, data).1 == (total + |data|) % |slots|
    decreases |data|
  {
    if data != "" {
      ModNext(total, |slots|);
      PutMovesHead(slots[head := data[0]], Next(head, |slots|), data[1..], total + 1);
    }
  }

  ghost predicate HeadAtTotal(s: Ring)
    requires s.Valid()
  {
    s.head == |s.accepted| % |s.slots|
  }

  lemma StepMovesHead(s: Ring, op: Op)
    requires s.Valid() && HeadAtTotal(s)
    ensures HeadAtTotal(StepAsWritten(s, op).0)
  {
    if op.Write? && !s.closed && !s.error {
      PutMovesHead(s.slots, s.head, op.data[..Min(|op.data|, |s.slots| - 1)], |s.accepted|);
    }
  }

  /** Over every run the head is at the accepted total modulo the number of slots. */
  lemma {:induction false} RunMovesHead(s: Ring, ops: seq<Op>)
    requires s.Valid() && HeadAtTotal(s)
    ensures HeadAtTotal(RunAsWritten(s, ops).0)
    decreases |ops|
  {
    if ops != [] {
      StepMovesHead(s, ops[0]);
      RunMovesHead(StepAsWritten(s, ops[0]).0, ops[1..]);
    }
  }

  lemma StepCounts(s: Ring, op: Op, w0: int)
    requires s.Valid() && -TWO31 <= w0 && s.numOfW == ToInt(w0 + |s.accepted|)
    ensures var s' := StepAsWritten(s, op).0; s'.numOfR == s.numOfR && s'.numOfW == ToInt(w0 + |s'.accepted|)
  {
    if op.Write? && !s.closed && !s.error {
      ToIntAdd(w0 + |s.accepted|, Min(|op.data|, |s.slots| - 1));
    }
  }

  /** One counter never moves, the other counts what the code accepts, in an int. */
  lemma {:induction false} RunCounts(s: Ring, ops: seq<Op>, w0: int)
    requires s.Valid() && -TWO31 <= w0 && s.numOfW == ToInt(w0 + |s.accepted|)
    ensures var s' := RunAsWritten(s, ops).0; s'.numOfR == s.numOfR && s'.numOfW == ToInt(w0 + |s'.accepted|)
    decreases |ops|
  {
    if ops != [] {
      StepCounts(s, ops[0], w0);
      RunCounts(StepAsWritten(s, ops[0]).0, ops[1..], w0);
    }
  }

  /** The flags are those of the queue. */
  lemma {:induction false} RunFlags(s: Ring, q: Stream, ops: seq<Op>)
    requires s.Valid() && s.closed == q.closed && s.error == q.error
    ensures var s', q' := RunAsWritten(s, ops).0, Run(q, ops).0; s'.closed == q'.closed && s'.error == q'.error
    decreases |ops|
  {
    if ops != [] {
      RunFlags(StepAsWritten(s, ops[0]).0, Step(q, ops[0]).0, ops[1..]);
    }
  }

  // ----------------------------------------------------------- the answers of observers

  /**
   After any run, each observer gives the answer of the bounded queue exactly under its
   condition: the two sizes while the queue is empty; buffer_empty() when the ring looks
   empty (the accepted total is a multiple of the slots) just if the queue is; eof() when
   that is so or the input has not ended; bytes_read() when the counter happened to start
   with the number of octets removed; bytes_written() when its start and what the code has
   accepted add up, in an int, to what the queue has accepted.
   */
  lemma ObserversIff(slots: string, r0: int, w0: int, ops: seq<Op>)
    requires New(slots, r0, w0).Valid()
    ensures var s, q := RunAsWritten(New(slots, r0, w0), ops).0, Run(Start(|slots| - 1), ops).0;
            var looksEmpty := |s.accepted| % |slots| == 0;
            && (BufferSize(s) == |q.contents| <==> q.contents == "")
            && (RemainingCapacity(s) == Room(q) <==> q.contents == "")
            && ((BufferEmpty(s) <==> q.contents == "") <==> (looksEmpty <==> q.contents == ""))
            && ((Eof(s) <==> q.closed && q.contents == "") <==> !q.closed || (looksEmpty <==> q.contents == ""))
            && (BytesRead(s) == |q.removed| <==> ToSize(r0) == |q.removed|)
            && (BytesWritten(s) == |q.accepted| <==> ToSize(ToInt(w0 + |s.accepted|)) == |q.accepted|)
  {
    RunMovesHead(New(slots, r0, w0), ops);
    RunCounts(New(slots, r0, w0), ops, w0);
    RunFlags(New(slots, r0, w0), Start(|slots| - 1), ops);
    RunConserves(Start(|slots| - 1), ops);
  }

  /** All answers of the operations agree, everything was popped, yet eof() stays false. */
  lemma EofNeverComes(slots: string, r0: int, w0: int, c: char)
    requires |slots| == 2 && New(slots, r0, w0).Valid()
    ensures var ops := [Write([c]), Pop(1), EndInput];
            var s, q := RunAsWritten(New(slots, r0, w0), ops), Run(Start(1), ops);
            && AllHarmless(Start(1), ops) && s.1 == q.1
            && q.0.closed && q.0.contents == "" && !Eof(s.0)
  {
    var s, q := New(slots, r0, w0), Start(1);
    var ops := [Write([c]), Pop(1), EndInput];
    assert [c][..1] == [c] && [c][1..] == "";
    assert ops == [Write([c])] + [Pop(1), EndInput] && [Pop(1), EndInput] == [Pop(1)] + [EndInput];
    assert Put(slots, 0, [c]).1 == 1;
    var s1, q1 := StepAsWritten(s, Write([c])).0, Step(q, Write([c])).0;
    var q2 := Step(q1, Pop(1)).0;
    assert s1.head == 1 && q1.contents == [c] && q2.contents == "";
    RunCons(s, q, Write([c]), [Pop(1), EndInput]);
    RunCons(s1, q1, Pop(1), [EndInput]);
    RunCons(s1, q2, EndInput, []);
    assert ops[1..] == [Pop(1), EndInput] && ops[1..][1..] == [EndInput] && [EndInput][1..] == [];
    AgreesIff(s, q, ops);
  }

  /** The ring looks empty although nothing was read, once it has wrapped onto slot 0. */
  lemma LooksEmpty(slots: string, r0: int, w0: int, c: char)
    requires |slots| == 2 && New(slots, r0, w0).Valid()
    ensures var ops := [Write([c]), Write([c])];
            BufferEmpty(RunAsWritten(New(slots, r0, w0), ops).0) && Run(Start(1), ops).0.contents == [c]
  {
    var s, q, w := New(slots, r0, w0), Start(1), Write([c]);
    assert [c][..1] == [c] && [c][1..] == "" && [c][..0] == "" && [w, w] == [w] + [w];
    var s1, q1 := StepAsWritten(s, w).0, Step(q, w).0;
    assert Put(slots, 0, [c]).1 == 1;
    assert Put(s1.slots, 1, [c]) == Put(s1.slots[1 := c], 0, [c][1..]);
    assert s1.head == 1 && q1.contents == [c];
    RunCons(s, q, w, [w]);
    RunCons(s1, q1, w, []);
    assert [w] + [] == [w];
    assert Step(q1, w).0.contents == [c];
  }

  // ---------------------------------------------------------------- runs as a whole

  /** Every observer gives the answer of the queue. */
  ghost predicate SameView(s: Ring, q: Stream)
    requires s.Valid()
  {
    && BufferSize(s) == |q.contents| && RemainingCapacity(s) == Room(q)
    && (BufferEmpty(s) <==> q.contents == "") && (Eof(s) <==> q.closed && q.contents == "")
    && BytesRead(s) == |q.removed| && BytesWritten(s) == |q.accepted|
  }

  /** Every operation answers like the queue, and so does every observer after it. */
  ghost predicate Indistinguishable(s: Ring, q: Stream, ops: seq<Op>)
    requires s.Valid()
    decreases |ops|
  {
    && SameView(s, q)
    && (ops != [] ==>
          var ((s', o), (q', p)) := (StepAsWritten(s, ops[0]), Step(q, ops[0]));
          o == p && Indistinguishable(s', q', ops[1..]))
  }

  /** Nothing has been accepted, and both counters were 0. */
  ghost predicate Blank(s: Ring, q: Stream) {
    && s.Valid() && s.head == 0 && s.accepted == "" && s.numOfR == 0 && s.numOfW == 0
    && q.capacity == |s.slots| - 1 && q.contents == "" && q.accepted == "" && q.removed == ""
    && s.closed == q.closed && s.error == q.error
  }

  /** No write with data comes before the input is ended or an error is set. */
  predicate Silent(ops: seq<Op>)
    decreases |ops|
  {
    ops == [] || ops[0].EndInput? || ops[0].SetError? || ((ops[0].Write? ==> ops[0].data == "") && Silent(ops[1..]))
  }

  lemma {:induction false} AcceptedGrows(s: Ring, ops: seq<Op>)
    requires s.Valid()
    ensures s.accepted <= RunAsWritten(s, ops).0.accepted
    ensures s.closed || s.error ==> RunAsWritten(s, ops).0.accepted == s.accepted
    decreases |ops|
  {
    if ops != [] {
      AcceptedGrows(StepAsWritten(s, ops[0]).0, ops[1..]);
    }
  }

  /** The size returned is the accepted total (nothing is ever read) exactly on silent runs. */
  lemma {:induction false} SizeRightIff(s: Ring, ops: seq<Op>)
    requires s.Valid() && |s.slots| >= 2 && s.accepted == "" && !s.closed && !s.error
    ensures var s' := RunAsWritten(s, ops).0; BufferSize(s') == |s'.accepted| <==> Silent(ops)
    decreases |ops|
  {
    if ops != [] {
      var s1 := StepAsWritten(s, ops[0]).0;
      AcceptedGrows(s1, ops[1..]);
      if s1.accepted == "" && !s1.closed && !s1.error {
        SizeRightIff(s1, ops[1..]);
      }
    }
  }

  lemma RefusingStep(s: Ring, q: Stream, op: Op)
    requires Blank(s, q) && (s.closed || s.error)
    ensures var ((s', o), (q', p)) := (StepAsWritten(s, op), Step(q, op));
            o == p && Blank(s', q') && (s'.closed || s'.error)
  {
  }

  lemma BlankView(s: Ring, q: Stream)
    requires Blank(s, q) && (s.closed || s.error)
    ensures SameView(s, q)
  {
  }

  lemma {:induction false} RefusingIsBlank(s: Ring, q: Stream, ops: seq<Op>)
    requires Blank(s, q) && (s.closed || s.error)
    ensures Indistinguishable(s, q, ops)
    decreases |ops|
  {
    BlankView(s, q);
    if ops != [] {
      RefusingStep(s, q, ops[0]);
      RefusingIsBlank(StepAsWritten(s, ops[0]).0, Step(q, ops[0]).0, ops[1..]);
    }
  }

  /**
   Even with counters that start at 0, no caller can tell the code from the queue over a
   run exactly if the stream has no capacity or the run writes nothing before it ends.
   */
  lemma {:induction false} IndistinguishableIff(s: Ring, q: Stream, ops: seq<Op>)
    requires Blank(s, q) && !s.closed && !s.error
    ensures Indistinguishable(s, q, ops) <==> |s.slots| == 1 || Silent(ops)
    decreases |ops|
  {
    if ops != [] {
      var s', q' := StepAsWritten(s, ops[0]).0, Step(q, ops[0]).0;
      if ops[0].EndInput? || ops[0].SetError? {
        RefusingIsBlank(s', q', ops[1..]);
      } else if ops[0].Write? && ops[0].data != "" && |s.slots| > 1 {
        assert q'.contents != "" && !SameView(s', q');
      } else {
        IndistinguishableIff(s', q', ops[1..]);
      }
    }
  }
}
