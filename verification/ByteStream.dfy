/**
 The flow-controlled byte stream of libsponge/byte_stream.cc: a ring of capacity + 1
 slots behind the interface of a bounded queue.  The ring works as byte_stream.hh
 documents it; module ByteStreamAsWritten has the lines that fall short of that.
 */
module ByteStreams {
  import opened Bytes

  const TWO31 := 0x8000_0000
  const TWO32 := 0x1_0000_0000
  const TWO64 := 0x1_0000_0000_0000_0000

  /** Above this capacity the index arithmetic no longer fits an int (see PopIndexExact). */
  const MAX_CAPACITY := 0x3fff_ffff

  // --------------------------------------------------------------- widths of integers

  /** Conversion to a 32-bit int of a value that is not below the range already. */
  function ToInt(n: int): (r: int)
    requires n >= -TWO31
    ensures -TWO31 <= r < TWO31
  {
    if n < TWO31 then n else ToInt(n - TWO32)
  }

  /** Conversion of an int to size_t. */
  function ToSize(n: int): nat
    requires -TWO31 <= n < TWO31
  {
    if n >= 0 then n else n + TWO64
  }

  lemma {:induction false} ToIntMeaning(n: int)
    requires n >= -TWO31
    ensures ToInt(n) == n - TWO32 * ((n + TWO31) / TWO32)
  {
    if n >= TWO31 {
      ToIntMeaning(n - TWO32);
      assert (n + TWO31) / TWO32 == (n - TWO32 + TWO31) / TWO32 + 1;
    }
  }

  lemma {:induction false} ToIntAdd(a: int, n: nat)
    requires a >= -TWO31
    ensures ToInt(ToInt(a) + n) == ToInt(a + n)
  {
    if a >= TWO31 {
      ToIntAdd(a - TWO32, n);
    }
  }

  /** m_tail after pop_output: one addition in an int, one conditional subtraction. */
  function PopIndex(tail: nat, n: nat, bufSize: int): int {
    var t := ToInt(tail + n);
    if t >= bufSize then t - bufSize else t
  }

  /** This wraps around a ring of any fill level as it should exactly for capacities below 2^30. */
  lemma PopIndexExact(bufSize: nat)
    requires 0 < bufSize < TWO31
    ensures (forall tail: nat, n: nat :: tail < bufSize && n < bufSize ==>
               PopIndex(tail, n, bufSize) == (tail + n) % bufSize)
            <==> bufSize <= MAX_CAPACITY + 1
  {
    if bufSize <= MAX_CAPACITY + 1 {
      forall tail: nat, n: nat | tail < bufSize && n < bufSize
        ensures PopIndex(tail, n, bufSize) == (tail + n) % bufSize
      {
        WrapOnce(tail + n, bufSize);
      }
    } else {
      assert ToInt(2 * (bufSize - 1)) == 2 * (bufSize - 1) - TWO32;
      assert PopIndex(bufSize - 1, bufSize - 1, bufSize) < 0;
    }
  }

  lemma WrapOnce(x: nat, m: nat)
    requires 0 < m && x < 2 * m
    ensures x % m == if x < m then x else x - m
  {
  }

  /** What a counter reports for a true total of n. */
  function Counter(n: nat): nat {
    ToSize(ToInt(n))
  }

  /** It is right exactly until the total leaves the range of an int (and near 2^64). */
  lemma CounterExact(n: nat)
    ensures Counter(n) == n <==> n < TWO31 || TWO64 - TWO31 <= n < TWO64
  {
    ToIntMeaning(n);
    var k := (n + TWO31) / TWO32;
    if ToInt(n) >= 0 {
      assert Counter(n) == n <==> k == 0;
    } else {
      assert Counter(n) == n <==> TWO32 * k == TWO64;
    }
  }

  /** Written minus read is what is buffered exactly while both counters have wrapped equally often. */
  lemma CounterDifference(written: nat, read: nat)
    requires read <= written <= read + MAX_CAPACITY
    ensures (Counter(written) - Counter(read)) % TWO64 == written - read <==>
            (written + TWO31) / TWO32 == (read + TWO31) / TWO32
  {
    ToIntMeaning(written);
    ToIntMeaning(read);
    var i, j := (written + TWO31) / TWO32, (read + TWO31) / TWO32;
    var d := ToInt(written) - ToInt(read);
    assert i == j || i == j + 1;
    assert d == written - read - TWO32 * (i - j);
  }

  // ------------------------------------------------------------------ bounded queue

  datatype Stream = Stream(capacity: nat, contents: string, closed: bool, error: bool,
                           accepted: string, removed: string)

  datatype Op = Write(data: string) | Peek(len: nat) | Pop(len: nat) | Read(len: nat) | EndInput | SetError

  /** What the caller gets to see of an operation. */
  datatype Obs = Accepted(n: nat) | Got(s: string) | Done

  function Start(capacity: nat): Stream {
    Stream(capacity, "", false, false, "", "")
  }

  function Front(s: Stream, len: nat): string {
    if s.error then "" else s.contents[..Min(len, |s.contents|)]
  }

  function Room(s: Stream): nat {
    if |s.contents| <= s.capacity then s.capacity - |s.contents| else 0
  }

  function Step(s: Stream, op: Op): (Stream, Obs) {
    match op
    case Write(data) =>
      if s.closed || s.error then (s.(error := true), Accepted(0))
      else
        var n := Min(|data|, Room(s));
        (s.(contents := s.contents + data[..n], accepted := s.accepted + data[..n]), Accepted(n))
    case Peek(len) => (s, Got(Front(s, len)))
    case Pop(len) => (Consume(s, len), Done)
    case Read(len) => (Consume(s, len), Got(Front(s, len)))
    case EndInput => (s.(closed := true), Done)
    case SetError => (s.(error := true), Done)
  }

  function Consume(s: Stream, len: nat): Stream {
    var n := Min(len, |s.contents|);
    if s.error then s else s.(contents := s.contents[n..], removed := s.removed + s.contents[..n])
  }

  function Run(s: Stream, ops: seq<Op>): (r: (Stream, seq<Obs>))
    ensures |r.1| == |ops|
    decreases |ops|
  {
    if ops == [] then (s, [])
    else
      var (s1, o) := Step(s, ops[0]);
      var (s2, os) := Run(s1, ops[1..]);
      (s2, [o] + os)
  }

  // ---------------------------------------------------------- properties of all runs

  ghost predicate Conserved(s: Stream) {
    s.removed + s.contents == s.accepted && |s.contents| <= s.capacity
  }

  /** The accepted prefix of a write, by the count that the writer was told. */
  function WrittenBy(op: Op, o: Obs): string {
    if op.Write? && o.Accepted? && o.n <= |op.data| then op.data[..o.n] else ""
  }

  /** The string that a read returned. */
  function DeliveredBy(op: Op, o: Obs): string {
    if op.Read? && o.Got? then o.s else ""
  }

  function Written(ops: seq<Op>, obs: seq<Obs>): string
    requires |ops| == |obs|
    decreases |ops|
  {
    if ops == [] then "" else WrittenBy(ops[0], obs[0]) + Written(ops[1..], obs[1..])
  }

  function Delivered(ops: seq<Op>, obs: seq<Obs>): string
    requires |ops| == |obs|
    decreases |ops|
  {
    if ops == [] then "" else DeliveredBy(ops[0], obs[0]) + Delivered(ops[1..], obs[1..])
  }

  lemma StepConserves(s: Stream, op: Op)
    requires Conserved(s)
    ensures var (s', o) := Step(s, op);
            && Conserved(s') && s'.capacity == s.capacity
            && s'.accepted == s.accepted + WrittenBy(op, o)
            && (!op.Pop? ==> s'.removed == s.removed + DeliveredBy(op, o))
  {
  }

  /**
   Over every run: what was removed followed by what is buffered is what was accepted,
   that is what the writer was told it had written, and it stays within the capacity.
   */
  lemma {:induction false} RunConserves(s: Stream, ops: seq<Op>)
    requires Conserved(s)
    ensures var (s', obs) := Run(s, ops);
            Conserved(s') && s'.capacity == s.capacity && s'.accepted == s.accepted + Written(ops, obs)
    decreases |ops|
  {
    if ops != [] {
      var (s1, o) := Step(s, ops[0]);
      StepConserves(s, ops[0]);
      RunConserves(s1, ops[1..]);
      AppendAssoc(s.accepted, WrittenBy(ops[0], o), Written(ops[1..], Run(s1, ops[1..]).1));
    }
  }

  /** Without a blind pop, what was removed is exactly what the reads returned. */
  lemma {:induction false} RunDelivers(s: Stream, ops: seq<Op>)
    requires Conserved(s) && forall op :: op in ops ==> !op.Pop?
    ensures var (s', obs) := Run(s, ops); s'.removed == s.removed + Delivered(ops, obs)
    decreases |ops|
  {
    if ops != [] {
      var (s1, o) := Step(s, ops[0]);
      StepConserves(s, ops[0]);
      assert ops[0] in ops && forall op :: op in ops[1..] ==> op in ops;
      RunDelivers(s1, ops[1..]);
      AppendAssoc(s.removed, DeliveredBy(ops[0], o), Delivered(ops[1..], Run(s1, ops[1..]).1));
    }
  }

  /** The reader gets a prefix of what the writer wrote, and at eof all of it. */
  lemma ReaderGetsWhatWasWritten(capacity: nat, ops: seq<Op>)
    requires forall op :: op in ops ==> !op.Pop?
    ensures var (s, obs) := Run(Start(capacity), ops);
            && Delivered(ops, obs) <= Written(ops, obs)
            && (s.closed && s.contents == "" ==> Delivered(ops, obs) == Written(ops, obs))
  {
    RunConserves(Start(capacity), ops);
    RunDelivers(Start(capacity), ops);
    var (s, obs) := Run(Start(capacity), ops);
    assert s.accepted == Written(ops, obs) && s.removed == Delivered(ops, obs);
  }

  /** After an error nothing moves any more: no write is accepted, no read returns anything. */
  lemma {:induction false} ErrorFreezes(s: Stream, ops: seq<Op>)
    requires s.error
    ensures var (s', obs) := Run(s, ops);
            && s'.(closed := s.closed) == s && (s.closed ==> s'.closed)
            && (forall i :: 0 <= i < |obs| ==> obs[i] in {Accepted(0), Got(""), Done})
    decreases |ops|
  {
    if ops != [] {
      ErrorFreezes(Step(s, ops[0]).0, ops[1..]);
    }
  }

  /** The stream is closed by an EndInput, and fails by a SetError or by a write after an EndInput. */
  lemma {:induction false} FlagsIff(s: Stream, ops: seq<Op>)
    ensures var s' := Run(s, ops).0;
            && (s'.closed <==> s.closed || EndInput in ops)
            && (s'.error <==> s.error || SetError in ops ||
                              exists j :: 0 <= j < |ops| && ops[j].Write? && (s.closed || EndInput in ops[..j]))
    decreases |ops|
  {
    if ops != [] {
      var s1 := Step(s, ops[0]).0;
      FlagsIff(s1, ops[1..]);
      assert ops == [ops[0]] + ops[1..];
      forall j | 0 < j < |ops|
        ensures ops[1..][j - 1] == ops[j]
        ensures s.closed || EndInput in ops[..j] <==> s1.closed || EndInput in ops[1..][..j - 1]
      {
        assert ops[..j] == [ops[0]] + ops[1..][..j - 1];
      }
      if j :| 0 <= j < |ops[1..]| && ops[1..][j].Write? && (s1.closed || EndInput in ops[1..][..j]) {
        assert ops[j + 1].Write? && (s.closed || EndInput in ops[..j + 1]);
      }
    }
  }

  /** Without an error, a write stops only at the end of its data or room, a read only at that of the contents. */
  lemma Greedy(s: Stream, data: string, len: nat)
    requires Conserved(s) && !s.error
    ensures var (s', o) := Step(s, Write(data));
            !s.closed ==> o == Accepted(|s'.contents| - |s.contents|) && (o.n == |data| || |s'.contents| == s.capacity)
    ensures var (s', o) := Step(s, Read(len));
            && o.s + s'.contents == s.contents && (|o.s| == len || s'.contents == "") && |o.s| <= len
            && Step(s, Peek(len)) == (s, o) && Step(s, Pop(len)) == (s', Done)
  {
  }

  /** How a write is cut up does not matter. */
  lemma WriteSplit(s: Stream, a: string, b: string)
    requires Conserved(s)
    ensures var (s1, o1) := Step(s, Write(a));
            var (s2, o2) := Step(s1, Write(b));
            Step(s, Write(a + b)) == (s2, Accepted(o1.n + o2.n))
  {
    if !s.closed && !s.error {
      var n := Min(|a|, Room(s));
      var m := Min(|b|, Room(s) - n);
      assert a[..n] + b[..m] == (a + b)[..n + m];
      AppendAssoc(s.contents, a[..n], b[..m]);
      AppendAssoc(s.accepted, a[..n], b[..m]);
      assert Step(s, Write(a)).0.contents == s.contents + a[..n];
      assert Step(s, Write(a + b)).1 == Accepted(n + m);
    }
  }

  /** Nor does it matter how a read is. */
  lemma ReadSplit(s: Stream, m: nat, n: nat)
    ensures var (s1, o1) := Step(s, Read(m));
            var (s2, o2) := Step(s1, Read(n));
            Step(s, Read(m + n)) == (s2, Got(o1.s + o2.s))
  {
    ConsumeSplit(s, m, n);
  }

  lemma ConsumeSplit(s: Stream, m: nat, n: nat)
    ensures Consume(Consume(s, m), n) == Consume(s, m + n)
    ensures Front(s, m) + Front(Consume(s, m), n) == Front(s, m + n)
  {
    if s.error {
      assert "" + "" == "";
    } else {
      var a := Min(m, |s.contents|);
      var b := Min(n, |s.contents| - a);
      TakeTwice(s.contents, a, b);
      assert Consume(s, m).contents == s.contents[a..];
      assert Min(m + n, |s.contents|) == a + b;
      AppendAssoc(s.removed, s.contents[..a], s.contents[a..][..b]);
    }
  }

  lemma TakeTwice(c: string, a: nat, b: nat)
    requires a + b <= |c|
    ensures c[..a] + c[a..][..b] == c[..a + b] && c[a..][b..] == c[a + b..]
  {
  }

  function Writes(chunks: seq<string>): seq<Op>
    decreases |chunks|
  {
    if chunks == [] then [] else [Write(chunks[0])] + Writes(chunks[1..])
  }

  /** Any series of writes is one write of the joined data: it accepts the longest prefix that fits. */
  lemma {:induction false} WriteChunks(s: Stream, chunks: seq<string>)
    requires Conserved(s) && !s.closed && !s.error
    ensures var (s', obs) := Run(s, Writes(chunks));
            && |Writes(chunks)| == |obs|
            && s' == Step(s, Write(Concat(chunks))).0
            && Written(Writes(chunks), obs) == Concat(chunks)[..Min(|Concat(chunks)|, Room(s))]
    decreases |chunks|
  {
    var all := Concat(chunks);
    if chunks == [] {
      assert s.contents + all[..0] == s.contents && s.accepted + all[..0] == s.accepted;
    } else {
      var ops := Writes(chunks);
      var s1 := Step(s, Write(chunks[0])).0;
      assert ops[1..] == Writes(chunks[1..]);
      StepConserves(s, Write(chunks[0]));
      WriteChunks(s1, chunks[1..]);
      WriteSplit(s, chunks[0], Concat(chunks[1..]));
      RunConserves(s, ops);
      AcceptedIs(s, Run(s, ops).0, Written(ops, Run(s, ops).1), all);
    }
  }

  lemma AcceptedIs(s: Stream, s': Stream, written: string, data: string)
    requires !s.closed && !s.error && s' == Step(s, Write(data)).0 && s'.accepted == s.accepted + written
    ensures written == data[..Min(|data|, Room(s))]
  {
    var accepted := data[..Min(|data|, Room(s))];
    assert written == (s.accepted + written)[|s.accepted|..] && accepted == (s.accepted + accepted)[|s.accepted|..];
  }

  function Reads(lens: seq<nat>): seq<Op>
    decreases |lens|
  {
    if lens == [] then [] else [Read(lens[0])] + Reads(lens[1..])
  }

  function Sum(lens: seq<nat>): nat
    decreases |lens|
  {
    if lens == [] then 0 else lens[0] + Sum(lens[1..])
  }

  /** Any series of reads is one read of the summed length: it returns the front and leaves the rest. */
  lemma {:induction false} ReadChunks(s: Stream, lens: seq<nat>)
    ensures var (s', obs) := Run(s, Reads(lens));
            && |Reads(lens)| == |obs|
            && s' == Consume(s, Sum(lens)) && Delivered(Reads(lens), obs) == Front(s, Sum(lens))
    decreases |lens|
  {
    if lens == [] {
      ReadNothing(s);
    } else {
      ReadChunks(Consume(s, lens[0]), lens[1..]);
      ReadsCons(s, lens);
      assert Run(s, Reads(lens)).0 == Consume(Consume(s, lens[0]), Sum(lens[1..]));
      ConsumeSplit(s, lens[0], Sum(lens[1..]));
    }
  }

  lemma ReadNothing(s: Stream)
    ensures Consume(s, 0) == s && Front(s, 0) == ""
  {
    assert s.contents[0..] == s.contents && s.removed + s.contents[..0] == s.removed;
  }

  lemma ReadsCons(s: Stream, lens: seq<nat>)
    requires lens != []
    ensures var (s2, os) := Run(Consume(s, lens[0]), Reads(lens[1..]));
            && Run(s, Reads(lens)) == (s2, [Got(Front(s, lens[0]))] + os)
            && Delivered(Reads(lens), [Got(Front(s, lens[0]))] + os) ==
               Front(s, lens[0]) + Delivered(Reads(lens[1..]), os)
  {
    var os := Run(Consume(s, lens[0]), Reads(lens[1..])).1;
    assert Reads(lens)[1..] == Reads(lens[1..]);
    assert ([Got(Front(s, lens[0]))] + os)[1..] == os;
  }

  // -------------------------------------------------------------------- the ring buffer

  function Next(i: nat, size: nat): nat {
    if i + 1 < size then i + 1 else 0
  }

  /** The number of slots from tail up to head, around the end of a ring. */
  function Distance(tail: nat, head: nat, size: nat): nat
    requires tail < size && head < size
  {
    if tail <= head then head - tail else head - tail + size
  }

  /** What those slots hold. */
  function View(ring: string, tail: nat, head: nat): (r: string)
    requires tail < |ring| && head < |ring|
    ensures |r| == Distance(tail, head, |ring|)
    decreases Distance(tail, head, |ring|)
  {
    if tail == head then "" else [ring[tail]] + View(ring, Next(tail, |ring|), head)
  }

  /** A slot written at head is appended, unless the ring was full. */
  lemma {:induction false} ViewPut(ring: string, tail: nat, head: nat, c: char)
    requires tail < |ring| && head < |ring| && Distance(tail, head, |ring|) < |ring| - 1
    ensures View(ring[head := c], tail, Next(head, |ring|)) == View(ring, tail, head) + [c]
    decreases Distance(tail, head, |ring|)
  {
    var ring' := ring[head := c];
    if tail == head {
      assert View(ring', Next(head, |ring|), Next(head, |ring|)) == "";
    } else {
      ViewPut(ring, Next(tail, |ring|), head, c);
      assert ring'[tail] == ring[tail];
      AppendAssoc([ring[tail]], View(ring, Next(tail, |ring|), head), [c]);
    }
  }

  /** Advancing the tail by n, with one conditional subtraction, drops the first n octets. */
  lemma {:induction false} ViewDrop(ring: string, tail: nat, head: nat, n: nat)
    requires tail < |ring| && head < |ring| && n <= Distance(tail, head, |ring|)
    ensures View(ring, if tail + n < |ring| then tail + n else tail + n - |ring|, head) == View(ring, tail, head)[n..]
    decreases n
  {
    if n > 0 {
      ViewDrop(ring, Next(tail, |ring|), head, n - 1);
      assert View(ring, tail, head)[n..] == View(ring, Next(tail, |ring|), head)[n - 1..];
    }
  }

  lemma ViewAt(ring: string, tail: nat, head: nat, i: nat)
    requires tail < |ring| && head < |ring| && i < Distance(tail, head, |ring|)
    ensures View(ring, tail, head)[i] == ring[if tail + i < |ring| then tail + i else tail + i - |ring|]
  {
    ViewDrop(ring, tail, head, i);
    assert View(ring, tail, head)[i] == View(ring, tail, head)[i..][0];
  }

  lemma WriteBalances(removed: string, contents: string, data: string)
    ensures removed + (contents + data) == removed + contents + data
  {
  }

  lemma PopBalances(removed: string, contents: string, n: nat)
    requires n <= |contents|
    ensures removed + contents[..n] + contents[n..] == removed + contents
  {
    assert contents == contents[..n] + contents[n..];
  }

  class ByteStream {
    var tail: int
    var head: int
    var closed: bool
    var buf: array<char>
    var bufSize: int
    var error: bool
    var numOfR: int
    var numOfW: int
    ghost var accepted: string
    ghost var removed: string

    ghost predicate Valid()
      reads this, buf
    {
      && 0 < bufSize == buf.Length <= MAX_CAPACITY + 1
      && 0 <= tail < bufSize && 0 <= head < bufSize
      && removed + Contents() == accepted
      && numOfW == ToInt(|accepted|) && numOfR == ToInt(|removed|)
    }

    ghost function Contents(): string
      requires 0 <= tail < buf.Length && 0 <= head < buf.Length
      reads this, buf
    {
      View(buf[..], tail, head)
    }

    ghost function Abs(): Stream
      requires Valid()
      reads this, buf
    {
      Stream(bufSize - 1, Contents(), closed, error, accepted, removed)
    }

    constructor (capacity: nat)
      requires capacity <= MAX_CAPACITY
      ensures Valid() && fresh(buf) && Abs() == Start(capacity)
    {
      head, tail, closed := 0, 0, false;
      bufSize := capacity + 1;
      buf := new char[capacity + 1];
      error, numOfR, numOfW := false, 0, 0;
      accepted, removed := "", "";
    }

    method BufferSize() returns (r: int)
      requires Valid()
      ensures r == |Abs().contents|
    {
      r := head - tail;
      if r < 0 {
        r := r + bufSize;
      }
    }

    /** An equal head and tail mean empty, never full. */
    method BufferEmpty() returns (r: bool)
      requires Valid()
      ensures r <==> Abs().contents == ""
    {
      r := head == tail;
    }

    method RemainingCapacity() returns (r: int)
      requires Valid()
      ensures r == Abs().capacity - |Abs().contents| >= 0
    {
      var size := BufferSize();
      r := bufSize - 1 - size;
    }

    method InputEnded() returns (r: bool)
      ensures r == closed
    {
      r := closed;
    }

    /** At eof everything accepted has been removed. */
    method Eof() returns (r: bool)
      requires Valid()
      ensures r <==> Abs().closed && Abs().contents == ""
      ensures r ==> Abs().removed == Abs().accepted
    {
      var ended := InputEnded();
      var empty := BufferEmpty();
      r := ended && empty;
    }

    method BytesWritten() returns (r: nat)
      requires Valid()
      ensures r == Counter(|Abs().accepted|)
    {
      r := ToSize(numOfW);
    }

    method BytesRead() returns (r: nat)
      requires Valid()
      ensures r == Counter(|Abs().removed|)
    {
      r := ToSize(numOfR);
    }

    method SetError()
      requires Valid()
      modifies `error
      ensures Valid() && (Abs(), Done) == Step(old(Abs()), Op.SetError)
    {
      error := true;
    }

    method EndInput()
      requires Valid()
      modifies `closed
      ensures Valid() && (Abs(), Done) == Step(old(Abs()), Op.EndInput)
    {
      closed := true;
    }

    method Write(data: string) returns (n: nat)
      requires Valid()
      modifies `head, `numOfW, `error, `accepted, buf
      ensures Valid() && (Abs(), Accepted(n)) == Step(old(Abs()), Op.Write(data))
    {
      if closed || error {
        SetError();
        return 0;
      }
      n := Accept(data);
    }

    /** Lines 31-46: as much as there is room for. */
    method Accept(data: string) returns (n: nat)
      requires Valid()
      modifies `head, `numOfW, `accepted, buf
      ensures Valid() && n == Min(|data|, old(Room(Abs())))
      ensures Contents() == old(Contents()) + data[..n] && accepted == old(accepted) + data[..n]
    {
      n := |data|;
      var r := RemainingCapacity();
      n := if n > r then r else n;
      PutAll(data, n);
      ToIntAdd(|accepted|, n);
      numOfW := ToInt(numOfW + n);
      accepted := accepted + data[..n];
    }

    /** The copying loop. */
    method PutAll(data: string, n: nat)
      requires 0 < bufSize == buf.Length && 0 <= tail < bufSize && 0 <= head < bufSize
      requires n <= |data| && |Contents()| + n <= bufSize - 1
      modifies `head, buf
      ensures 0 <= head < bufSize && Contents() == old(Contents()) + data[..n]
      ensures removed + Contents() == removed + old(Contents()) + data[..n]
    {
      ghost var before := Contents();
      var i := 0;
      while i < n
        invariant 0 <= i <= n
        invariant 0 <= head < bufSize == buf.Length && Contents() == before + data[..i]
      {
        ViewPut(buf[..], tail, head, data[i]);
        buf[head] := data[i];
        head := head + 1;
        if head >= bufSize {
          head := 0;
        }
        AppendAssoc(before, data[..i], [data[i]]);
        assert data[..i] + [data[i]] == data[..i + 1];
        i := i + 1;
      }
      WriteBalances(removed, before, data[..n]);
    }

    method PeekOutput(len: nat) returns (s: string)
      requires Valid()
      ensures s == Front(Abs(), len)
    {
      if error {
        return "";
      }
      var r := BufferSize();
      var n := if len > r then r else len;
      s := "";
      var t := tail;
      var i := 0;
      while i < n
        invariant i <= n && s == Contents()[..i]
        invariant 0 <= t < bufSize && t == if tail + i < bufSize then tail + i else tail + i - bufSize
      {
        ViewAt(buf[..], tail, head, i);
        s := s + [buf[t]];
        t := t + 1;
        if t >= bufSize {
          t := 0;
        }
        i := i + 1;
      }
    }

    method PopOutput(len: nat)
      requires Valid()
      modifies `tail, `numOfR, `removed
      ensures Valid() && Abs() == Consume(old(Abs()), len)
    {
      if error {
        return;
      }
      Release(len);
    }

    /** Lines 85-92: as much as is buffered. */
    method Release(len: nat)
      requires Valid()
      modifies `tail, `numOfR, `removed
      ensures Valid()
      ensures var c, n := old(Contents()), Min(len, |old(Contents())|);
              Contents() == c[n..] && removed == old(removed) + c[..n]
    {
      var r := BufferSize();
      var n := if len > r then r else len;
      ghost var before := Contents();
      AdvanceTail(n);
      ToIntAdd(|removed|, n);
      ghost var all := removed + before[..n];
      assert |all| == |removed| + n && all + Contents() == accepted;
      numOfR := ToInt(numOfR + n);
      removed := all;
    }

    /** The index arithmetic, in an int. */
    method AdvanceTail(n: nat)
      requires 0 < bufSize == buf.Length <= MAX_CAPACITY + 1 && 0 <= tail < bufSize && 0 <= head < bufSize
      requires n <= |Contents()| && removed + Contents() == accepted
      modifies `tail
      ensures 0 <= tail < bufSize && Contents() == old(Contents())[n..]
      ensures removed + old(Contents())[..n] + Contents() == accepted
    {
      PopBalances(removed, Contents(), n);
      ViewDrop(buf[..], tail, head, n);
      tail := ToInt(tail + n);
      if tail >= bufSize {
        tail := tail - bufSize;
      }
    }

    /** Peek, then pop. */
    method Read(len: nat) returns (s: string)
      requires Valid()
      modifies `tail, `numOfR, `removed
      ensures Valid() && s == Front(old(Abs()), len) && Abs() == Consume(old(Abs()), len)
    {
      s := PeekOutput(len);
      PopOutput(len);
    }
  }

  /** Any run on the ring is the same run on the queue. */
  method Execute(stream: ByteStream, ops: seq<Op>) returns (obs: seq<Obs>)
    requires stream.Valid()
    modifies stream, stream.buf
    ensures stream.Valid() && stream.buf == old(stream.buf) && (stream.Abs(), obs) == Run(old(stream.Abs()), ops)
  {
    obs := [];
    var i := 0;
    assert ops[0..] == ops;
    assert obs + Run(stream.Abs(), ops).1 == Run(stream.Abs(), ops).1;
    while i < |ops|
      invariant i <= |ops| && stream.Valid() && stream.buf == old(stream.buf)
      invariant |obs| == i
      invariant var rest := Run(stream.Abs(), ops[i..]);
                Run(old(stream.Abs()), ops) == (rest.0, obs + rest.1)
    {
      assert ops[i..][1..] == ops[i + 1..];
      var o := ExecuteOne(stream, ops[i]);
      AppendAssoc(obs, [o], Run(stream.Abs(), ops[i + 1..]).1);
      obs := obs + [o];
      i := i + 1;
    }
    assert ops[i..] == [] && obs + [] == obs;
  }

  method ExecuteOne(stream: ByteStream, op: Op) returns (o: Obs)
    requires stream.Valid()
    modifies stream, stream.buf
    ensures stream.Valid() && stream.buf == old(stream.buf) && (stream.Abs(), o) == Step(old(stream.Abs()), op)
  {
    match op
    case Write(data) => var n := stream.Write(data); o := Accepted(n);
    case Peek(len) => var s := stream.PeekOutput(len); o := Got(s);
    case Pop(len) => stream.PopOutput(len); o := Done;
    case Read(len) => var s := stream.Read(len); o := Got(s);
    case EndInput => stream.EndInput(); o := Done;
    case SetError => stream.SetError(); o := Done;
  }
}
