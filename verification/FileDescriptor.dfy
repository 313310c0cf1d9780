/**
 Reading and writing through libsponge/util/file_descriptor.cc.  The kernel is an
 adversary: it answers every call as it likes, and it records the octets it took.
 */
module FileDescriptors {
  import opened Bytes
  import opened Buffers

  /** The counts that an int can hold, which is what SystemCall passes on; the kernel keeps to them. */
  type ByteCount = n: nat | n < 0x8000_0000

  datatype WritevAnswer = Count(n: ByteCount) | Failed

  datatype ReadAnswer = Data(bytes: seq<byte>) | ReadFailed

  class Kernel {
    const answers: nat -> WritevAnswer  // what the k-th writev returns
    var calls: nat
    ghost var taken: seq<byte>

    constructor (answers: nat -> WritevAnswer)
      ensures this.answers == answers && calls == 0 && taken == []
    {
      this.answers := answers;
      calls := 0;
      taken := [];
    }

    /** A count beyond the end of the data means that all of it was taken. */
    method Writev(iovecs: seq<seq<byte>>) returns (r: WritevAnswer)
      modifies this
      ensures r == answers(old(calls)) && calls == old(calls) + 1
      ensures taken == old(taken) + if r.Failed? then [] else Concat(iovecs)[..Min(r.n, |Concat(iovecs)|)]
    {
      r := answers(calls);
      calls := calls + 1;
      if r.Count? {
        taken := taken + Concat(iovecs)[..Min(r.n, |Concat(iovecs)|)];
      }
    }
  }

  // ------------------------------------------------------------- the run of one write

  /** The value returned, or the exception thrown. */
  datatype WriteOutcome = Wrote(total: nat) | SyscallFailed | WroteNothing | WroteTooMuch

  /** `calls` writev calls were made and `registered` of them counted; the kernel took the first `taken` octets. */
  datatype WriteRun = WriteRun(outcome: WriteOutcome, calls: nat, registered: nat, taken: nat)

  /** One writev when `size` octets are left, with the checks of its result. */
  function Round(size: nat, answer: WritevAnswer): WriteRun {
    match answer
    case Failed => WriteRun(SyscallFailed, 1, 0, 0)
    case Count(n) =>
      if n == 0 && size != 0 then WriteRun(WroteNothing, 1, 0, 0)
      else if n > size then WriteRun(WroteTooMuch, 1, 0, size)
      else WriteRun(Wrote(n), 1, 1, n)
  }

  /** Another round follows exactly if this one took something with `writeAll` and left something. */
  predicate GoesOn(once: WriteRun, size: nat, writeAll: bool) {
    once.outcome.Wrote? && writeAll && once.outcome.total < size
  }

  function RunWrite(size: nat, answers: nat -> WritevAnswer, from: nat, writeAll: bool): WriteRun
    decreases size
  {
    var once := Round(size, answers(from));
    if GoesOn(once, size, writeAll) then
      After(once.taken, 1, RunWrite(size - once.taken, answers, from + 1, writeAll))
    else once
  }

  /** A run that comes after `calls` good calls which took `head` octets. */
  function After(head: nat, calls: nat, run: WriteRun): WriteRun {
    WriteRun(if run.outcome.Wrote? then Wrote(head + run.outcome.total) else run.outcome,
             calls + run.calls, calls + run.registered, head + run.taken)
  }

  /**
   Whatever the kernel answers: a returned total is what the kernel took and with
   `writeAll` the whole, only a call that makes `write` throw goes uncounted, and every
   call but the last moved some octet.
   */
  lemma {:induction false} WriteSafe(size: nat, answers: nat -> WritevAnswer, from: nat, writeAll: bool)
    ensures var run := RunWrite(size, answers, from, writeAll);
            && run.taken <= size
            && (run.outcome.Wrote? ==> run.taken == run.outcome.total)
            && (run.outcome.Wrote? && writeAll ==> run.taken == size)
            && run.calls == run.registered + (if run.outcome.Wrote? then 0 else 1)
            && (!writeAll ==> run.calls == 1)
            && run.calls <= size + 1
    decreases size
  {
    var once := Round(size, answers(from));
    if GoesOn(once, size, writeAll) {
      WriteSafe(size - once.taken, answers, from + 1, writeAll);
    }
  }

  /** The sum of the k answers from `from` on. */
  function Total(answers: nat -> WritevAnswer, from: nat, k: nat): nat
    decreases k
  {
    if k == 0 then 0
    else (if answers(from).Count? then answers(from).n else 0) + Total(answers, from + 1, k - 1)
  }

  /** k successful answers that add up to `size`, each of them progress unless there is none to make. */
  ghost predicate Fills(answers: nat -> WritevAnswer, from: nat, size: nat, k: nat) {
    && k >= 1 && Total(answers, from, k) == size
    && (forall j: nat :: from <= j < from + k ==> answers(j).Count? && (size > 0 ==> answers(j).n > 0))
    && (size == 0 ==> k == 1)
  }

  /** `write` with write_all returns exactly when the answers add up to the size of the content. */
  lemma WriteAllReturnsIff(size: nat, answers: nat -> WritevAnswer, from: nat)
    ensures RunWrite(size, answers, from, true).outcome.Wrote? <==> exists k: nat :: Fills(answers, from, size, k)
  {
    if RunWrite(size, answers, from, true).outcome.Wrote? {
      ReturnsFills(size, answers, from);
    }
    if k: nat :| Fills(answers, from, size, k) {
      FillsReturns(size, answers, from, k);
    }
  }

  lemma {:induction false} ReturnsFills(size: nat, answers: nat -> WritevAnswer, from: nat)
    requires RunWrite(size, answers, from, true).outcome.Wrote?
    ensures Fills(answers, from, size, RunWrite(size, answers, from, true).calls)
    decreases size
  {
    var n := answers(from).n;
    if n < size {
      var rest := RunWrite(size - n, answers, from + 1, true);
      ReturnsFills(size - n, answers, from + 1);
      assert Total(answers, from, rest.calls + 1) == n + Total(answers, from + 1, rest.calls);
    } else {
      assert Total(answers, from, 1) == n + Total(answers, from + 1, 0);
    }
  }

  lemma {:induction false} FillsReturns(size: nat, answers: nat -> WritevAnswer, from: nat, k: nat)
    requires Fills(answers, from, size, k)
    ensures RunWrite(size, answers, from, true).outcome.Wrote?
    decreases size
  {
    var n := answers(from).n;
    assert Total(answers, from, k) == n + Total(answers, from + 1, k - 1);
    if k == 1 {
      assert Total(answers, from + 1, 0) == 0;
    } else {
      assert answers(from + 1).n > 0;
      assert Total(answers, from + 1, k - 1) == answers(from + 1).n + Total(answers, from + 2, k - 2);
      FillsReturns(size - n, answers, from + 1, k - 1);
    }
  }

  /** `rounds` rounds took `total` octets, each of them some, and left something for another one. */
  ghost predicate Progressed(size: nat, answers: nat -> WritevAnswer, from: nat, rounds: nat, total: nat)
    decreases rounds
  {
    if rounds == 0 then total == 0
    else
      && answers(from).Count? && 0 < answers(from).n < size && answers(from).n <= total
      && Progressed(size - answers(from).n, answers, from + 1, rounds - 1, total - answers(from).n)
  }

  lemma {:induction false} ProgressOn(size: nat, answers: nat -> WritevAnswer, from: nat, rounds: nat, total: nat)
    requires Progressed(size, answers, from, rounds, total) && total <= size
    requires GoesOn(Round(size - total, answers(from + rounds)), size - total, true)
    ensures Progressed(size, answers, from, rounds + 1, total + Round(size - total, answers(from + rounds)).taken)
    decreases rounds
  {
    if rounds > 0 {
      var n := answers(from).n;
      ProgressOn(size - n, answers, from + 1, rounds - 1, total - n);
    }
  }

  /** The round after that ends the run: this is the run. */
  lemma {:induction false} ProgressEnds(size: nat, answers: nat -> WritevAnswer, from: nat, writeAll: bool,
                                        rounds: nat, total: nat)
    requires Progressed(size, answers, from, rounds, total) && total <= size && (rounds > 0 ==> writeAll)
    requires !GoesOn(Round(size - total, answers(from + rounds)), size - total, writeAll)
    ensures RunWrite(size, answers, from, writeAll) ==
            After(total, rounds, Round(size - total, answers(from + rounds)))
    decreases rounds
  {
    if rounds > 0 {
      var n := answers(from).n;
      ProgressEnds(size - n, answers, from + 1, writeAll, rounds - 1, total - n);
    }
  }

  /** Which exception it is, and that it is one, shows in the last answer and the sum of all. */
  lemma {:induction false} ThrowReason(size: nat, answers: nat -> WritevAnswer, from: nat, writeAll: bool)
    ensures var run := RunWrite(size, answers, from, writeAll);
            && run.calls > 0
            && var last := answers(from + run.calls - 1);
               && (run.outcome == SyscallFailed <==> last.Failed?)
               && (run.outcome == WroteNothing <==> last == Count(0) && size != 0)
               && (run.outcome == WroteTooMuch <==> last.Count? && Total(answers, from, run.calls) > size)
               && (run.outcome == WroteTooMuch ==> run.taken == size)
    decreases size
  {
    var once := Round(size, answers(from));
    if GoesOn(once, size, writeAll) {
      var rest := RunWrite(size - once.taken, answers, from + 1, writeAll);
      ThrowReason(size - once.taken, answers, from + 1, writeAll);
      assert Total(answers, from, rest.calls + 1) == once.taken + Total(answers, from + 1, rest.calls);
    } else {
      assert Total(answers, from + 1, 0) == 0;
    }
  }

  // --------------------------------------------------------------------- the classes

  /** The state that all duplicates of a descriptor share. */
  class FDWrapper {
    var eof: bool
    var closed: bool
    var readCount: nat
    var writeCount: nat

    constructor ()
      ensures !eof && !closed && readCount == 0 && writeCount == 0
    {
      eof, closed, readCount, writeCount := false, false, 0, 0;
    }
  }

  class FileDescriptor {
    const internalFd: FDWrapper

    constructor (wrapper: FDWrapper)
      ensures internalFd == wrapper
    {
      internalFd := wrapper;
    }

    method Duplicate() returns (r: FileDescriptor)
      ensures fresh(r) && r.internalFd == internalFd
    {
      r := new FileDescriptor(internalFd);
    }

    /** None stands for an exception; the end of the file is noted once and for all. */
    method Read(limit: nat, answer: ReadAnswer) returns (r: Option<seq<byte>>)
      modifies internalFd
      ensures r == if answer.Data? && |answer.bytes| <= Min(0x10_0000, limit) then Some(answer.bytes) else None
      ensures internalFd.eof <==> old(internalFd.eof) || (limit > 0 && answer == Data([]))
      ensures internalFd.readCount == old(internalFd.readCount) + if r.Some? then 1 else 0
      ensures unchanged(internalFd`closed, internalFd`writeCount)
    {
      var sizeToRead := Min(0x10_0000, limit);
      if answer.ReadFailed? {
        return None;
      }
      if limit > 0 && |answer.bytes| == 0 {
        internalFd.eof := true;
      }
      if |answer.bytes| > sizeToRead {
        return None;
      }
      internalFd.readCount := internalFd.readCount + 1;
      return Some(answer.bytes);
    }

    /** The body of the loop: one writev, its checks, and the removal of what was taken. */
    method WriteOnce(kernel: Kernel, rest: BufferViewList) returns (r: WriteOutcome)
      modifies internalFd`writeCount, kernel, rest
      ensures var left := old(rest.Contents());
              var once := Round(|left|, kernel.answers(old(kernel.calls)));
              && r == once.outcome && once.taken <= |left|
              && kernel.calls == old(kernel.calls) + 1
              && kernel.taken == old(kernel.taken) + left[..once.taken]
              && internalFd.writeCount == old(internalFd.writeCount) + once.registered
              && (r.Wrote? ==> rest.Contents() == left[once.taken..])
    {
      var iovecs := rest.AsIovecs();
      var written := kernel.Writev(iovecs);
      if written.Failed? {
        return SyscallFailed;
      }
      var size := rest.Size();
      if written.n == 0 && size != 0 {
        return WroteNothing;
      }
      if written.n > size {
        return WroteTooMuch;
      }
      internalFd.writeCount := internalFd.writeCount + 1;
      var ok := rest.RemovePrefix(written.n);
      return Wrote(written.n);
    }

    /**
     The kernel takes the first octets of the content in order, as many as the run says.
     The caller's view list is passed by value and stays as it is.
     */
    method Write(kernel: Kernel, buffer: BufferViewList, writeAll: bool) returns (r: WriteOutcome)
      modifies internalFd`writeCount, kernel
      ensures var content := buffer.Contents();
              var run := RunWrite(|content|, kernel.answers, old(kernel.calls), writeAll);
              && r == run.outcome && run.taken <= |content|
              && kernel.calls == old(kernel.calls) + run.calls
              && kernel.taken == old(kernel.taken) + content[..run.taken]
              && internalFd.writeCount == old(internalFd.writeCount) + run.registered
    {
      ghost var from := kernel.calls;
      ghost var rounds, before, once;
      r, rounds, before, once := WriteRounds(kernel, buffer, writeAll);
      ProgressEnds(|buffer.Contents()|, kernel.answers, from, writeAll, rounds, before);
    }

    /** The loop: `rounds` rounds took `before` octets, and the one after them was the last. */
    method WriteRounds(kernel: Kernel, buffer: BufferViewList, writeAll: bool)
      returns (r: WriteOutcome, ghost rounds: nat, ghost before: nat, ghost once: WriteRun)
      modifies internalFd`writeCount, kernel
      ensures before <= |buffer.Contents()| && (rounds > 0 ==> writeAll)
      ensures Progressed(|buffer.Contents()|, kernel.answers, old(kernel.calls), rounds, before)
      ensures once == Round(|buffer.Contents()| - before, kernel.answers(old(kernel.calls) + rounds))
      ensures !GoesOn(once, |buffer.Contents()| - before, writeAll)
      ensures before + once.taken <= |buffer.Contents()|
      ensures r == if once.outcome.Wrote? then Wrote(before + once.outcome.total) else once.outcome
      ensures kernel.calls == old(kernel.calls) + rounds + 1
      ensures kernel.taken == old(kernel.taken) + buffer.Contents()[..before + once.taken]
      ensures internalFd.writeCount == old(internalFd.writeCount) + rounds + once.registered
    {
      ghost var content, from, history := buffer.Contents(), kernel.calls, kernel.taken;
      var rest := new BufferViewList.Copy(buffer);
      var total := 0;
      ghost var head, left := [], content;
      rounds := 0;
      while true
        invariant rest.Contents() == left && content == head + left && |head| == total
        invariant kernel.taken == history + head
        invariant Progressed(|content|, kernel.answers, from, rounds, total) && (rounds > 0 ==> writeAll)
        invariant kernel.calls == from + rounds && internalFd.writeCount == old(internalFd.writeCount) + rounds
        decreases |left|
      {
        before, once := total, Round(|left|, kernel.answers(from + rounds));
        r := WriteOnce(kernel, rest);
        MoveOver(history, content, head, left, once.taken);
        head, left := head + left[..once.taken], left[once.taken..];
        if !r.Wrote? {
          return;
        }
        total := total + r.total;
        var size := rest.Size();
        if !(writeAll && size != 0) {
          return Wrote(total), rounds, before, once;
        }
        ProgressOn(|content|, kernel.answers, from, rounds, before);
        rounds := rounds + 1;
      }
    }
  }

  lemma MoveOver(history: seq<byte>, content: seq<byte>, head: seq<byte>, left: seq<byte>, n: nat)
    requires content == head + left && n <= |left|
    ensures content == head + left[..n] + left[n..]
    ensures history + head + left[..n] == history + (head + left[..n]) == history + content[..|head| + n]
  {
  }
}
