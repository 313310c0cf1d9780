/**
 The reference-counted strings of libsponge/util/buffer.cc.  A Buffer is a suffix of a
 shared, immutable string; a BufferList is a queue of Buffers of its own; a
 BufferViewList is a queue of plain views.
 */
module Buffers {
  import opened Bytes

  /** The string that several Buffers may share. */
  class Storage {
    const bytes: seq<byte>

    constructor (s: seq<byte>)
      ensures bytes == s
    {
      bytes := s;
    }
  }

  class Buffer {
    var storage: Storage?
    var startingOffset: nat

    ghost predicate Valid()
      reads this
    {
      storage != null ==> startingOffset <= |storage.bytes|
    }

    function Str(): seq<byte>
      requires Valid()
      reads this
    {
      if storage == null then [] else storage.bytes[startingOffset..]
    }

    constructor (s: seq<byte>)
      ensures Valid() && Str() == s && storage != null && fresh(storage)
    {
      storage := new Storage(s);
      startingOffset := 0;
    }

    /** A copy of a Buffer shares its string. */
    constructor Copy(other: Buffer)
      requires other.Valid()
      ensures Valid() && storage == other.storage && startingOffset == other.startingOffset
    {
      storage := other.storage;
      startingOffset := other.startingOffset;
    }

    /** False stands for the out_of_range exception. */
    method RemovePrefix(n: nat) returns (ok: bool)
      requires Valid()
      modifies this
      ensures Valid()
      ensures ok <==> n <= |old(Str())|
      ensures ok ==> Str() == old(Str())[n..]
      ensures ok && old(storage) != null ==> storage == if Str() == [] then null else old(storage)
      ensures !ok ==> unchanged(this)
    {
      if n > |Str()| {
        return false;
      }
      startingOffset := startingOffset + n;
      if storage != null && startingOffset == |storage.bytes| {
        storage := null;
      }
      return true;
    }
  }

  // ------------------------------------------------ dropping from a list of fragments

  /** What is left of the fragments without their first n octets; None if there are fewer. */
  function Drop(views: seq<seq<byte>>, n: nat): Option<seq<seq<byte>>>
    decreases |views|
  {
    if n == 0 then Some(views)
    else if views == [] then None
    else if n < |views[0]| then Some([views[0][n..]] + views[1..])
    else Drop(views[1..], n - |views[0]|)
  }

  /** On the concatenation this is plain `[n..]`, and it fails exactly beyond the end. */
  lemma {:induction false} DropMeaning(views: seq<seq<byte>>, n: nat)
    ensures Drop(views, n).Some? <==> n <= |Concat(views)|
    ensures n <= |Concat(views)| ==> Concat(Drop(views, n).value) == Concat(views)[n..]
    decreases |views|
  {
    if n != 0 && views != [] {
      if n < |views[0]| {
        assert ([views[0][n..]] + views[1..])[1..] == views[1..];
      } else {
        DropMeaning(views[1..], n - |views[0]|);
      }
    }
  }

  /**
   Which fragments are left: those from index j on, and of the first of them all but m
   octets.  It goes no further than it has to, and never leaves an empty rest of a fragment.
   */
  lemma {:induction false} DropFragments(views: seq<seq<byte>>, n: nat) returns (j: nat, m: nat)
    requires n <= |Concat(views)|
    ensures j <= |views| && n == |Concat(views[..j])| + m
    ensures m > 0 ==>
              j < |views| && m < |views[j]| && Drop(views, n) == Some([views[j][m..]] + views[j + 1..])
    ensures m == 0 ==> Drop(views, n) == Some(views[j..]) && (j > 0 ==> |Concat(views[..j - 1])| < n)
    decreases |views|
  {
    if n == 0 || n < |views[0]| {
      j, m := 0, n;
    } else {
      j, m := DropFragments(views[1..], n - |views[0]|);
      ConcatFront(views, j + 1);
      if j > 0 {
        ConcatFront(views, j);
      }
      j := j + 1;
    }
  }

  lemma ConcatFront(views: seq<seq<byte>>, k: nat)
    requires 0 < k <= |views|
    ensures Concat(views[..k]) == views[0] + Concat(views[1..][..k - 1])
  {
    assert views[..k][1..] == views[1..][..k - 1];
  }

  /** Dropping in two steps is dropping once, fragment by fragment. */
  lemma {:induction false} DropTwice(views: seq<seq<byte>>, m: nat, n: nat)
    requires m <= |Concat(views)|
    ensures Drop(views, m).Some? && Drop(Drop(views, m).value, n) == Drop(views, m + n)
    decreases |views|
  {
    if m != 0 {
      if m < |views[0]| {
        var rest := [views[0][m..]] + views[1..];
        assert rest[0] == views[0][m..] && rest[1..] == views[1..];
        if n != 0 && n < |rest[0]| {
          assert views[0][m..][n..] == views[0][m + n..];
        }
      } else {
        DropTwice(views[1..], m - |views[0]|, n);
      }
    }
  }

  // -------------------------------------------------------------------------- queues

  class BufferList {
    var buffers: seq<Buffer>
    ghost var Repr: set<Buffer>  // the Buffers that this list, and no other, owns

    ghost predicate Valid()
      reads this, Repr
    {
      && (forall i :: 0 <= i < |buffers| ==> buffers[i] in Repr && buffers[i].Valid())
      && (forall i, j :: 0 <= i < j < |buffers| ==> buffers[i] != buffers[j])
    }

    ghost function Strs(): (r: seq<seq<byte>>)
      requires Valid()
      reads this, Repr
      ensures |r| == |buffers| && forall i :: 0 <= i < |r| ==> r[i] == buffers[i].Str()
    {
      seq(|buffers|, i requires 0 <= i < |buffers| && Valid() reads this, Repr => buffers[i].Str())
    }

    ghost function Contents(): seq<byte>
      requires Valid()
      reads this, Repr
    {
      Concat(Strs())
    }

    constructor ()
      ensures Valid() && buffers == [] && Repr == {}
    {
      buffers := [];
      Repr := {};
    }

    constructor FromBuffer(buffer: Buffer)
      requires buffer.Valid()
      ensures Valid() && fresh(Repr) && Strs() == [buffer.Str()]
      ensures buffers[0].storage == buffer.storage
    {
      var copy := new Buffer.Copy(buffer);
      buffers := [copy];
      Repr := {copy};
    }

    /** The other list's Buffers are copied one by one; the copies share their strings. */
    method Append(other: BufferList)
      requires Valid() && other.Valid() && other != this
      modifies this
      ensures Valid() && fresh(Repr - old(Repr)) && Strs() == old(Strs()) + old(other.Strs())
      ensures |buffers| == |old(buffers)| + |other.buffers| && old(buffers) <= buffers
      ensures forall i :: |old(buffers)| <= i < |buffers| ==>
                fresh(buffers[i]) && buffers[i].storage == other.buffers[i - |old(buffers)|].storage
    {
      ghost var n := |buffers|;
      var i := 0;
      while i < |other.buffers|
        invariant i <= |other.buffers| && old(buffers) <= buffers && |buffers| == n + i
        invariant Valid() && fresh(Repr - old(Repr))
        invariant forall k :: n <= k < |buffers| ==>
                    && fresh(buffers[k])
                    && buffers[k].storage == other.buffers[k - n].storage
                    && buffers[k].startingOffset == other.buffers[k - n].startingOffset
      {
        PushCopy(other.buffers[i]);
        i := i + 1;
      }
    }

    /** `_buffers.push_back(buf)` */
    method PushCopy(b: Buffer)
      requires Valid() && b.Valid()
      modifies this
      ensures Valid() && |buffers| == |old(buffers)| + 1 && buffers[..|old(buffers)|] == old(buffers)
      ensures var copy := buffers[|old(buffers)|];
              && fresh(copy) && copy.storage == b.storage && copy.startingOffset == b.startingOffset
              && Repr == old(Repr) + {copy}
    {
      var buf := new Buffer.Copy(b);
      buffers := buffers + [buf];
      Repr := Repr + {buf};
    }

    method Concatenate() returns (ret: seq<byte>)
      requires Valid()
      ensures ret == Contents()
    {
      ret := [];
      var i := 0;
      while i < |buffers|
        invariant i <= |buffers| && ret + Concat(Strs()[i..]) == Contents()
      {
        ret := ret + buffers[i].Str();
        assert Strs()[i..][1..] == Strs()[i + 1..];
        i := i + 1;
      }
    }

    method Size() returns (ret: nat)
      requires Valid()
      ensures ret == |Contents()|
    {
      ret := 0;
      var i := 0;
      while i < |buffers|
        invariant i <= |buffers| && ret + |Concat(Strs()[i..])| == |Contents()|
      {
        ret := ret + |buffers[i].Str()|;
        assert Strs()[i..][1..] == Strs()[i + 1..];
        i := i + 1;
      }
    }

    /** `_buffers.front().remove_prefix(n)`: only the first Buffer changes. */
    method TrimFront(n: nat)
      requires Valid() && buffers != [] && n < |buffers[0].Str()|
      modifies buffers[0]
      ensures Valid() && Strs() == [old(Strs())[0][n..]] + old(Strs())[1..]
    {
      var ok := buffers[0].RemovePrefix(n);
    }

    /** `_buffers.pop_front()` */
    method PopFront()
      requires Valid() && buffers != []
      modifies `buffers
      ensures Valid() && buffers == old(buffers)[1..] && Strs() == old(Strs())[1..]
    {
      buffers := buffers[1..];
    }

    /** False stands for the out_of_range exception, which leaves the list empty. */
    method RemovePrefix(n: nat) returns (ok: bool)
      requires Valid()
      modifies this, Repr
      ensures Valid() && Repr == old(Repr)
      ensures ok <==> n <= |old(Contents())|
      ensures ok ==> Drop(old(Strs()), n) == Some(Strs()) && Contents() == old(Contents())[n..]
      ensures !ok ==> buffers == []
    {
      ghost var whole := Strs();
      var left: nat := n;
      while left > 0
        invariant Valid() && Repr == old(Repr) && Drop(Strs(), left) == Drop(whole, n)
        decreases |buffers|, left
      {
        if buffers == [] {
          DropMeaning(whole, n);
          return false;
        }
        if left < |buffers[0].Str()| {
          TrimFront(left);
          left := 0;
        } else {
          left := left - |buffers[0].Str()|;
          PopFront();
        }
      }
      DropMeaning(whole, n);
      return true;
    }
  }

  class BufferViewList {
    var views: seq<seq<byte>>

    ghost function Contents(): seq<byte>
      reads this
    {
      Concat(views)
    }

    constructor (str: seq<byte>)
      ensures views == [str] && Contents() == str
    {
      views := [str];
      new;
      ConcatSnoc([], str);
      assert [] + [str] == [str];
    }

    constructor Copy(other: BufferViewList)
      ensures views == other.views
    {
      views := other.views;
    }

    constructor FromList(list: BufferList)
      requires list.Valid()
      ensures views == list.Strs()
    {
      views := [];
      new;
      var i := 0;
      while i < |list.buffers|
        invariant i <= |list.buffers| && views == list.Strs()[..i]
      {
        views := views + [list.buffers[i].Str()];
        i := i + 1;
      }
    }

    method Size() returns (ret: nat)
      ensures ret == |Contents()|
    {
      ret := 0;
      var i := 0;
      while i < |views|
        invariant i <= |views| && ret + |Concat(views[i..])| == |Contents()|
      {
        ret := ret + |views[i]|;
        assert views[i..][1..] == views[i + 1..];
        i := i + 1;
      }
    }

    /** One entry per view, in order, empty views included. */
    method AsIovecs() returns (ret: seq<seq<byte>>)
      ensures ret == views
    {
      ret := [];
      var i := 0;
      while i < |views|
        invariant i <= |views| && ret == views[..i]
      {
        ret := ret + [views[i]];
        i := i + 1;
      }
    }

    /** False stands for the out_of_range exception, which leaves the list empty. */
    method RemovePrefix(n: nat) returns (ok: bool)
      modifies this
      ensures ok <==> n <= |old(Contents())|
      ensures ok ==> Drop(old(views), n) == Some(views) && Contents() == old(Contents())[n..]
      ensures !ok ==> views == []
    {
      DropMeaning(views, n);
      var left: nat := n;
      while left > 0
        invariant Drop(views, left) == Drop(old(views), n)
        decreases |views|, left
      {
        if views == [] {
          return false;
        }
        if left < |views[0]| {
          views := [views[0][left..]] + views[1..];
          left := 0;
        } else {
          left := left - |views[0]|;
          views := views[1..];
        }
      }
      return true;
    }
  }

  // --------------------------------------------------------- properties across classes

  /** Taking a view and removing a prefix commute, entry by entry, on success and on failure. */
  method ViewCommutesWithRemove(list: BufferList, n: nat)
    returns (before: BufferViewList, after: BufferViewList, ok: bool, ok': bool)
    requires list.Valid()
    modifies list, list.Repr
    ensures list.Valid() && ok == ok'
    ensures before.views == after.views == list.Strs()
  {
    before := new BufferViewList.FromList(list);
    ok := before.RemovePrefix(n);
    ok' := list.RemovePrefix(n);
    after := new BufferViewList.FromList(list);
  }

  /** Encapsulation without copying: consuming the joined list leaves the appended one alone. */
  method ConsumeJoined(header: BufferList, payload: BufferList, n: nat) returns (ok: bool)
    requires header.Valid() && payload.Valid() && header != payload
    requires header.Repr !! payload.Repr
    modifies header, header.Repr
    ensures header.Valid() && payload.Valid() && payload.Strs() == old(payload.Strs())
    ensures ok <==> n <= |old(header.Contents())| + |old(payload.Contents())|
    ensures header.Contents() == if ok then (old(header.Contents()) + old(payload.Contents()))[n..] else []
  {
    ConcatAppend(header.Strs(), payload.Strs());
    header.Append(payload);
    ok := header.RemovePrefix(n);
  }
}
