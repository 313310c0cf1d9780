/** Definitions shared by every component: octets, flattening, big-endian integers. */
module Bytes {

  type byte = b: int | 0 <= b < 0x100

  /** The 16-bit word of two octets in network order. */
  function Word(hi: byte, lo: byte): (w: nat)
    ensures w <= 0xffff
  {
    (hi as int) * 0x100 + lo as int
  }

  function High(w: nat): byte
    requires w <= 0xffff
  {
    w / 0x100
  }

  function Low(w: nat): byte
    requires w <= 0xffff
  {
    w % 0x100
  }

  lemma PartsWord(w: nat)
    requires w <= 0xffff
    ensures Word(High(w), Low(w)) == w
  {
  }

  datatype Option<+T> = None | Some(value: T)

  function Min(a: nat, b: nat): nat {
    if a <= b then a else b
  }

  /** The byte string that a list of fragments stands for. */
  function Concat<T>(xs: seq<seq<T>>): seq<T> {
    if xs == [] then [] else xs[0] + Concat(xs[1..])
  }

  lemma AppendAssoc<T>(a: seq<T>, b: seq<T>, c: seq<T>)
    ensures a + (b + c) == a + b + c
  {
  }

  lemma {:induction false} ConcatAppend<T>(xs: seq<seq<T>>, ys: seq<seq<T>>)
    ensures Concat(xs + ys) == Concat(xs) + Concat(ys)
  {
    if xs == [] {
      assert xs + ys == ys;
    } else {
      assert (xs + ys)[1..] == xs[1..] + ys;
      ConcatAppend(xs[1..], ys);
    }
  }

  lemma ConcatSnoc<T>(xs: seq<seq<T>>, x: seq<T>)
    ensures Concat(xs + [x]) == Concat(xs) + x
  {
    ConcatAppend(xs, [x]);
    assert Concat([x]) == x;
  }
}
