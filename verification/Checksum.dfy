/**
 The Internet checksum of libsponge/util/util.cc: a wrapping 32-bit accumulator
 fed one octet at a time, folded to 16 bits and complemented.  The reference is
 the ones' complement sum of section 1 of RFC 1071.
 */
module Checksum {
  import opened Bytes

  const WRAP := 0x1_0000_0000
  const ONES := 0xffff

  /** Largest data length whose sum can never wrap when the seed is 0. */
  const MAX_EXACT_LENGTH := 131074

  // ---------------------------------------------------------------- reference

  /** The sum without any wrap-around; `odd` says that the first octet is a low-order one. */
  function TrueSum(odd: bool, data: seq<byte>): nat
    decreases |data|
  {
    if data == [] then 0
    else (if odd then data[0] as int else Word(data[0], 0)) + TrueSum(!odd, data[1..])
  }

  /** Casting out 0xffff's: see FoldMeaning for what this amounts to. */
  function Fold(n: nat): (r: nat)
    ensures r <= ONES
  {
    if n <= ONES then n else Fold(n - ONES)
  }

  /** RFC 1071: addition of 16-bit words with end-around carry. */
  function OnesAdd(a: nat, b: nat): nat {
    if a + b > ONES then a + b - ONES else a + b
  }

  /** RFC 1071: adjacent octets are paired, an odd last octet is padded with zero. */
  function Words(data: seq<byte>): seq<nat> {
    if data == [] then []
    else if |data| == 1 then [Word(data[0], 0)]
    else [Word(data[0], data[1])] + Words(data[2..])
  }

  function OnesSum(words: seq<nat>): nat {
    if words == [] then 0 else OnesAdd(words[0], OnesSum(words[1..]))
  }

  function RfcChecksum(data: seq<byte>): int {
    ONES - OnesSum(Words(data))
  }

  // ------------------------------------------------------------ what is computed

  datatype Acc = Acc(sum: nat, parity: bool)

  /** The low 32 bits of `n` (see WrapMeaning). */
  function Wrap(n: nat): (r: nat)
    ensures r < WRAP
  {
    if n < WRAP then n else Wrap(n - WRAP)
  }

  function Feed(acc: Acc, data: seq<byte>): Acc {
    Acc(Wrap(acc.sum + TrueSum(acc.parity, data)), acc.parity != (|data| % 2 == 1))
  }

  function FeedAll(acc: Acc, chunks: seq<seq<byte>>): Acc
    decreases |chunks|
  {
    if chunks == [] then acc else FeedAll(Feed(acc, chunks[0]), chunks[1..])
  }

  function Complement(sum: nat): nat {
    ONES - Fold(sum)
  }

  /** What the class returns for `data` added to a checksum seeded with `seed`. */
  function ChecksumOf(seed: nat, data: seq<byte>): nat {
    Complement(Feed(Acc(seed, false), data).sum)
  }

  class InternetChecksum {
    var sum: nat
    var parity: bool

    ghost predicate Valid()
      reads this
    {
      sum < WRAP
    }

    ghost function State(): Acc
      reads this
    {
      Acc(sum, parity)
    }

    constructor (initialSum: nat := 0)
      requires initialSum < WRAP
      ensures Valid() && State() == Acc(initialSum, false)
    {
      sum := initialSum;
      parity := false;
    }

    method Add(data: seq<byte>)
      requires Valid()
      modifies this
      ensures Valid() && State() == Feed(old(State()), data)
    {
      var i := 0;
      assert data[..0] == [];
      while i < |data|
        invariant i <= |data| && Valid()
        invariant State() == Feed(old(State()), data[..i])
      {
        var val: nat := data[i] as int;
        if !parity {
          val := val * 0x100;
        }
        FeedSplit(old(State()), data[..i], [data[i]]);
        assert data[..i] + [data[i]] == data[..i + 1];
        assert [data[i]][1..] == [];
        assert TrueSum(parity, [data[i]]) == val;
        WrapMeaning(sum + val);
        sum := (sum + val) % WRAP;
        parity := !parity;
        i := i + 1;
      }
      assert data[..i] == data;
    }

    /** The fold needs at most two rounds: `rounds` counts them. */
    method Value() returns (v: nat, ghost rounds: nat)
      requires Valid()
      ensures v == Complement(sum)
      ensures v <= ONES
      ensures rounds <= 2
    {
      var ret: nat := sum;
      rounds := 0;
      while ret > ONES
        invariant Fold(ret) == Fold(sum)
        invariant ret < WRAP
        invariant rounds == 1 ==> ret <= 2 * ONES
        invariant rounds == 2 ==> ret <= ONES
        invariant rounds <= 2
      {
        FoldStep(ret);
        ret := ret / 0x1_0000 + ret % 0x1_0000;
        rounds := rounds + 1;
      }
      v := ONES - ret;
    }
  }

  // ------------------------------------------------------------------ fold lemmas

  /** Fold(n) is the only value in 0..0xffff that is congruent to n and 0 just for n == 0. */
  lemma {:induction false} FoldMeaning(n: nat, r: nat)
    ensures r == Fold(n) <==> r <= ONES && r % ONES == n % ONES && (r == 0 <==> n == 0)
  {
    if n <= ONES {
      assert ONES % ONES == 0;
    } else {
      ModShift(n - ONES, 1);
      FoldMeaning(n - ONES, r);
    }
  }

  lemma ModShift(x: int, k: int)
    ensures (x + ONES * k) % ONES == x % ONES
  {
    assert x + ONES * k == x % ONES + ONES * (x / ONES + k);
  }

  lemma AddCongruent(c: int, a: int, b: int)
    requires a % ONES == b % ONES
    ensures (c + a) % ONES == (c + b) % ONES
  {
    ModShift(c + b, a / ONES - b / ONES);
  }

  /** One round of the folding loop keeps the folded value and makes progress. */
  lemma FoldStep(x: nat)
    requires ONES < x < WRAP
    ensures Fold(x / 0x1_0000 + x % 0x1_0000) == Fold(x)
    ensures x / 0x1_0000 + x % 0x1_0000 < x
    ensures x / 0x1_0000 + x % 0x1_0000 <= 2 * ONES
    ensures x <= 2 * ONES ==> x / 0x1_0000 + x % 0x1_0000 <= ONES
  {
    var y := x / 0x1_0000 + x % 0x1_0000;
    assert x == y + ONES * (x / 0x1_0000);
    ModShift(y, x / 0x1_0000);
    FoldMeaning(y, Fold(y));
    FoldMeaning(x, Fold(y));
  }

  /** Folding before or after adding a word makes no difference. */
  lemma FoldAdd(a: nat, b: nat)
    ensures Fold(a + b) == Fold(Fold(a) + b)
  {
    FoldMeaning(a, Fold(a));
    AddCongruent(b, a, Fold(a));
    FoldMeaning(Fold(a) + b, Fold(Fold(a) + b));
    FoldMeaning(a + b, Fold(Fold(a) + b));
  }

  lemma FoldPlusWord(rest: nat, w: nat)
    requires w <= ONES
    ensures Fold(rest + w) == OnesAdd(Fold(rest), w)
  {
    FoldAdd(rest, w);
  }

  // ------------------------------------------------------------- splitting the data

  lemma {:induction false} TrueSumAppend(odd: bool, a: seq<byte>, b: seq<byte>)
    ensures TrueSum(odd, a + b) == TrueSum(odd, a) + TrueSum(odd != (|a| % 2 == 1), b)
    decreases |a|
  {
    if a == [] {
      assert a + b == b;
    } else {
      assert (a + b)[1..] == a[1..] + b;
      TrueSumAppend(!odd, a[1..], b);
    }
  }

  /** Two calls to `add` are one call on the joined data, even if the accumulator wraps. */
  lemma FeedSplit(acc: Acc, a: seq<byte>, b: seq<byte>)
    ensures Feed(Feed(acc, a), b) == Feed(acc, a + b)
  {
    TrueSumAppend(acc.parity, a, b);
    WrapAdd(acc.sum + TrueSum(acc.parity, a), TrueSum(acc.parity != (|a| % 2 == 1), b));
  }

  lemma {:induction false} WrapMeaning(n: nat)
    ensures Wrap(n) == n % WRAP
  {
    if n >= WRAP {
      WrapMeaning(n - WRAP);
      assert n == n % WRAP + WRAP * ((n - WRAP) / WRAP + 1);
    }
  }

  lemma {:induction false} WrapAdd(s: nat, t: nat)
    ensures Wrap(Wrap(s) + t) == Wrap(s + t)
  {
    if s >= WRAP {
      WrapAdd(s - WRAP, t);
      assert Wrap(s + t) == Wrap(s - WRAP + t);
    }
  }

  /** As long as the sum does not wrap, the accumulator is the exact sum. */
  lemma NoWrap(seed: nat, data: seq<byte>)
    requires seed + TrueSum(false, data) < WRAP
    ensures Feed(Acc(seed, false), data).sum == seed + TrueSum(false, data)
    ensures ChecksumOf(seed, data) == Complement(seed + TrueSum(false, data))
  {
  }

  /** Any way of cutting the data into chunks, odd lengths included, gives the same state. */
  lemma {:induction false} ChunkingIrrelevant(acc: Acc, chunks: seq<seq<byte>>)
    requires acc.sum < WRAP
    ensures FeedAll(acc, chunks) == Feed(acc, Concat(chunks))
    decreases |chunks|
  {
    if chunks != [] {
      ChunkingIrrelevant(Feed(acc, chunks[0]), chunks[1..]);
      FeedSplit(acc, chunks[0], Concat(chunks[1..]));
    }
  }

  // ------------------------------------------------------------ the overflow threshold

  lemma {:induction false} TrueSumBound(data: seq<byte>)
    ensures TrueSum(false, data) <= (|data| / 2) * ONES + (|data| % 2) * 0xff00
  {
    if |data| >= 2 {
      TrueSumBound(data[2..]);
      assert data[1..][1..] == data[2..];
    }
  }

  function AllOnes(n: nat): seq<byte> {
    seq(n, _ => 0xff)
  }

  lemma {:induction false} TrueSumAllOnes(n: nat)
    ensures TrueSum(false, AllOnes(n)) == (n / 2) * ONES + (n % 2) * 0xff00
  {
    if n >= 2 {
      assert AllOnes(n)[1..][1..] == AllOnes(n - 2);
      TrueSumAllOnes(n - 2);
    }
  }

  /** With seed 0 the sum can wrap for some data of a given length exactly above the threshold. */
  lemma NoWrapThreshold(n: nat)
    ensures (forall data: seq<byte> :: |data| == n ==> TrueSum(false, data) < WRAP) <==> n <= MAX_EXACT_LENGTH
  {
    if n <= MAX_EXACT_LENGTH {
      forall data: seq<byte> | |data| == n
        ensures TrueSum(false, data) < WRAP
      {
        TrueSumBound(data);
      }
    } else {
      TrueSumAllOnes(n);
      assert |AllOnes(n)| == n && TrueSum(false, AllOnes(n)) >= WRAP;
    }
  }

  /** The first length above the threshold really gives a wrong checksum. */
  lemma ThresholdWitness()
    ensures TrueSum(false, AllOnes(MAX_EXACT_LENGTH)) == WRAP - 1
    ensures ChecksumOf(0, AllOnes(MAX_EXACT_LENGTH + 1)) != RfcChecksum(AllOnes(MAX_EXACT_LENGTH + 1))
  {
    TrueSumAllOnes(MAX_EXACT_LENGTH);
    TrueSumAllOnes(MAX_EXACT_LENGTH + 1);
    ValueExact(AllOnes(MAX_EXACT_LENGTH + 1));
  }

  // ------------------------------------------------------------- agreement with RFC 1071

  lemma {:induction false} OnesSumIsFold(data: seq<byte>)
    ensures OnesSum(Words(data)) == Fold(TrueSum(false, data))
  {
    if |data| == 1 {
      assert Words(data)[1..] == [];
    } else if |data| >= 2 {
      var w := Word(data[0], data[1]);
      assert Words(data)[1..] == Words(data[2..]);
      assert data[1..][1..] == data[2..];
      OnesSumIsFold(data[2..]);
      var rest := TrueSum(false, data[2..]);
      assert TrueSum(false, data) == w + rest;
      FoldPlusWord(rest, w);
    }
  }

  /**
   The code returns the RFC 1071 checksum exactly when the wraps of the
   accumulator cancel out: each wrap loses a carry, so their number has to be a
   multiple of 65535, and the accumulator must not have wrapped onto 0.
   */
  lemma ValueExact(data: seq<byte>)
    ensures ChecksumOf(0, data) == RfcChecksum(data) <==>
            var s := TrueSum(false, data);
            (s / WRAP) % ONES == 0 && (s < WRAP || s % WRAP != 0)
  {
    OnesSumIsFold(data);
    WrapMeaning(TrueSum(false, data));
    WrapExact(TrueSum(false, data));
  }

  lemma WrapExact(s: nat)
    ensures Fold(s % WRAP) == Fold(s) <==> (s / WRAP) % ONES == 0 && (s < WRAP || s % WRAP != 0)
  {
    var k, t := s / WRAP, s % WRAP;
    assert s == t + k + ONES * (k * 0x1_0001);
    ModShift(t + k, k * 0x1_0001);
    FoldMeaning(s, Fold(s));
    FoldMeaning(t, Fold(s));
    if k % ONES == 0 {
      AddCongruent(t, k, 0);
    }
    if (t + k) % ONES == t % ONES {
      AddCongruent(-t, t + k, t);
    }
  }

  /** The example of section 3 of RFC 1071. */
  lemma RfcExample()
    ensures ChecksumOf(0, [0x00, 0x01, 0xf2, 0x03, 0xf4, 0xf5, 0xf6, 0xf7]) == 0xffff - 0xddf2
  {
    var d2: seq<byte> := [0xf6, 0xf7];
    var d1 := [0xf4, 0xf5] + d2;
    WordsCons(0xf6, 0xf7, []);
    assert [0xf6, 0xf7] + [] == d2;
    WordsCons(0xf4, 0xf5, d2);
    WordsCons(0xf2, 0x03, d1);
    WordsCons(0x00, 0x01, [0xf2, 0x03] + d1);
    var data := [0x00, 0x01, 0xf2, 0x03, 0xf4, 0xf5, 0xf6, 0xf7];
    assert data == [0x00, 0x01] + ([0xf2, 0x03] + d1);
    TrueSumBound(data);
    ValueIsRfcChecksum(data);
  }

  lemma WordsCons(hi: byte, lo: byte, rest: seq<byte>)
    ensures OnesSum(Words([hi, lo] + rest)) == OnesAdd(Word(hi, lo), OnesSum(Words(rest)))
  {
    assert ([hi, lo] + rest)[2..] == rest;
  }

  /** As long as the sum does not wrap no condition is left. */
  lemma ValueIsRfcChecksum(data: seq<byte>)
    requires TrueSum(false, data) < WRAP
    ensures ChecksumOf(0, data) == RfcChecksum(data)
  {
    NoWrap(0, data);
    OnesSumIsFold(data);
  }

  // ------------------------------------------------------------- byte-order independence

  function SwapPairs(data: seq<byte>): (r: seq<byte>)
    requires |data| % 2 == 0
    ensures |r| == |data|
  {
    if data == [] then [] else [data[1], data[0]] + SwapPairs(data[2..])
  }

  /** `w'` is the word `w` with its two octets exchanged. */
  ghost predicate Swapped(w: int, w': int) {
    exists hi: byte, lo: byte :: w == Word(hi, lo) && w' == Word(lo, hi)
  }

  lemma {:induction false} SwapPairsSum(data: seq<byte>)
    requires |data| % 2 == 0
    ensures TrueSum(false, SwapPairs(data)) % ONES == (0x100 * TrueSum(false, data)) % ONES
    ensures TrueSum(false, SwapPairs(data)) == 0 <==> TrueSum(false, data) == 0
  {
    if data != [] {
      var r := SwapPairs(data);
      SwapPairsSum(data[2..]);
      assert data[1..][1..] == data[2..];
      assert r[1..][1..] == SwapPairs(data[2..]);
      SwapStep(data[0], data[1], TrueSum(false, data[2..]), TrueSum(false, SwapPairs(data[2..])));
    }
  }

  lemma SwapStep(hi: byte, lo: byte, s: nat, t: nat)
    requires t % ONES == (0x100 * s) % ONES
    ensures (Word(lo, hi) + t) % ONES == (0x100 * (Word(hi, lo) + s)) % ONES
  {
    AddCongruent(Word(lo, hi), t, 0x100 * s);
    assert 0x100 * (Word(hi, lo) + s) == Word(lo, hi) + 0x100 * s + ONES * hi;
    ModShift(Word(lo, hi) + 0x100 * s, hi);
  }

  lemma SwapFold(s: nat, t: nat, hi: byte, lo: byte)
    requires t % ONES == (0x100 * s) % ONES && (t == 0 <==> s == 0)
    requires Fold(s) == Word(hi, lo)
    ensures Fold(t) == Word(lo, hi)
  {
    FoldMeaning(s, Word(hi, lo));
    ScaleCongruent(Word(hi, lo), s);
    SwapStep(hi, lo, 0, 0);
    assert Word(lo, hi) % ONES == t % ONES;
    FoldMeaning(t, Word(lo, hi));
  }

  lemma SwapComplement(s: nat, t: nat)
    requires t % ONES == (0x100 * s) % ONES && (t == 0 <==> s == 0)
    ensures Swapped(Complement(s), Complement(t))
  {
    var hi, lo := High(Fold(s)), Low(Fold(s));
    PartsWord(Fold(s));
    SwapFold(s, t, hi, lo);
    assert Complement(s) == Word(0xff - hi, 0xff - lo) && Complement(t) == Word(0xff - lo, 0xff - hi);
  }

  lemma ScaleCongruent(a: int, b: int)
    requires a % ONES == b % ONES
    ensures (0x100 * a) % ONES == (0x100 * b) % ONES
  {
    ModShift(0x100 * b, 0x100 * (a / ONES - b / ONES));
  }

  /** RFC 1071 section 2(B): swapping the octets of every word swaps those of the checksum. */
  lemma ByteOrderIndependence(data: seq<byte>)
    requires |data| % 2 == 0
    ensures Swapped(RfcChecksum(data), RfcChecksum(SwapPairs(data)))
  {
    SwapPairsSum(data);
    SwapComplement(TrueSum(false, data), TrueSum(false, SwapPairs(data)));
    OnesSumIsFold(data);
    OnesSumIsFold(SwapPairs(data));
  }

  /** The same for what the code returns, as long as neither accumulator wraps. */
  lemma ByteOrderIndependenceOfCode(data: seq<byte>)
    requires |data| % 2 == 0
    requires TrueSum(false, data) < WRAP && TrueSum(false, SwapPairs(data)) < WRAP
    ensures Swapped(ChecksumOf(0, data), ChecksumOf(0, SwapPairs(data)))
  {
    ValueIsRfcChecksum(data);
    ValueIsRfcChecksum(SwapPairs(data));
    ByteOrderIndependence(data);
  }

  // ---------------------------------------------------------- one aligned 16-bit slot

  /** Data with the octets `hi` and `lo` right after `pre`. */
  function WithWord(pre: seq<byte>, hi: byte, lo: byte, post: seq<byte>): seq<byte> {
    pre + [hi, lo] + post
  }

  /** The exact sum of everything but the word after `pre`. */
  function Rest(seed: nat, pre: seq<byte>, post: seq<byte>): nat {
    seed + TrueSum(false, pre) + TrueSum(false, post)
  }

  lemma WithWordSum(pre: seq<byte>, hi: byte, lo: byte, post: seq<byte>)
    requires |pre| % 2 == 0
    ensures TrueSum(false, WithWord(pre, hi, lo, post)) == TrueSum(false, pre) + Word(hi, lo) + TrueSum(false, post)
  {
    var mid := [hi, lo];
    assert WithWord(pre, hi, lo, post) == pre + (mid + post);
    TrueSumAppend(false, pre, mid + post);
    TrueSumAppend(false, mid, post);
    assert mid[1..][1..] == [];
    assert TrueSum(false, mid) == Word(hi, lo);
  }

  /** Below the threshold the value is that of the exact sum. */
  lemma WithWordValue(seed: nat, pre: seq<byte>, hi: byte, lo: byte, post: seq<byte>)
    requires |pre| % 2 == 0 && Rest(seed, pre, post) + ONES < WRAP
    ensures ChecksumOf(seed, WithWord(pre, hi, lo, post)) == Complement(Rest(seed, pre, post) + Word(hi, lo))
  {
    WithWordSum(pre, hi, lo, post);
    ExactValue(seed, WithWord(pre, hi, lo, post), Rest(seed, pre, post) + Word(hi, lo));
  }

  lemma ExactValue(seed: nat, data: seq<byte>, sum: nat)
    requires seed + TrueSum(false, data) == sum < WRAP
    ensures ChecksumOf(seed, data) == Complement(sum)
  {
    NoWrap(seed, data);
  }

  /** Below the threshold only the folded sum of the other words and the word itself matter. */
  lemma WithWordChecksum(seed: nat, pre: seq<byte>, hi: byte, lo: byte, post: seq<byte>)
    requires |pre| % 2 == 0 && Rest(seed, pre, post) + ONES < WRAP
    ensures ChecksumOf(seed, WithWord(pre, hi, lo, post)) ==
            ONES - OnesAdd(Fold(Rest(seed, pre, post)), Word(hi, lo))
  {
    WithWordValue(seed, pre, hi, lo, post);
    FoldPlusWord(Rest(seed, pre, post), Word(hi, lo));
  }

  /**
   Verification succeeds (value 0) for exactly the word that `value()` computes over
   the data with the slot zeroed, and for 0xffff when that word is 0.
   */
  lemma VerifiesExactly(seed: nat, pre: seq<byte>, hi: byte, lo: byte, post: seq<byte>)
    requires |pre| % 2 == 0 && Rest(seed, pre, post) + ONES < WRAP
    ensures var v := ChecksumOf(seed, WithWord(pre, 0, 0, post));
            ChecksumOf(seed, WithWord(pre, hi, lo, post)) == 0 <==>
            Word(hi, lo) == v || (v == 0 && Word(hi, lo) == ONES)
  {
    WithWordChecksum(seed, pre, 0, 0, post);
    WithWordChecksum(seed, pre, hi, lo, post);
  }

  /** Zero an aligned slot, store `value()` in it big-endian: the whole then checks to 0. */
  lemma SelfVerification(pre: seq<byte>, post: seq<byte>)
    requires |pre| % 2 == 0 && |pre| + 2 + |post| <= MAX_EXACT_LENGTH
    ensures var v := ChecksumOf(0, WithWord(pre, 0, 0, post));
            ChecksumOf(0, WithWord(pre, High(v), Low(v), post)) == 0
  {
    WithWordSum(pre, 0xff, 0xff, post);
    TrueSumBound(WithWord(pre, 0xff, 0xff, post));
    var v := ChecksumOf(0, WithWord(pre, 0, 0, post));
    PartsWord(v);
    VerifiesExactly(0, pre, High(v), Low(v), post);
  }

  /**
   A change of one aligned word goes unnoticed exactly when it exchanges 0x0000 and
   0xffff in data that is not otherwise all zero.
   */
  lemma ErrorDetection(seed: nat, pre: seq<byte>, hi: byte, lo: byte, hi': byte, lo': byte, post: seq<byte>)
    requires |pre| % 2 == 0 && Rest(seed, pre, post) + ONES < WRAP
    requires Word(hi, lo) != Word(hi', lo')
    ensures ChecksumOf(seed, WithWord(pre, hi, lo, post)) == ChecksumOf(seed, WithWord(pre, hi', lo', post)) <==>
            {Word(hi, lo), Word(hi', lo')} == {0, ONES} && Rest(seed, pre, post) != 0
  {
    WithWordChecksum(seed, pre, hi, lo, post);
    WithWordChecksum(seed, pre, hi', lo', post);
    FoldMeaning(Rest(seed, pre, post), Fold(Rest(seed, pre, post)));
    assert {Word(hi, lo), Word(hi', lo')} == {0, ONES} <==>
           (Word(hi, lo) == 0 && Word(hi', lo') == ONES) || (Word(hi, lo) == ONES && Word(hi', lo') == 0) by {
      if {Word(hi, lo), Word(hi', lo')} == {0, ONES} {
        assert 0 in {Word(hi, lo), Word(hi', lo')} && ONES in {Word(hi, lo), Word(hi', lo')};
      }
    }
  }

  /** A seed can be folded into any aligned word without changing the checksum. */
  lemma SeedIntoWord(seed: nat, pre: seq<byte>, hi: byte, lo: byte, post: seq<byte>)
    requires |pre| % 2 == 0 && Rest(seed, pre, post) + ONES < WRAP
    ensures var f := Fold(seed + Word(hi, lo));
            ChecksumOf(0, WithWord(pre, High(f), Low(f), post)) == ChecksumOf(seed, WithWord(pre, hi, lo, post))
  {
    var f := Fold(seed + Word(hi, lo));
    PartsWord(f);
    MovedSeed(seed, pre, hi, lo, High(f), Low(f), post);
  }

  lemma MovedSeed(seed: nat, pre: seq<byte>, hi: byte, lo: byte, hi': byte, lo': byte, post: seq<byte>)
    requires |pre| % 2 == 0 && Rest(seed, pre, post) + ONES < WRAP
    requires Word(hi', lo') == Fold(seed + Word(hi, lo))
    ensures ChecksumOf(0, WithWord(pre, hi', lo', post)) == ChecksumOf(seed, WithWord(pre, hi, lo, post))
  {
    WithWordValue(seed, pre, hi, lo, post);
    WithWordValue(0, pre, hi', lo', post);
    SeedFolds(seed + Word(hi, lo), Rest(0, pre, post));
  }

  lemma SeedFolds(a: nat, b: nat)
    ensures Complement(b + Fold(a)) == Complement(b + a)
  {
    FoldAdd(a, b);
  }
}
