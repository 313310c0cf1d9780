/**
 Integers in network byte order (libsponge/util/parser.cc): NetParser takes them off the
 front of a Buffer and remembers the first failure, NetUnparser appends them to a string.
 */
module Parser {
  import opened Bytes
  import opened Buffers

  datatype ParseResult =
    NoError | BadChecksum | PacketTooShort | WrongIPVersion | HeaderTooShort | TruncatedPacket

  // ------------------------------------------------------------- big-endian integers

  function Pow256(k: nat): (r: nat)
    ensures r > 0
  {
    if k == 0 then 1 else 0x100 * Pow256(k - 1)
  }

  /** The value of the octets, most significant first. */
  function Decode(bytes: seq<byte>): nat {
    if bytes == [] then 0 else 0x100 * Decode(bytes[..|bytes| - 1]) + bytes[|bytes| - 1] as int
  }

  /** The low `len` octets of `val`, most significant first. */
  function Encode(val: nat, len: nat): (r: seq<byte>)
    ensures |r| == len
  {
    if len == 0 then [] else Encode(val / 0x100, len - 1) + [val % 0x100]
  }

  lemma {:induction false} DecodeEncode(val: nat, len: nat)
    requires val < Pow256(len)
    ensures Decode(Encode(val, len)) == val
  {
    if len > 0 {
      DecodeEncode(val / 0x100, len - 1);
      assert Encode(val, len)[..len - 1] == Encode(val / 0x100, len - 1);
    }
  }

  lemma {:induction false} EncodeDecode(bytes: seq<byte>)
    ensures Decode(bytes) < Pow256(|bytes|) && Encode(Decode(bytes), |bytes|) == bytes
    decreases |bytes|
  {
    if bytes != [] {
      EncodeDecode(bytes[..|bytes| - 1]);
    }
  }

  /** Network byte order, spelled out for the three widths in use. */
  lemma BigEndian(a: byte, b: byte, c: byte, d: byte)
    ensures Decode([a]) == a
    ensures Decode([a, b]) == a * 0x100 + b
    ensures Decode([a, b, c, d]) == a * 0x100_0000 + b * 0x1_0000 + c * 0x100 + d
  {
    assert [a, b][..1] == [a] && [a, b, c][..2] == [a, b] && [a, b, c, d][..3] == [a, b, c];
  }

  // ------------------------------------------------------------- schedules of operations

  /** u8, u16 and u32 are Int with a width of 1, 2 and 4 octets. */
  datatype Op = Int(width: nat) | Skip(n: nat)
  {
    function Length(): nat {
      if Int? then width else n
    }
  }

  datatype State = State(rest: seq<byte>, error: ParseResult)

  /** What one operation does; a skip counts as returning 0. */
  function Step(s: State, op: Op): (State, nat) {
    var s1 := if op.Length() > |s.rest| then s.(error := PacketTooShort) else s;
    if s1.error != NoError then (s1, 0)
    else (s1.(rest := s.rest[op.Length()..]), if op.Int? then Decode(s.rest[..op.width]) else 0)
  }

  function Run(s: State, ops: seq<Op>): (r: (State, seq<nat>))
    ensures |r.1| == |ops|
    decreases |ops|
  {
    if ops == [] then (s, [])
    else
      var (s1, v) := Step(s, ops[0]);
      var (s2, vs) := Run(s1, ops[1..]);
      (s2, [v] + vs)
  }

  function TotalLength(ops: seq<Op>): nat
    decreases |ops|
  {
    if ops == [] then 0 else ops[0].Length() + TotalLength(ops[1..])
  }

  /** The number of leading operations that fit into `size` octets together. */
  function Fitting(ops: seq<Op>, size: nat): (k: nat)
    ensures k <= |ops|
    decreases |ops|
  {
    if ops == [] || ops[0].Length() > size then 0 else 1 + Fitting(ops[1..], size - ops[0].Length())
  }

  lemma TotalLengthCons(ops: seq<Op>, k: nat)
    requires 0 < k <= |ops|
    ensures TotalLength(ops[..k]) == ops[0].Length() + TotalLength(ops[1..][..k - 1])
  {
    assert ops[..k][1..] == ops[1..][..k - 1];
  }

  /** It is the longest such prefix: they fit, and one more would not. */
  lemma {:induction false} FittingIsLongest(ops: seq<Op>, size: nat)
    ensures var k := Fitting(ops, size);
            && TotalLength(ops[..k]) <= size
            && (k < |ops| ==> TotalLength(ops[..k + 1]) > size)
    decreases |ops|
  {
    if ops != [] {
      var k := Fitting(ops, size);
      if ops[0].Length() <= size {
        FittingIsLongest(ops[1..], size - ops[0].Length());
        TotalLengthCons(ops, k);
      }
      if k < |ops| {
        TotalLengthCons(ops, k + 1);
      }
    }
  }

  /** What the i-th operation sees if everything before it has been consumed. */
  function ValueAt(data: seq<byte>, ops: seq<Op>, i: nat): nat
    requires i < |ops| && TotalLength(ops[..i]) + ops[i].Length() <= |data|
  {
    var from := TotalLength(ops[..i]);
    if ops[i].Int? then Decode(data[from..from + ops[i].width]) else 0
  }

  /**
   A schedule consumes exactly the longest prefix of operations that fits.  From the
   first failure on the error stays, the rest of the data is frozen and every read
   returns 0, even one that would fit.
   */
  lemma {:induction false} RunConsumesLongestPrefix(data: seq<byte>, ops: seq<Op>)
    ensures var k := Fitting(ops, |data|);
            var (s, values) := Run(State(data, NoError), ops);
            && TotalLength(ops[..k]) <= |data|
            && s == State(data[TotalLength(ops[..k])..], if k == |ops| then NoError else PacketTooShort)
            && (forall i :: k <= i < |ops| ==> values[i] == 0)
    decreases |ops|
  {
    if ops != [] {
      var n := ops[0].Length();
      if n > |data| {
        ErrorSticks(State(data, PacketTooShort), ops[1..]);
      } else {
        var k := Fitting(ops[1..], |data| - n);
        RunConsumesLongestPrefix(data[n..], ops[1..]);
        TotalLengthCons(ops, k + 1);
        SliceSlice(data, n, TotalLength(ops[1..][..k]), |data| - n);
        RunFirst(data, ops);
      }
    }
  }

  /** An operation that fits, in front of a schedule. */
  lemma RunFirst(data: seq<byte>, ops: seq<Op>)
    requires ops != [] && ops[0].Length() <= |data|
    ensures var (s, values) := Run(State(data[ops[0].Length()..], NoError), ops[1..]);
            && Run(State(data, NoError), ops).0 == s
            && Run(State(data, NoError), ops).1[1..] == values
  {
  }

  lemma SliceSlice(data: seq<byte>, n: nat, from: nat, to: nat)
    requires n <= |data| && from <= to <= |data| - n
    ensures data[n..][from..to] == data[n + from..n + to]
  {
  }

  /** The operations that fit read their own part of the data. */
  lemma {:induction false} RunReads(data: seq<byte>, ops: seq<Op>, i: nat)
    requires i < Fitting(ops, |data|)
    ensures TotalLength(ops[..i]) + ops[i].Length() <= |data|
    ensures Run(State(data, NoError), ops).1[i] == ValueAt(data, ops, i)
  {
    if i > 0 {
      var n := ops[0].Length();
      RunReads(data[n..], ops[1..], i - 1);
      var from := TotalLength(ops[1..][..i - 1]);
      TotalLengthCons(ops, i);
      SliceSlice(data, n, from, from + ops[i].Length());
      RunFirst(data, ops);
    }
  }

  /** Nothing is consumed once there is an error of any kind; only its name can change. */
  lemma {:induction false} ErrorSticks(s: State, ops: seq<Op>)
    requires s.error != NoError
    ensures var (s', values) := Run(s, ops);
            && s'.rest == s.rest
            && s'.error == (if exists op :: op in ops && op.Length() > |s.rest| then PacketTooShort else s.error)
            && forall i :: 0 <= i < |ops| ==> values[i] == 0
    decreases |ops|
  {
    if ops != [] {
      ErrorSticks(Step(s, ops[0]).0, ops[1..]);
      assert forall op :: op in ops <==> op == ops[0] || op in ops[1..];
    }
  }

  // --------------------------------------------------------------------- round trips

  /** An integer of 1, 2 or 4 octets, or a stretch of octets that the parser skips. */
  datatype Field = Number(width: nat, val: nat) | Raw(octets: seq<byte>)
  {
    ghost predicate Valid() {
      Number? ==> width in {1, 2, 4} && val < Pow256(width)
    }

    function Octets(): seq<byte> {
      if Number? then Encode(val, width) else octets
    }
  }

  function Ops(fields: seq<Field>): seq<Op>
    decreases |fields|
  {
    if fields == [] then []
    else [if fields[0].Number? then Int(fields[0].width) else Skip(|fields[0].octets|)] + Ops(fields[1..])
  }

  function Values(fields: seq<Field>): seq<nat>
    decreases |fields|
  {
    if fields == [] then [] else [if fields[0].Number? then fields[0].val else 0] + Values(fields[1..])
  }

  function Unparse(fields: seq<Field>): seq<byte>
    decreases |fields|
  {
    if fields == [] then [] else fields[0].Octets() + Unparse(fields[1..])
  }

  /** A read takes as many octets off the front as it is wide, a skip as many as it says. */
  lemma StepHead(head: seq<byte>, tail: seq<byte>)
    ensures Step(State(head + tail, NoError), Int(|head|)) == (State(tail, NoError), Decode(head))
    ensures Step(State(head + tail, NoError), Skip(|head|)) == (State(tail, NoError), 0)
  {
  }

  /** If there are fewer octets, both fail and leave them. */
  lemma StepFails(rest: seq<byte>, error: ParseResult, n: nat)
    requires n > |rest|
    ensures Step(State(rest, error), Int(n)) == Step(State(rest, error), Skip(n)) == (State(rest, PacketTooShort), 0)
  {
  }

  lemma FieldStep(f: Field, tail: seq<byte>)
    requires f.Valid()
    ensures Step(State(f.Octets() + tail, NoError), Ops([f])[0]) == (State(tail, NoError), Values([f])[0])
  {
    StepHead(f.Octets(), tail);
    if f.Number? {
      DecodeEncode(f.val, f.width);
    }
  }

  /** Parsing what was unparsed yields the fields and leaves exactly what follows. */
  lemma {:induction false} ParseUnparse(fields: seq<Field>, trailing: seq<byte>)
    requires forall f :: f in fields ==> f.Valid()
    ensures Run(State(Unparse(fields) + trailing, NoError), Ops(fields)) ==
            (State(trailing, NoError), Values(fields))
    decreases |fields|
  {
    if fields == [] {
      assert Unparse(fields) + trailing == trailing;
    } else {
      var head, tail := fields[0].Octets(), Unparse(fields[1..]) + trailing;
      assert Unparse(fields) + trailing == head + tail;
      assert fields[0] in fields && forall f :: f in fields[1..] ==> f in fields;
      FieldStep(fields[0], tail);
      ParseUnparse(fields[1..], trailing);
      assert Ops(fields)[1..] == Ops(fields[1..]);
    }
  }

  /** Parsing a part of it fails exactly if something is missing. */
  lemma {:induction false} TruncatedFails(fields: seq<Field>, size: nat)
    requires forall f :: f in fields ==> f.Valid()
    requires size < |Unparse(fields)|
    ensures Run(State(Unparse(fields)[..size], NoError), Ops(fields)).0.error == PacketTooShort
    decreases |fields|
  {
    var head, tail, op := fields[0].Octets(), Unparse(fields[1..]), Ops(fields)[0];
    assert fields[0] in fields && forall f :: f in fields[1..] ==> f in fields;
    assert Ops(fields)[1..] == Ops(fields[1..]);
    if size < |head| {
      StepFails(Unparse(fields)[..size], NoError, |head|);
      ErrorSticks(State(Unparse(fields)[..size], PacketTooShort), Ops(fields[1..]));
    } else {
      FieldStep(fields[0], tail[..size - |head|]);
      assert Unparse(fields)[..size] == head + tail[..size - |head|];
      TruncatedFails(fields[1..], size - |head|);
    }
  }

  /** The fields that a successful parse of `data` stands for. */
  function Fields(data: seq<byte>, ops: seq<Op>, values: seq<nat>): seq<Field>
    requires |ops| == |values|
    decreases |ops|
  {
    if ops == [] then []
    else
      var n := Min(ops[0].Length(), |data|);
      [if ops[0].Int? then Number(n, values[0]) else Raw(data[..n])] + Fields(data[n..], ops[1..], values[1..])
  }

  /** Unparsing the fields of any successful parse reproduces the octets it consumed. */
  lemma {:induction false} UnparseParse(data: seq<byte>, ops: seq<Op>)
    requires Run(State(data, NoError), ops).0.error == NoError
    ensures var (s, values) := Run(State(data, NoError), ops);
            Unparse(Fields(data, ops, values)) + s.rest == data
    decreases |ops|
  {
    if ops != [] {
      var n := ops[0].Length();
      if n > |data| {
        ErrorSticks(State(data, PacketTooShort), ops[1..]);
      } else {
        var (s, values) := Run(State(data[n..], NoError), ops[1..]);
        UnparseParse(data[n..], ops[1..]);
        var v := Step(State(data, NoError), ops[0]).1;
        UnparseParseStep(data, ops, v, values, s.rest);
      }
    }
  }

  /** One operation in front of a parse that has been reproduced. */
  lemma UnparseParseStep(data: seq<byte>, ops: seq<Op>, v: nat, values: seq<nat>, rest: seq<byte>)
    requires ops != [] && |values| == |ops| - 1 && ops[0].Length() <= |data|
    requires v == Step(State(data, NoError), ops[0]).1
    requires Unparse(Fields(data[ops[0].Length()..], ops[1..], values)) + rest == data[ops[0].Length()..]
    ensures Unparse(Fields(data, ops, [v] + values)) + rest == data
  {
    var n := ops[0].Length();
    var f := if ops[0].Int? then Number(n, v) else Raw(data[..n]);
    assert ([v] + values)[1..] == values;
    FieldOfStep(data, ops[0]);
    UnparseCons(f, Fields(data[n..], ops[1..], values));
    AppendAssoc(data[..n], Unparse(Fields(data[n..], ops[1..], values)), rest);
    Halves(data, n);
  }

  lemma FieldOfStep(data: seq<byte>, op: Op)
    requires op.Length() <= |data|
    ensures var head := data[..op.Length()];
            head == if op.Int? then Number(|head|, Step(State(data, NoError), op).1).Octets() else Raw(head).Octets()
  {
    EncodeDecode(data[..op.Length()]);
  }

  lemma Halves(data: seq<byte>, n: nat)
    requires n <= |data|
    ensures data[..n] + data[n..] == data
  {
  }

  lemma UnparseCons(f: Field, fields: seq<Field>)
    ensures Unparse([f] + fields) == f.Octets() + Unparse(fields)
  {
    assert ([f] + fields)[1..] == fields;
  }

  // --------------------------------------------------------------------- the classes

  class NetParser {
    const buffer: Buffer  // the parser's own copy, shrinking
    var error: ParseResult

    ghost predicate Valid()
      reads this, buffer
    {
      buffer.Valid()
    }

    ghost function Abs(): State
      requires Valid()
      reads this, buffer
    {
      State(buffer.Str(), error)
    }

    /** The caller's Buffer is copied and stays as it is. */
    constructor (b: Buffer)
      requires b.Valid()
      ensures Valid() && fresh(buffer) && Abs() == State(b.Str(), NoError)
    {
      buffer := new Buffer.Copy(b);
      error := NoError;
    }

    method SetError(res: ParseResult)
      modifies `error
      ensures error == res
    {
      error := res;
    }

    method CheckSize(size: nat)
      requires Valid()
      modifies `error
      ensures error == if size > |buffer.Str()| then PacketTooShort else old(error)
    {
      if size > |buffer.Str()| {
        SetError(PacketTooShort);
      }
    }

    /** For an unsigned type of `len` octets, whose shifts drop what does not fit. */
    method ParseInt(len: nat) returns (ret: nat)
      requires Valid() && len in {1, 2, 4}
      modifies `error, buffer
      ensures Valid() && (Abs(), ret) == Step(old(Abs()), Int(len))
    {
      CheckSize(len);
      if error != NoError {
        return 0;
      }
      ret := 0;
      var i := 0;
      ghost var str := buffer.Str();
      assert str[..0] == [];
      while i < len
        invariant i <= len && Valid() && Abs() == State(str, NoError)
        invariant ret == Decode(str[..i]) < Pow256(i)
      {
        assert str[..i + 1][..i] == str[..i];
        ShiftFits(ret, i, len);
        ret := ret * 0x100 % Pow256(len);
        ret := ret + buffer.Str()[i] as int;
        i := i + 1;
      }
      var ok := buffer.RemovePrefix(len);
    }

    method U32() returns (ret: nat)
      requires Valid()
      modifies `error, buffer
      ensures Valid() && (Abs(), ret) == Step(old(Abs()), Int(4))
    {
      ret := ParseInt(4);
    }

    method U16() returns (ret: nat)
      requires Valid()
      modifies `error, buffer
      ensures Valid() && (Abs(), ret) == Step(old(Abs()), Int(2))
    {
      ret := ParseInt(2);
    }

    method U8() returns (ret: nat)
      requires Valid()
      modifies `error, buffer
      ensures Valid() && (Abs(), ret) == Step(old(Abs()), Int(1))
    {
      ret := ParseInt(1);
    }

    method RemovePrefix(n: nat)
      requires Valid()
      modifies `error, buffer
      ensures Valid() && Abs() == Step(old(Abs()), Skip(n)).0
    {
      CheckSize(n);
      if error != NoError {
        return;
      }
      var ok := buffer.RemovePrefix(n);
    }
  }

  /** Shifting an octet in loses nothing as long as there is room for it. */
  lemma ShiftFits(x: nat, i: nat, len: nat)
    requires x < Pow256(i) && i < len
    ensures x * 0x100 % Pow256(len) == x * 0x100 && x * 0x100 + 0xff < Pow256(i + 1)
  {
    PowMonotone(i + 1, len);
    ModSmall(x * 0x100, Pow256(len));
  }

  lemma ModSmall(x: nat, m: nat)
    requires x < m
    ensures x % m == x
  {
  }

  lemma {:induction false} PowMonotone(i: nat, j: nat)
    requires i <= j
    ensures Pow256(i) <= Pow256(j)
    decreases j
  {
    if i < j {
      PowMonotone(i, j - 1);
    }
  }

  /** `val >> 8 * k` */
  function ShiftRight(val: nat, k: nat): nat {
    if k == 0 then val else ShiftRight(val / 0x100, k - 1)
  }

  lemma {:induction false} ShiftOnce(val: nat, k: nat)
    ensures ShiftRight(val, k + 1) == ShiftRight(val, k) / 0x100
  {
    if k > 0 {
      ShiftOnce(val / 0x100, k - 1);
    }
  }

  lemma {:induction false} ShiftOut(val: nat, k: nat)
    requires val < Pow256(k)
    ensures ShiftRight(val, k) == 0
  {
    if k > 0 {
      ShiftOut(val / 0x100, k - 1);
    }
  }

  method UnparseInt(s: seq<byte>, val: nat, len: nat) returns (s': seq<byte>)
    requires val < Pow256(len)
    ensures s' == s + Encode(val, len)
  {
    s' := s;
    var i := 0;
    ShiftOut(val, len);
    while i < len
      invariant i <= len
      invariant s' == s + Encode(ShiftRight(val, len - i), i)
    {
      ShiftOnce(val, len - i - 1);
      var octet := ShiftRight(val, len - i - 1) % 0x100;
      s' := s' + [octet];
      i := i + 1;
    }
  }

  // ---------------------------------------------------------------------- whole schedules

  ghost predicate Typed(op: Op) {
    op.Int? ==> op.width in {1, 2, 4}
  }

  /** Driving the class over a schedule is the run that the theorems speak of. */
  method Parse(p: NetParser, ops: seq<Op>) returns (values: seq<nat>)
    requires p.Valid() && forall op :: op in ops ==> Typed(op)
    modifies p`error, p.buffer
    ensures p.Valid() && (p.Abs(), values) == Run(old(p.Abs()), ops)
  {
    values := [];
    var i := 0;
    ghost var whole := Run(p.Abs(), ops);
    assert ops[0..] == ops && [] + whole.1 == whole.1;
    while i < |ops|
      invariant i <= |ops| && p.Valid()
      invariant whole == (Run(p.Abs(), ops[i..]).0, values + Run(p.Abs(), ops[i..]).1)
    {
      assert ops[i] in ops && ops[i..][1..] == ops[i + 1..];
      var v := ParseOne(p, ops[i]);
      AppendAssoc(values, [v], Run(p.Abs(), ops[i + 1..]).1);
      values := values + [v];
      i := i + 1;
    }
    assert ops[i..] == [] && values + [] == values;
  }

  method ParseOne(p: NetParser, op: Op) returns (value: nat)
    requires p.Valid() && Typed(op)
    modifies p`error, p.buffer
    ensures p.Valid() && (p.Abs(), value) == Step(old(p.Abs()), op)
  {
    match op
    case Int(width) =>
      if width == 1 {
        value := p.U8();
      } else if width == 2 {
        value := p.U16();
      } else {
        value := p.U32();
      }
    case Skip(n) =>
      p.RemovePrefix(n);
      value := 0;
  }

  method UnparseAll(s: seq<byte>, fields: seq<Field>) returns (s': seq<byte>)
    requires forall f :: f in fields ==> f.Valid()
    ensures s' == s + Unparse(fields)
  {
    s' := s;
    var i := 0;
    assert fields[0..] == fields;
    while i < |fields|
      invariant i <= |fields| && s' + Unparse(fields[i..]) == s + Unparse(fields)
    {
      assert fields[i] in fields && fields[i..][1..] == fields[i + 1..];
      AppendAssoc(s', fields[i].Octets(), Unparse(fields[i + 1..]));
      match fields[i] {
        case Number(width, val) => s' := UnparseInt(s', val, width);
        case Raw(octets) => s' := s' + octets;
      }
      i := i + 1;
    }
    assert fields[i..] == [] && s' + [] == s';
  }

  /** What is written field by field and parsed again comes back, and the rest is left. */
  method RoundTrip(fields: seq<Field>, trailing: seq<byte>) returns (values: seq<nat>, rest: Buffer)
    requires forall f :: f in fields ==> f.Valid()
    ensures values == Values(fields) && rest.Valid() && rest.Str() == trailing
  {
    var s := UnparseAll([], fields);
    var b := new Buffer(s + trailing);
    var p := new NetParser(b);
    assert [] + Unparse(fields) == Unparse(fields);
    OpsTyped(fields);
    ParseUnparse(fields, trailing);
    values := Parse(p, Ops(fields));
    rest := p.buffer;
  }

  lemma {:induction false} OpsTyped(fields: seq<Field>)
    requires forall f :: f in fields ==> f.Valid()
    ensures forall op :: op in Ops(fields) ==> Typed(op)
    decreases |fields|
  {
    if fields != [] {
      assert fields[0] in fields && forall f :: f in fields[1..] ==> f in fields;
      OpsTyped(fields[1..]);
    }
  }
}
