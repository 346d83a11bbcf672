/** The records a protobuf writer makes, and what splitting reads of them. */
module SettingsRecords {
  import opened Bytes
  import opened SettingsProto

  /** What a writer puts under a field number: a number, eight or four bytes, or bytes with their
      length in front. */
  datatype Value = Number(x: nat) | Eight(raw: seq<byte>) | Delimited(payload: seq<byte>) | Four(raw: seq<byte>)

  const TWO_TO_64: nat := 0x1_0000_0000_0000_0000

  ghost function WireType(v: Value): nat {
    match v
    case Number(_) => 0
    case Eight(_) => 1
    case Delimited(_) => 2
    case Four(_) => 5
  }

  ghost function Payload(v: Value): seq<byte> {
    match v
    case Number(x) => PutUvarint(x)
    case Eight(raw) => raw
    case Delimited(payload) => PutUvarint(|payload|) + payload
    case Four(raw) => raw
  }

  /** A field number and wire type in the varint in front, then the value. */
  ghost function Written(num: nat, v: Value): seq<byte> {
    PutUvarint(8 * num + WireType(v)) + Payload(v)
  }

  ghost predicate Writable(num: nat, v: Value) {
    && num > 0 && 8 * num + 7 < TWO_TO_64
    && match v
       case Number(x) => x < TWO_TO_64
       case Eight(raw) => |raw| == 8
       case Delimited(payload) => |payload| < TWO_TO_64
       case Four(raw) => |raw| == 4
  }

  lemma CapIs()
    ensures Cap(0) == TWO_TO_64
  {
    assert Cap(9) == 2 && Cap(8) == 256 && Cap(7) == 32768 && Cap(6) == 4194304;
    assert Cap(5) == 536870912 && Cap(4) == 68719476736 && Cap(3) == 8796093022208;
    assert Cap(2) == 1125899906842624 && Cap(1) == 144115188075855872;
  }

  /** The number in base 128 whose digits the bytes are, lowest first, without their high bits. */
  ghost function Base128(b: seq<byte>): nat {
    if b == [] then 0 else b[0] % 128 + 128 * Base128(b[1..])
  }

  /** Every byte but the last has its high bit. */
  ghost predicate OneVarint(b: seq<byte>) {
    b != [] && b[|b| - 1] < 128 && forall j :: 0 <= j < |b| - 1 ==> b[j] >= 128
  }

  /** What is read is the number in base 128, if it has ten bytes at most and fits 64 bits. */
  lemma {:induction false} VarintIs(b: seq<byte>, rest: seq<byte>, i: nat)
    requires OneVarint(b) && i < MAX_VARINT_LEN
    ensures Uvarint(b + rest, i) ==
            if |b| + i <= MAX_VARINT_LEN && Base128(b) < Cap(i) then Varint(Base128(b), |b|) else NoVarint
    decreases |b|
  {
    assert (b + rest)[0] == b[0];
    if |b| > 1 {
      assert (b + rest)[1..] == b[1..] + rest;
      if i + 1 < MAX_VARINT_LEN {
        VarintIs(b[1..], rest, i + 1);
      }
    } else {
      assert b[1..] == [];
      AtLeast128(i);
    }
  }

  lemma AtLeast128(i: nat)
    requires i < MAX_VARINT_LEN
    ensures i < MAX_VARINT_LEN - 1 ==> Cap(i) >= 128
  {
  }

  /** A number is written as such a varint. */
  lemma {:induction false} WrittenIs(x: nat)
    ensures OneVarint(PutUvarint(x)) && Base128(PutUvarint(x)) == x
  {
    var w := PutUvarint(x);
    if x >= 128 {
      WrittenIs(x / 128);
      assert w[1..] == PutUvarint(x / 128);
    } else {
      assert w[1..] == [];
    }
  }

  /** It is the only one of its number without needless zeros. */
  lemma {:induction false} OnlyWay(b: seq<byte>)
    requires OneVarint(b) && (|b| > 1 ==> b[|b| - 1] != 0)
    ensures PutUvarint(Base128(b)) == b
    decreases |b|
  {
    if |b| == 1 {
      assert b[1..] == [];
    } else {
      OnlyWay(b[1..]);
      Positive(b[1..]);
      FirstDigit(b[0], Base128(b[1..]));
      assert b == [b[0]] + b[1..];
    }
  }

  lemma FirstDigit(b: byte, high: nat)
    requires b >= 128
    ensures (b % 128 + 128 * high) % 128 + 128 == b && (b % 128 + 128 * high) / 128 == high
  {
  }

  lemma {:induction false} Positive(b: seq<byte>)
    requires b != [] && b[|b| - 1] != 0 && b[|b| - 1] < 128
    ensures Base128(b) > 0
    decreases |b|
  {
    if |b| > 1 {
      Positive(b[1..]);
    }
  }

  lemma VarintRead(x: nat, rest: seq<byte>)
    requires x < TWO_TO_64
    ensures Uvarint(PutUvarint(x) + rest) == Varint(x, |PutUvarint(x)|) && PutUvarint(x) != []
    ensures (PutUvarint(x) + rest)[|PutUvarint(x)|..] == rest
  {
    CapIs();
    VarintRoundTrip(x, rest, 0);
  }

  /** A tag is read as its field number and wire type, and the rest by that type. */
  lemma TagRead(num: nat, wire: nat, rest: seq<byte>)
    requires wire < 8 && 8 * num + wire < TWO_TO_64
    ensures var tag := PutUvarint(8 * num + wire);
            Record(tag + rest) ==
            if num == 0 then Err(BadTag)
            else match PayloadLen(wire, rest)
                 case Err(e) => Err(e)
                 case Ok(m) => Ok(Head(num, |tag| + m))
  {
    hide Uvarint, PutUvarint, PayloadLen;
    VarintRead(8 * num + wire, rest);
    TagParts(num, wire);
  }

  lemma TagParts(num: nat, wire: nat)
    requires wire < 8
    ensures (8 * num + wire) / 8 == num && (8 * num + wire) % 8 == wire
  {
  }

  lemma PayloadRead(v: Value, rest: seq<byte>)
    requires Writable(1, v)
    ensures PayloadLen(WireType(v), Payload(v) + rest) == Ok(|Payload(v)|)
  {
    hide Uvarint, PutUvarint;
    match v {
      case Number(x) => VarintRead(x, rest);
      case Eight(raw) =>
      case Delimited(payload) =>
        VarintRead(|payload|, payload + rest);
        assert Payload(v) + rest == PutUvarint(|payload|) + (payload + rest);
      case Four(raw) =>
    }
  }

  /** A written record, whatever follows it, is read as one record of its field and just its
      length. */
  lemma RecordRead(num: nat, v: Value, rest: seq<byte>)
    requires Writable(num, v)
    ensures Record(Written(num, v) + rest) == Ok(Head(num, |Written(num, v)|))
  {
    hide PutUvarint, PayloadLen, Payload;
    TagRead(num, WireType(v), Payload(v) + rest);
    PayloadRead(v, rest);
    assert Written(num, v) + rest == PutUvarint(8 * num + WireType(v)) + (Payload(v) + rest);
  }

  /** Groups and the types there are none of are refused. */
  lemma OtherTypes(num: nat, wire: nat, rest: seq<byte>)
    requires wire in {3, 4, 6, 7} && num > 0 && 8 * num + wire < TWO_TO_64
    ensures Record(PutUvarint(8 * num + wire) + rest) == Err(Unsupported(wire))
  {
    hide PutUvarint, Uvarint;
    TagRead(num, wire, rest);
  }

  /** Field number 0, and what is cut short, are refused: a tag or a number without its last byte,
      fewer than eight or four bytes, a length without its last byte or longer than what follows. */
  lemma CutShort(num: nat, rest: seq<byte>, l: nat)
    requires num > 0 && 8 * num + 7 < TWO_TO_64 && l < TWO_TO_64
    ensures forall wire: nat :: wire < 8 ==> Record(PutUvarint(wire) + rest) == Err(BadTag)
    ensures (forall b :: b in rest ==> b >= 128) ==>
              && Record(rest) == Err(BadTag)
              && Record(PutUvarint(8 * num) + rest) == Err(BadVarint)
              && Record(PutUvarint(8 * num + 2) + rest) == Err(BadLength)
    ensures |rest| < 8 ==> Record(PutUvarint(8 * num + 1) + rest) == Err(ShortFixed64)
    ensures |rest| < 4 ==> Record(PutUvarint(8 * num + 5) + rest) == Err(ShortFixed32)
    ensures |rest| < l ==> Record(PutUvarint(8 * num + 2) + (PutUvarint(l) + rest)) == Err(BadLength)
  {
    hide PutUvarint, Uvarint;
    forall wire: nat | wire < 8
      ensures Record(PutUvarint(wire) + rest) == Err(BadTag)
    {
      TagRead(0, wire, rest);
    }
    if forall b :: b in rest ==> b >= 128 {
      NeverEnds(rest, 0);
    }
    TagRead(num, 0, rest);
    TagRead(num, 1, rest);
    TagRead(num, 2, rest);
    TagRead(num, 5, rest);
    TagRead(num, 2, PutUvarint(l) + rest);
    VarintRead(l, rest);
  }

  lemma {:induction false} NeverEnds(b: seq<byte>, i: nat)
    requires forall x :: x in b ==> x >= 128
    ensures Uvarint(b, i) == NoVarint
    decreases |b|
  {
    if b != [] {
      assert b[0] in b && forall x :: x in b[1..] ==> x in b;
      NeverEnds(b[1..], i + 1);
    }
  }

  // ---------- messages ----------

  ghost function FieldsOf(values: seq<(nat, Value)>): seq<Field> {
    seq(|values|, i requires 0 <= i < |values| => Field(values[i].0, Written(values[i].0, values[i].1)))
  }

  /** A message of written records is split into just these records. */
  lemma MessageSplit(values: seq<(nat, Value)>)
    requires forall i :: 0 <= i < |values| ==> Writable(values[i].0, values[i].1)
    ensures Split(Raws(FieldsOf(values))) == Ok(FieldsOf(values))
  {
    hide Split, Raws, Record, Written, Writable;
    var fields := FieldsOf(values);
    forall f | f in fields
      ensures WellFormed(f)
    {
      var i :| 0 <= i < |fields| && fields[i] == f;
      RecordRead(values[i].0, values[i].1, []);
      assert Written(values[i].0, values[i].1) + [] == Written(values[i].0, values[i].1);
    }
    SplitUndoesJoin(fields);
  }
}
