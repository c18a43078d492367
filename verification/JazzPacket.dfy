/** SaluteJazz data packets, a small part of the protobuf wire format (jazz/datapacket.go).
    Varints are those of Go's encoding/binary: at most ten bytes, the tenth at most 1. */
module JazzPacket {
  import opened Bytes

  const U64: int := 0x1_0000_0000_0000_0000

  type uint64 = x: int | 0 <= x < U64

  const MAX_VARINT_LEN := 10

  // Varints

  function PutUvarint(v: nat): (b: bytes)
    ensures b != []
  {
    if v < 0x80 then [v] else [v % 0x80 + 0x80] + PutUvarint(v / 0x80)
  }

  /** Values below this bound fit in the bytes from index i on. */
  function Room(i: nat): nat
    requires i < MAX_VARINT_LEN
    ensures Room(i) >= 2
    decreases MAX_VARINT_LEN - i
  {
    if i == MAX_VARINT_LEN - 1 then 2 else 0x80 * Room(i + 1)
  }

  /** The value, unless the bytes end early or there are too many, and how many are consumed. */
  function Uvarint(data: bytes, i: nat): (r: (Option<nat>, nat))
    ensures r.1 <= |data| && (r.0.Some? ==> r.1 > 0)
    ensures data != [] && i < MAX_VARINT_LEN ==> r.1 > 0
    decreases |data|
  {
    if i >= MAX_VARINT_LEN || data == [] then (None, 0)
    else if data[0] < 0x80 then
      (if i == MAX_VARINT_LEN - 1 && data[0] > 1 then None else Some(data[0]), 1)
    else
      var (v, used) := Uvarint(data[1..], i + 1);
      (if v.Some? then Some(data[0] - 0x80 + 0x80 * v.value) else None, used + 1)
  }

  lemma RoomIsU64()
    ensures Room(0) == U64
  {
    assert Room(9) == 2;
    assert Room(8) == 0x100;
    assert Room(7) == 0x8000;
    assert Room(6) == 0x40_0000;
    assert Room(5) == 0x2000_0000;
    assert Room(4) == 0x10_0000_0000;
    assert Room(3) == 0x800_0000_0000;
    assert Room(2) == 0x4_0000_0000_0000;
    assert Room(1) == 0x200_0000_0000_0000;
  }

  lemma {:induction false} UvarintInRange(data: bytes, i: nat)
    requires i < MAX_VARINT_LEN && Uvarint(data, i).0.Some?
    ensures Uvarint(data, i).0.value < Room(i)
    decreases |data|
  {
    if i < MAX_VARINT_LEN - 1 {
      if data[0] >= 0x80 {
        UvarintInRange(data[1..], i + 1);
      } else {
        assert Room(i) == 0x80 * Room(i + 1);
      }
    }
  }

  lemma {:induction false} VarintFits(v: nat, rest: bytes, i: nat)
    requires i < MAX_VARINT_LEN && v < Room(i)
    ensures Uvarint(PutUvarint(v) + rest, i) == (Some(v), |PutUvarint(v)|)
    decreases v
  {
    var b := PutUvarint(v) + rest;
    if v >= 0x80 {
      assert Room(i) == 0x80 * Room(i + 1);
      VarintFits(v / 0x80, rest, i + 1);
      assert b[1..] == PutUvarint(v / 0x80) + rest;
    }
  }

  /** Every uint64 is read back as it was written, whatever follows. */
  lemma VarintRoundTrip(v: uint64, rest: bytes)
    ensures Uvarint(PutUvarint(v) + rest, 0) == (Some(v as nat), |PutUvarint(v)|)
  {
    RoomIsU64();
    VarintFits(v, rest, 0);
  }

  /** The value of groups of seven bits, the low ones first. */
  function Groups(data: bytes): nat {
    if data == [] then 0 else data[0] % 0x80 + 0x80 * Groups(data[1..])
  }

  /** Any encoding is read for what it is worth, shortest or not: up to the first byte below 0x80,
      if that is at most the tenth and the tenth is at most 1. */
  lemma {:induction false} UvarintReads(data: bytes, i: nat, n: nat)
    requires 0 < n <= |data| && i + n <= MAX_VARINT_LEN && data[n - 1] < 0x80
    requires forall k :: 0 <= k < n - 1 ==> data[k] >= 0x80
    requires i + n == 10 ==> data[n - 1] <= 1
    ensures Uvarint(data, i) == (Some(Groups(data[..n])), n)
    decreases n
  {
    assert data[..n][1..] == data[1..][..n - 1];
    if n > 1 {
      UvarintReads(data[1..], i + 1, n - 1);
    } else {
      assert Groups([]) == 0;
    }
  }

  /** And nothing is read from bytes that end before, or from a tenth byte over 1, or if the first
      ten go on. */
  lemma {:induction false} UvarintFails(data: bytes, i: nat)
    requires i <= MAX_VARINT_LEN
    requires var n := Min(|data|, MAX_VARINT_LEN - i);
      && (forall k :: 0 <= k < n - 1 ==> data[k] >= 0x80)
      && (n > 0 ==> data[n - 1] >= 0x80 || (i + n == 10 && data[n - 1] > 1))
    ensures Uvarint(data, i).0.None?
    decreases |data|
  {
    if i < MAX_VARINT_LEN && data != [] && data[0] >= 0x80 {
      UvarintFails(data[1..], i + 1);
    }
  }

  // Fields

  const VARINT := 0
  const FIXED64 := 1
  const LENGTH_DELIMITED := 2
  const FIXED32 := 5

  datatype Field = Field(number: nat, wireType: nat, data: bytes)

  function EncodeField(f: Field): bytes {
    PutUvarint(f.number * 8 + f.wireType) + Body(f)
  }

  function Body(f: Field): bytes {
    if f.wireType == LENGTH_DELIMITED then PutUvarint(|f.data|) + f.data else f.data
  }

  datatype Taken = Bad | Good(field: bytes, rest: bytes)

  /** handleWireType on the unread bytes. */
  function Take(rest: bytes, wireType: nat): (t: Taken)
    ensures t.Good? ==> |t.rest| <= |rest|
  {
    if wireType == VARINT then Good([], rest[Uvarint(rest, 0).1..])
    else if wireType == LENGTH_DELIMITED then
      var (length, used) := Uvarint(rest, 0);
      if length.None? || length.value > |rest| - used then Bad
      else if used == |rest| then Bad
      else Good(rest[used..used + length.value], rest[used + length.value..])
    else if wireType == FIXED64 then Good([], rest[Min(8, |rest|)..])
    else if wireType == FIXED32 then Good([], rest[Min(4, |rest|)..])
    else Bad
  }

  /** parseFields on the unread bytes, with the result so far. */
  function ParseRest(rest: bytes, target: nat, result: bytes): bytes
    decreases |rest|
  {
    if rest == [] then result
    else
      var (tag, used) := Uvarint(rest, 0);
      if tag.None? then result
      else
        match Take(rest[used..], tag.value % 8)
        case Bad => result
        case Good(field, left) =>
          ParseRest(left, target,
                    if tag.value / 8 == target && tag.value % 8 == LENGTH_DELIMITED then field else result)
  }

  function Parse(data: bytes, target: nat): Option<bytes> {
    var result := ParseRest(data, target, []);
    if result == [] then None else Some(result)
  }

  // What parsing gives back

  ghost predicate WellFormed(f: Field) {
    && f.number * 8 + 8 <= U64 && |f.data| < U64
    && (f.wireType == LENGTH_DELIMITED
        || (f.wireType == VARINT && exists v: uint64 :: f.data == PutUvarint(v))
        || (f.wireType == FIXED64 && |f.data| == 8)
        || (f.wireType == FIXED32 && |f.data| == 4))
  }

  ghost predicate AllWellFormed(fields: seq<Field>) { forall k :: 0 <= k < |fields| ==> WellFormed(fields[k]) }

  ghost function EncodeFields(fields: seq<Field>): bytes
    requires AllWellFormed(fields)
  {
    if fields == [] then [] else EncodeField(fields[0]) + EncodeFields(fields[1..])
  }

  /** The last length-delimited field with the number; an empty one that ends the message does
      not count, because the reader is at its end by then. */
  function LastOf(fields: seq<Field>, target: nat, result: bytes): bytes {
    if fields == [] then result
    else
      var f := fields[0];
      var counts := f.wireType == LENGTH_DELIMITED && f.number == target && (f.data != [] || |fields| > 1);
      LastOf(fields[1..], target, if counts then f.data else result)
  }

  lemma TakeField(f: Field, rest: bytes)
    requires WellFormed(f)
    ensures Take(Body(f) + rest, f.wireType) ==
      if f.wireType != LENGTH_DELIMITED then Good([], rest)
      else if f.data + rest == [] then Bad
      else Good(f.data, rest)
  {
    var all := Body(f) + rest;
    if f.wireType == LENGTH_DELIMITED {
      TakeDelimited(f.data, rest);
      Assoc(PutUvarint(|f.data|), f.data, rest);
    } else if f.wireType == VARINT {
      var v: uint64 :| f.data == PutUvarint(v);
      VarintRoundTrip(v, rest);
      assert all[|f.data|..] == rest;
    } else {
      assert all[|f.data|..] == rest;
    }
  }

  lemma TakeDelimited(data: bytes, rest: bytes)
    requires |data| < U64
    ensures Take(PutUvarint(|data|) + (data + rest), LENGTH_DELIMITED) ==
      if data + rest == [] then Bad else Good(data, rest)
  {
    hide PutUvarint, Uvarint, Take;
    VarintRoundTrip(|data|, data + rest);
    TakeBehind(PutUvarint(|data|), data, rest);
  }

  lemma TakeBehind(size: bytes, data: bytes, rest: bytes)
    requires Uvarint(size + (data + rest), 0) == (Some(|data|), |size|)
    ensures Take(size + (data + rest), LENGTH_DELIMITED) == if data + rest == [] then Bad else Good(data, rest)
  {
    hide Uvarint;
    var all, end := size + (data + rest), |size| + |data|;
    assert all[|size|..end] == data && all[end..] == rest;
  }

  lemma OneField(f: Field, rest: bytes, target: nat, result: bytes)
    requires WellFormed(f)
    ensures ParseRest(EncodeField(f) + rest, target, result) ==
      if f.wireType == LENGTH_DELIMITED && f.data + rest == [] then result
      else ParseRest(rest, target, if f.wireType == LENGTH_DELIMITED && f.number == target then f.data else result)
  {
    hide PutUvarint, Uvarint, Take, Body;
    var tag := f.number * 8 + f.wireType;
    var bytes := PutUvarint(tag);
    Assoc(bytes, Body(f), rest);
    VarintRoundTrip(tag, Body(f) + rest);
    assert (bytes + (Body(f) + rest))[|bytes|..] == Body(f) + rest;
    TakeField(f, rest);
    assert tag / 8 == f.number && tag % 8 == f.wireType;
  }

  /** Any fields, with any numbers and of any wire type, in any order: the parser returns what
      the last field with the number carries. */
  lemma {:induction false} FieldsRoundTrip(fields: seq<Field>, target: nat, result: bytes)
    requires AllWellFormed(fields)
    ensures ParseRest(EncodeFields(fields), target, result) == LastOf(fields, target, result)
  {
    hide ParseRest, EncodeField, WellFormed;
    if fields == [] {
      ParseNothing(target, result);
    } else {
      var f, more := fields[0], fields[1..];
      OneField(f, EncodeFields(more), target, result);
      FieldsRoundTrip(more, target, if f.wireType == LENGTH_DELIMITED && f.number == target then f.data else result);
      EncodingEmpty(more);
    }
  }

  lemma ParseNothing(target: nat, result: bytes)
    ensures ParseRest([], target, result) == result
  {
  }

  lemma EncodingEmpty(fields: seq<Field>)
    requires AllWellFormed(fields)
    ensures EncodeFields(fields) == [] <==> fields == []
  {
    if fields != [] {
      assert |EncodeField(fields[0])| > 0;
    }
  }

  // Broken fields

  /** The last length-delimited field with the number, when more bytes follow. */
  function LastBefore(fields: seq<Field>, target: nat, result: bytes): bytes {
    if fields == [] then result
    else
      var f := fields[0];
      LastBefore(fields[1..], target, if f.wireType == 2 && f.number == target then f.data else result)
  }

  /** Bytes that no field can be read from. */
  ghost predicate Broken(tail: bytes) {
    tail != [] && forall target: nat, result: bytes :: ParseRest(tail, target, result) == result
  }

  /** A broken field ends the parsing, and what stood before it is returned. */
  lemma {:induction false} BrokenFieldStops(fields: seq<Field>, tail: bytes, target: nat, result: bytes)
    requires AllWellFormed(fields) && Broken(tail)
    ensures ParseRest(EncodeFields(fields) + tail, target, result) == LastBefore(fields, target, result)
  {
    hide ParseRest, EncodeField, WellFormed;
    if fields == [] {
      assert [] + tail == tail;
    } else {
      var f, more := fields[0], EncodeFields(fields[1..]) + tail;
      Assoc(EncodeField(f), EncodeFields(fields[1..]), tail);
      OneField(f, more, target, result);
      BrokenFieldStops(fields[1..], tail, target, if f.wireType == 2 && f.number == target then f.data else result);
    }
  }

  /** Broken are a wire type other than 0, 1, 2 and 5, and a field that announces more bytes than
      there are. */
  lemma WhatIsBroken(number: nat, wireType: nat, size: nat, rest: bytes)
    requires number * 8 + 8 <= U64 && size < U64 && wireType < 8
    ensures wireType !in {0, 1, 2, 5} ==> Broken(PutUvarint(number * 8 + wireType) + rest)
    ensures |rest| < size ==> Broken(PutUvarint(number * 8 + 2) + (PutUvarint(size) + rest))
  {
    if wireType !in {0, 1, 2, 5} {
      TagBroken(number * 8 + wireType, rest);
    }
    if |rest| < size {
      VarintRoundTrip(size, rest);
      assert (PutUvarint(size) + rest)[|PutUvarint(size)|..] == rest;
      TagBroken(number * 8 + 2, PutUvarint(size) + rest);
    }
  }

  lemma TagBroken(tag: uint64, rest: bytes)
    requires Take(rest, tag % 8).Bad?
    ensures Broken(PutUvarint(tag) + rest)
  {
    hide PutUvarint, Uvarint, Take;
    VarintRoundTrip(tag, rest);
    assert (PutUvarint(tag) + rest)[|PutUvarint(tag)|..] == rest;
  }

  // The bytes of a packet

  /** Seven bits in a byte, the low ones first, and the top bit set on all but the last. */
  lemma VarintLayout(v: nat)
    ensures v < 0x80 ==> PutUvarint(v) == [v]
    ensures v >= 0x80 ==> PutUvarint(v) == [0x80 + v % 0x80] + PutUvarint(v / 0x80)
  {
  }

  lemma ShortField(number: nat, data: bytes)
    requires number * 8 + 2 < 0x80 && |data| < 0x80
    ensures EncodeField(Field(number, 2, data)) == [number * 8 + 2, |data|] + data
  {
    hide PutUvarint;
    VarintLayout(number * 8 + 2);
    VarintLayout(|data|);
    assert [number * 8 + 2] + ([|data|] + data) == [number * 8 + 2, |data|] + data;
  }

  lemma ZeroField()
    ensures EncodeField(Field(1, VARINT, PutUvarint(0))) == [0x08, 0x00]
  {
    VarintLayout(0x08);
    VarintLayout(0);
  }

  /** A short packet: field 1 is the varint 0, and field 2 holds the payload as its field 2 and the
      message id as its field 8. */
  lemma PacketLayout(payload: bytes, msgID: bytes)
    requires |payload| + |msgID| + 4 < 0x80
    ensures EncodeDataPacket(payload, msgID)
      == [0x08, 0x00] + ([0x12, |payload| + |msgID| + 4]
         + ([0x12, |payload|] + payload + ([0x42, |msgID|] + msgID)))
  {
    hide EncodeField;
    ZeroField();
    ShortField(2, payload);
    ShortField(8, msgID);
    ShortField(2, [0x12, |payload|] + payload + ([0x42, |msgID|] + msgID));
  }

  // Packets

  function EncodeDataPacket(payload: bytes, msgID: bytes): bytes {
    var userFields := EncodeField(Field(2, LENGTH_DELIMITED, payload)) + EncodeField(Field(8, LENGTH_DELIMITED, msgID));
    EncodeField(Field(1, VARINT, PutUvarint(0))) + EncodeField(Field(2, LENGTH_DELIMITED, userFields))
  }

  function DecodeDataPacket(raw: bytes): Option<bytes> {
    match Parse(raw, 2)
    case None => None
    case Some(userData) => Parse(userData, 2)
  }

  lemma TwoFields(a: Field, b: Field, target: nat)
    requires WellFormed(a) && WellFormed(b)
    ensures ParseRest(EncodeField(a) + EncodeField(b), target, []) == LastOf([a, b], target, [])
  {
    hide EncodeField, ParseRest, WellFormed;
    FieldsRoundTrip([a, b], target, []);
    assert [a, b][1..] == [b] && [b][1..] == [];
    assert EncodeFields([b]) == EncodeField(b) + [] == EncodeField(b);
  }

  lemma LastOfTwo(a: Field, b: Field, target: nat)
    ensures LastOf([a, b], target, []) ==
      if b.wireType == LENGTH_DELIMITED && b.number == target && b.data != [] then b.data
      else if a.wireType == LENGTH_DELIMITED && a.number == target then a.data
      else []
  {
    assert [a, b][1..] == [b] && [b][1..] == [];
    var first := if a.wireType == LENGTH_DELIMITED && a.number == target then a.data else [];
    assert LastOf([a, b], target, []) == LastOf([b], target, first);
  }

  lemma UserFields(payload: bytes, msgID: bytes)
    requires |payload| < U64 && |msgID| < U64
    ensures var user :=
              EncodeField(Field(2, LENGTH_DELIMITED, payload)) + EncodeField(Field(8, LENGTH_DELIMITED, msgID));
      user != [] && Parse(user, 2) == if payload == [] then None else Some(payload)
  {
    hide ParseRest, EncodeField;
    var a, b := Field(2, LENGTH_DELIMITED, payload), Field(8, LENGTH_DELIMITED, msgID);
    TwoFields(a, b, 2);
    LastOfTwo(a, b, 2);
    EncodingEmpty([a]);
    assert EncodeFields([a]) == EncodeField(a) + [];
  }

  /** A packet gives back its payload whatever the message id, and an empty payload is taken
      for no payload at all. */
  lemma PacketRoundTrip(payload: bytes, msgID: bytes)
    requires |EncodeDataPacket(payload, msgID)| < U64
    ensures DecodeDataPacket(EncodeDataPacket(payload, msgID)) == if payload == [] then None else Some(payload)
  {
    hide ParseRest, EncodeField;
    var user := EncodeField(Field(2, LENGTH_DELIMITED, payload)) + EncodeField(Field(8, LENGTH_DELIMITED, msgID));
    var a, b := Field(1, VARINT, PutUvarint(0)), Field(2, LENGTH_DELIMITED, user);
    FieldHoldsData(Field(2, LENGTH_DELIMITED, payload));
    FieldHoldsData(Field(8, LENGTH_DELIMITED, msgID));
    FieldHoldsData(b);
    UserFields(payload, msgID);
    assert WellFormed(a) && WellFormed(b);
    TwoFields(a, b, 2);
    LastOfTwo(a, b, 2);
  }

  lemma FieldHoldsData(f: Field)
    ensures |EncodeField(f)| >= |f.data|
  {
  }

  // Arbitrary bytes

  ghost predicate PartOf(x: bytes, data: bytes) {
    exists i, j :: 0 <= i <= j <= |data| && x == data[i..j]
  }

  lemma PartOfSuffix(x: bytes, data: bytes, k: nat)
    requires k <= |data| && PartOf(x, data[k..])
    ensures PartOf(x, data)
  {
    var i, j :| 0 <= i <= j <= |data[k..]| && x == data[k..][i..j];
    assert x == data[k + i..k + j];
  }

  lemma TakenPart(rest: bytes, wireType: nat)
    requires Take(rest, wireType).Good?
    ensures PartOf(Take(rest, wireType).field, rest)
    ensures Take(rest, wireType).rest == rest[|rest| - |Take(rest, wireType).rest|..]
  {
    var (length, used) := Uvarint(rest, 0);
    if wireType == LENGTH_DELIMITED {
      assert Take(rest, wireType).field == rest[used..used + length.value];
    } else {
      assert rest[0..0] == [];
    }
  }

  /** Whatever the bytes, the parser makes nothing up: what it returns stands in them. */
  lemma {:induction false} ParsedIsPart(rest: bytes, target: nat, result: bytes)
    ensures ParseRest(rest, target, result) == result || PartOf(ParseRest(rest, target, result), rest)
    decreases |rest|
  {
    hide Take, Uvarint, PartOf;
    if rest != [] {
      var (tag, used) := Uvarint(rest, 0);
      if tag.Some? && Take(rest[used..], tag.value % 8).Good? {
        var t := Take(rest[used..], tag.value % 8);
        TakenPart(rest[used..], tag.value % 8);
        PartOfSuffix(t.field, rest, used);
        var k := |rest| - |t.rest|;
        assert t.rest == rest[k..];
        var next := if tag.value / 8 == target && tag.value % 8 == LENGTH_DELIMITED then t.field else result;
        ParsedIsPart(t.rest, target, next);
        if PartOf(ParseRest(t.rest, target, next), t.rest) {
          PartOfSuffix(ParseRest(t.rest, target, next), rest, k);
        }
      }
    }
  }

  // The reader

  class ByteReader {
    const data: bytes
    var pos: nat

    constructor (data: bytes)
      ensures this.data == data && pos == 0
    {
      this.data, pos := data, 0;
    }

    /** The unread bytes; a fixed-width field may take pos past the end. */
    function Unread(): bytes
      reads this
    {
      if pos <= |data| then data[pos..] else []
    }

    method ReadByte() returns (c: byte, eof: bool)
      modifies this
      ensures eof <==> old(Unread()) == []
      ensures if eof then pos == old(pos) else
        pos == old(pos) + 1 <= |data| && c == old(Unread())[0] && Unread() == old(Unread())[1..]
    {
      if pos >= |data| {
        return 0, true;
      }
      c, eof := data[pos], false;
      pos := pos + 1;
    }

    /** binary.ReadUvarint: no value if the bytes end early or there are too many. */
    method ReadUvarint() returns (value: Option<nat>)
      modifies this
      ensures value == Uvarint(old(Unread()), 0).0
      ensures Unread() == old(Unread())[Uvarint(old(Unread()), 0).1..]
      ensures old(pos) <= |data| ==> pos <= |data|
      ensures if old(Unread()) == [] then pos == old(pos) else old(pos) < pos
    {
      hide Uvarint, Scaled, OrShifted;
      var x, weight, i := 0, 1, 0;
      ghost var start, rest := Unread(), Unread();
      ScaledStart(start);
      while i < MAX_VARINT_LEN
        invariant 0 <= x && 0 < weight && 0 <= i <= MAX_VARINT_LEN && i <= |start| && pos == old(pos) + i
        invariant rest == Unread() == start[i..] && (i > 0 ==> pos <= |data|)
        invariant Scaled(0, 1, 0, start) == Scaled(x, weight, i, rest)
      {
        ScaledEnd(x, weight, i, rest);
        var b, eof := ReadByte();
        if eof {
          return None;
        }
        if b < 0x80 {
          if i == MAX_VARINT_LEN - 1 && b > 1 {
            return None;
          }
          return Some(OrShifted(x, weight, b));
        }
        ScaledStep(x, weight, i, rest);
        rest := rest[1..];
        x, weight, i := OrShifted(x, weight, b - 0x80), weight * 0x80, i + 1;
      }
      ScaledEnd(x, weight, i, rest);
      return None;
    }

    /** Read into a buffer of n bytes. */
    method Read(n: nat) returns (p: bytes, eof: bool)
      requires pos <= |data|
      modifies this
      ensures old(pos) <= pos <= |data| && (eof <==> old(Unread()) == [])
      ensures !eof ==> p == old(Unread())[..Min(n, |old(Unread())|)] && Unread() == old(Unread())[|p|..]
    {
      if pos >= |data| {
        return [], true;
      }
      p, eof := data[pos..pos + Min(n, |data| - pos)], false;
      pos := pos + |p|;
    }

    /** The length test subtracts pos from dataLen; the difference is never negative. */
    method ReadDelimited(dataLen: nat) returns (fieldData: bytes, ok: bool)
      requires pos <= |data| && dataLen == |data|
      modifies this
      ensures old(pos) <= pos
      ensures ok <==> Take(old(Unread()), LENGTH_DELIMITED).Good?
      ensures ok ==> Good(fieldData, Unread()) == Take(old(Unread()), LENGTH_DELIMITED)
    {
      hide Uvarint;
      ghost var before := Unread();
      var length := ReadUvarint();
      if length.None? {
        return [], false;
      }
      assert pos <= dataLen;
      if length.value > dataLen - pos {
        return [], false;
      }
      var n, eof := Read(length.value);
      if eof || |n| != length.value {
        return [], false;
      }
      SkipTwice(before, Uvarint(before, 0).1, length.value);
      return n, true;
    }

    method HandleWireType(wireType: nat, dataLen: nat) returns (fieldData: bytes, ok: bool)
      requires pos <= |data| && dataLen == |data|
      modifies this
      ensures old(pos) <= pos
      ensures ok <==> Take(old(Unread()), wireType).Good?
      ensures ok ==> Good(fieldData, Unread()) == Take(old(Unread()), wireType)
    {
      hide Uvarint, Take, Unread;
      TakeCases(Unread());
      if wireType == VARINT {
        var ignored := ReadUvarint();
        return [], true;
      } else if wireType == LENGTH_DELIMITED {
        fieldData, ok := ReadDelimited(dataLen);
      } else if wireType == FIXED64 {
        Skip(8);
        return [], true;
      } else if wireType == FIXED32 {
        Skip(4);
        return [], true;
      } else {
        return [], false;
      }
    }

    method Skip(n: nat)
      requires pos <= |data|
      modifies this
      ensures pos == old(pos) + n && Unread() == old(Unread())[Min(n, |old(Unread())|)..]
    {
      pos := pos + n;
    }
  }

  lemma TakeCases(rest: bytes)
    ensures Take(rest, VARINT) == Good([], rest[Uvarint(rest, 0).1..])
    ensures Take(rest, FIXED64) == Good([], rest[Min(8, |rest|)..])
    ensures Take(rest, FIXED32) == Good([], rest[Min(4, |rest|)..])
    ensures forall w: nat :: w !in {VARINT, FIXED64, LENGTH_DELIMITED, FIXED32} ==> Take(rest, w) == Bad
  {
  }

  lemma SkipTwice(b: bytes, i: nat, n: nat)
    requires i + n <= |b|
    ensures b[i..][..n] == b[i..i + n] && b[i..][n..] == b[i + n..]
  {
  }

  method ParseFields(data: bytes, targetField: nat) returns (result: bytes, found: bool)
    ensures result == ParseRest(data, targetField, []) && (found <==> result != [])
    ensures if found then Parse(data, targetField) == Some(result) else Parse(data, targetField) == None
  {
    hide Uvarint, Take, ParseRest;
    var reader := new ByteReader(data);
    result := [];
    while reader.pos < |reader.data|
      invariant reader.data == data && fresh(reader)
      invariant ParseRest(data, targetField, []) == ParseRest(reader.Unread(), targetField, result)
      decreases |data| - reader.pos
    {
      ghost var rest := reader.Unread();
      ParseStep(rest, targetField, result);
      var tagVal := reader.ReadUvarint();
      if tagVal.None? {
        return result, |result| > 0;
      }
      var fieldNumber, wireType := tagVal.value / 8, tagVal.value % 8;
      var fieldData, ok := reader.HandleWireType(wireType, |data|);
      if !ok {
        return result, |result| > 0;
      }
      if fieldNumber == targetField && wireType == 2 {
        result := fieldData;
      }
    }
    assert reader.Unread() == [];
    ParseNothing(targetField, result);
    return result, |result| > 0;
  }

  lemma ParseStep(rest: bytes, target: nat, result: bytes)
    requires rest != []
    ensures var (tag, used) := Uvarint(rest, 0);
      && (tag.None? ==> ParseRest(rest, target, result) == result)
      && (tag.Some? ==>
            var t := Take(rest[used..], tag.value % 8);
            var next := if tag.value / 8 == target && tag.value % 8 == 2 && t.Good? then t.field else result;
            ParseRest(rest, target, result) == if t.Bad? then result else ParseRest(t.rest, target, next))
  {
  }

  /** x | b<<s, where weight is 1<<s and x has no bit from s on. */
  function OrShifted(x: nat, weight: nat, b: nat): nat {
    assert weight * b >= 0;
    x + weight * b
  }

  /** What reading on gives when i bytes with the value x are behind. */
  function Scaled(x: nat, weight: nat, i: nat, rest: bytes): (Option<nat>, nat) {
    var (v, used) := Uvarint(rest, i);
    (if v.Some? then Some(OrShifted(x, weight, v.value)) else None, i + used)
  }

  lemma ScaledStart(start: bytes)
    ensures Scaled(0, 1, 0, start) == Uvarint(start, 0)
  {
  }

  lemma ScaledEnd(x: nat, weight: nat, i: nat, rest: bytes)
    ensures rest == [] || i >= MAX_VARINT_LEN ==> Scaled(x, weight, i, rest) == (None, i)
    ensures rest != [] && i < MAX_VARINT_LEN && rest[0] < 0x80 ==>
      Scaled(x, weight, i, rest)
        == (if i == MAX_VARINT_LEN - 1 && rest[0] > 1 then None else Some(OrShifted(x, weight, rest[0])), i + 1)
  {
  }

  lemma ScaledStep(x: nat, weight: nat, i: nat, rest: bytes)
    requires i < MAX_VARINT_LEN && rest != [] && rest[0] >= 0x80
    ensures Scaled(x, weight, i, rest)
      == Scaled(OrShifted(x, weight, rest[0] - 0x80), weight * 0x80, i + 1, rest[1..])
  {
    var b, v := rest[0] - 0x80, Uvarint(rest[1..], i + 1).0;
    if v.Some? {
      Weigh(weight, b, v.value);
    }
  }

  lemma Weigh(weight: int, b: int, v: int)
    ensures weight * (b + 0x80 * v) == weight * b + (weight * 0x80) * v
  {
    assert weight * (0x80 * v) == (weight * 0x80) * v;
  }
}
