/** Bytes, fixed-width unsigned integers and big-endian words, as Go's encoding/binary
    lays them out; and the small wrappers and sequence facts the other modules share. */
module Bytes {

  type byte = x: int | 0 <= x < 256
  type uint16 = x: int | 0 <= x < 0x1_0000
  type uint32 = x: int | 0 <= x < 0x1_0000_0000
  type bytes = seq<byte>

  const U16: int := 0x1_0000
  const U32: int := 0x1_0000_0000

  datatype Option<+T> = None | Some(value: T)

  datatype Result<+T, +E> = Success(value: T) | Failure(error: E)

  // Big-endian words

  function PutUint16(v: uint16): (b: bytes)
    ensures |b| == 2
  {
    [v / 0x100, v % 0x100]
  }

  function PutUint32(v: uint32): (b: bytes)
    ensures |b| == 4
  {
    PutUint16(v / U16) + PutUint16(v % U16)
  }

  function Uint16(b: bytes): uint16
    requires |b| == 2
  {
    b[0] as int * 0x100 + b[1]
  }

  function Uint32(b: bytes): uint32
    requires |b| == 4
  {
    Uint16(b[..2]) as int * U16 + Uint16(b[2..])
  }

  lemma Word16(v: uint16, b: bytes)
    requires |b| == 2
    ensures Uint16(PutUint16(v)) == v
    ensures PutUint16(Uint16(b)) == b
  {
  }

  lemma Word32(v: uint32, b: bytes)
    requires |b| == 4
    ensures Uint32(PutUint32(v)) == v
    ensures PutUint32(Uint32(b)) == b
  {
    var high, low := PutUint16(v / U16), PutUint16(v % U16);
    assert (high + low)[..2] == high && (high + low)[2..] == low;
    Word16(v / U16, b[..2]);
    Word16(v % U16, b[2..]);
    Quotient(Uint16(b[..2]), Uint16(b[2..]));
    assert b == b[..2] + b[2..];
  }

  /** What the bytes from `at` on weigh, the first one most. */
  function Weigh32(b: bytes, at: nat): int
    requires at + 4 <= |b|
  {
    b[at] as int * 0x100_0000 + b[at + 1] as int * 0x1_0000 + b[at + 2] as int * 0x100 + b[at + 3]
  }

  function Weigh16(b: bytes, at: nat): int
    requires at + 2 <= |b|
  {
    b[at] as int * 0x100 + b[at + 1]
  }

  /** Words are big-endian, written and read. */
  lemma BigEndian32(v: uint32)
    ensures Weigh32(PutUint32(v), 0) == v
  {
  }

  lemma BigEndian16(v: uint16)
    ensures Weigh16(PutUint16(v), 0) == v
  {
  }

  lemma WeighPart32(b: bytes, at: nat)
    requires at + 4 <= |b|
    ensures Weigh32(b, at) == Weigh32(b[at..at + 4], 0) == Uint32(b[at..at + 4])
  {
  }

  lemma WeighPart16(b: bytes, at: nat)
    requires at + 2 <= |b|
    ensures Weigh16(b, at) == Weigh16(b[at..at + 2], 0) == Uint16(b[at..at + 2])
  {
  }

  lemma WordAt32(b: bytes, at: nat, v: uint32)
    requires at + 4 <= |b| && b[at..at + 4] == PutUint32(v)
    ensures Weigh32(b, at) == v
  {
    hide Weigh32;
    WeighPart32(b, at);
    BigEndian32(v);
  }

  lemma WordAt16(b: bytes, at: nat, v: uint16)
    requires at + 2 <= |b| && b[at..at + 2] == PutUint16(v)
    ensures Weigh16(b, at) == v
  {
    hide Weigh16;
    WeighPart16(b, at);
    BigEndian16(v);
  }

  lemma Quotient(high: uint16, low: uint16)
    ensures (high as int * U16 + low) / U16 == high
    ensures (high as int * U16 + low) % U16 == low
  {
  }

  // Concatenation of a list of byte strings

  function Concat(parts: seq<bytes>): bytes {
    if parts == [] then [] else parts[0] + Concat(parts[1..])
  }

  lemma Assoc<T>(a: seq<T>, b: seq<T>, c: seq<T>)
    ensures (a + b) + c == a + (b + c)
  {
  }

  lemma {:induction false} ConcatAppend(a: seq<bytes>, b: seq<bytes>)
    ensures Concat(a + b) == Concat(a) + Concat(b)
  {
    if a == [] {
      assert a + b == b;
    } else {
      ConcatAppend(a[1..], b);
      assert (a + b)[1..] == a[1..] + b && (a + b)[0] == a[0];
      Assoc(a[0], Concat(a[1..]), Concat(b));
    }
  }

  lemma ConcatSnoc(a: seq<bytes>, x: bytes)
    ensures Concat(a + [x]) == Concat(a) + x
  {
    ConcatAppend(a, [x]);
    assert Concat([x]) == x + Concat([]);
  }

  function Zeros(n: nat): (z: bytes)
    ensures |z| == n
  {
    seq(n, _ => 0)
  }

  function Min(a: int, b: int): int {
    if a < b then a else b
  }

  function Max(a: int, b: int): int {
    if a < b then b else a
  }

  /** copy(out[at:], src) */
  method StoreAt(out: array<byte>, at: nat, src: bytes)
    requires at + |src| <= out.Length
    modifies out
    ensures out[..at] == old(out[..at])
    ensures out[at..at + |src|] == src
    ensures out[at + |src|..] == old(out[at + |src|..])
  {
    for k := 0 to |src|
      invariant out[..at] == old(out[..at])
      invariant out[at..at + k] == src[..k]
      invariant out[at + |src|..] == old(out[at + |src|..])
    {
      out[at + k] := src[k];
    }
  }
}
