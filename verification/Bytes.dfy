// Bytes, fixed-width integers and the big-endian integer encodings that every
// codec of the protocol is built from.
module Bytes {
  type byte = x: int | 0 <= x < 0x100
  type u16 = x: int | 0 <= x < 0x1_0000
  type u32 = x: int | 0 <= x < 0x1_0000_0000
  type u64 = x: int | 0 <= x < 0x1_0000_0000_0000_0000
  type bytes = seq<byte>

  const U32 := 0x1_0000_0000
  const U64 := 0x1_0000_0000_0000_0000

  datatype Option<+T> = None | Some(value: T)

  // The error kinds of aether-core; the message texts are not modelled.
  datatype Error =
    | ProtocolViolation
    | Crypto
    | FlowControl
    | VersionNegotiation
    | StreamClosed
    | InvalidState

  datatype Result<+T> = Ok(value: T) | Err(error: Error)

  function Pow256(n: nat): (p: nat)
    ensures p > 0
  {
    if n == 0 then 1 else 256 * Pow256(n - 1)
  }

  // The n low-order bytes of x, most significant first.
  function Be(x: nat, n: nat): (b: bytes)
    ensures |b| == n
  {
    if n == 0 then [] else Be(x / 256, n - 1) + [x % 256]
  }

  function FromBe(b: bytes): nat
  {
    if |b| == 0 then 0 else FromBe(b[..|b| - 1]) * 256 + b[|b| - 1]
  }

  lemma Pow256Values()
    ensures Pow256(1) == 0x100 && Pow256(2) == 0x1_0000 && Pow256(3) == 0x100_0000
    ensures Pow256(4) == U32 && Pow256(8) == U64
  {
    assert Pow256(2) == 256 * Pow256(1);
    assert Pow256(4) == 256 * Pow256(3);
    assert Pow256(6) == 256 * Pow256(5);
    assert Pow256(8) == 256 * Pow256(7);
  }

  lemma {:induction false} BeRoundTrip(x: nat, n: nat)
    requires x < Pow256(n)
    ensures FromBe(Be(x, n)) == x
  {
    if n > 0 {
      BeRoundTrip(x / 256, n - 1);
      assert Be(x, n)[..n - 1] == Be(x / 256, n - 1);
    }
  }

  lemma {:induction false} FromBeBound(b: bytes)
    ensures FromBe(b) < Pow256(|b|)
  {
    if |b| > 0 {
      FromBeBound(b[..|b| - 1]);
    }
  }

  // The widths the wire format uses.
  lemma BeWidths(x: nat)
    ensures x < 0x100 ==> FromBe(Be(x, 1)) == x
    ensures x < 0x1_0000 ==> FromBe(Be(x, 2)) == x
    ensures x < 0x100_0000 ==> FromBe(Be(x, 3)) == x
    ensures x < U32 ==> FromBe(Be(x, 4)) == x
    ensures x < U64 ==> FromBe(Be(x, 8)) == x
  {
    Pow256Values();
    if x < Pow256(1) { BeRoundTrip(x, 1); }
    if x < Pow256(2) { BeRoundTrip(x, 2); }
    if x < Pow256(3) { BeRoundTrip(x, 3); }
    if x < Pow256(4) { BeRoundTrip(x, 4); }
    if x < Pow256(8) { BeRoundTrip(x, 8); }
  }

  // Reading a big-endian field yields a value of the field's width.
  function ReadU16(b: bytes): (x: u16)
    requires |b| == 2
  {
    FromBeBound(b); Pow256Values(); FromBe(b)
  }

  function ReadU24(b: bytes): (x: nat)
    requires |b| == 3
    ensures x < 0x100_0000
  {
    FromBeBound(b); Pow256Values(); FromBe(b)
  }

  function ReadU32(b: bytes): (x: u32)
    requires |b| == 4
  {
    FromBeBound(b); Pow256Values(); FromBe(b)
  }

  function ReadU64(b: bytes): (x: u64)
    requires |b| == 8
  {
    FromBeBound(b); Pow256Values(); FromBe(b)
  }

  // Writing a field and reading it back.
  lemma FieldU16(x: u16)
    ensures ReadU16(Be(x, 2)) == x
  {
    BeWidths(x);
  }

  lemma FieldU32(x: u32)
    ensures ReadU32(Be(x, 4)) == x
  {
    BeWidths(x);
  }

  lemma FieldU64(x: u64)
    ensures ReadU64(Be(x, 8)) == x
  {
    BeWidths(x);
  }

  // Cutting a concatenation back at the seam.
  lemma Seam(a: bytes, b: bytes)
    ensures (a + b)[..|a|] == a && (a + b)[|a|..] == b
  {
  }

  lemma NothingBefore<T>(s: seq<T>)
    ensures [] + s == s
  {
  }

  lemma Regroup<T>(a: seq<T>, b: seq<T>, c: seq<T>)
    ensures a + b + c == a + (b + c)
  {
  }

  // A growable byte vector that encoders append to through a mutable reference.
  class Buffer {
    var data: bytes

    constructor ()
      ensures data == []
    {
      data := [];
    }

    method Push(b: byte)
      modifies this
      ensures data == old(data) + [b]
    {
      data := data + [b];
    }

    method Extend(more: bytes)
      modifies this
      ensures data == old(data) + more
    {
      data := data + more;
    }
  }
}
