/** Bytes, little-endian words, and byte streams cut into arbitrary pieces. */
module Bytes {

  type byte = bv8

  datatype Option<+T> = None | Some(value: T) {
    function GetOr(default: T): T {
      if Some? then value else default
    }
  }

  const WORD: nat := 0x1_0000_0000

  /** binary.LittleEndian.Uint32. */
  function UintLE(b: seq<byte>): (v: nat)
    requires |b| == 4
    ensures v < WORD
  {
    b[0] as int + 256 * (b[1] as int) + 65536 * (b[2] as int) + 16777216 * (b[3] as int)
  }

  /** binary.LittleEndian.PutUint32. */
  function PutUintLE(v: nat): (b: seq<byte>)
    requires v < WORD
    ensures |b| == 4
  {
    [(v % 256) as byte, (v / 256 % 256) as byte, (v / 65536 % 256) as byte, (v / 16777216 % 256) as byte]
  }

  lemma LittleEndianRoundTrip(v: nat)
    requires v < 0x1_0000_0000
    ensures UintLE(PutUintLE(v)) == v
  {
    ByteRoundTrip(v % 256);
    ByteRoundTrip(v / 256 % 256);
    ByteRoundTrip(v / 65536 % 256);
    ByteRoundTrip(v / 16777216 % 256);
    Digits(v);
  }

  /** The n-th byte, counted up from zero. */
  function Nth(n: nat): (b: byte)
    requires n < 256
    ensures b as int == n
  {
    if n == 0 then 0 else
      var c := Nth(n - 1);
      Successor(c);
      c + 1
  }

  lemma Successor(c: byte)
    requires c != 255
    ensures (c + 1) as int == c as int + 1
  {
  }

  lemma ByteRoundTrip(n: nat)
    requires n < 256
    ensures (n as byte) as int == n
  {
    var b := Nth(n);
    assert (b as int) as byte == b;
  }

  lemma Digits(v: nat)
    requires v < WORD
    ensures v == v % 256 + 256 * (v / 256 % 256) + 65536 * (v / 65536 % 256) + 16777216 * (v / 16777216 % 256)
  {
    assert v / 65536 == v / 256 / 256;
    assert v / 16777216 == v / 65536 / 256;
  }

  /** The handshake's hand-written length: four bytes shifted into place and or-ed together. */
  function ShiftOr(b0: byte, b1: byte, b2: byte, b3: byte): bv32 {
    (b0 as bv32) | ((b1 as bv32) << 8) | ((b2 as bv32) << 16) | ((b3 as bv32) << 24)
  }

  /** The hand-written length and the codec's little-endian decoding agree on all inputs. */
  lemma ShiftOrIsLittleEndian(b0: byte, b1: byte, b2: byte, b3: byte)
    ensures ShiftOr(b0, b1, b2, b3) as int == UintLE([b0, b1, b2, b3])
  {
    ShiftOrValue(b0, b1, b2, b3);
    var b := [b0, b1, b2, b3];
    assert b[0] == b0 && b[1] == b1 && b[2] == b2 && b[3] == b3;
  }

  /** The handshake's length computation, with what it amounts to. */
  function HandLength(lenBuf: seq<byte>): (n: nat)
    requires |lenBuf| == 4
    ensures n == UintLE(lenBuf)
  {
    ShiftOrIsLittleEndian(lenBuf[0], lenBuf[1], lenBuf[2], lenBuf[3]);
    assert [lenBuf[0], lenBuf[1], lenBuf[2], lenBuf[3]] == lenBuf;
    ShiftOr(lenBuf[0], lenBuf[1], lenBuf[2], lenBuf[3]) as nat
  }

  lemma ShiftOrValue(b0: byte, b1: byte, b2: byte, b3: byte)
    ensures ((b0 as bv32) | ((b1 as bv32) << 8) | ((b2 as bv32) << 16) | ((b3 as bv32) << 24)) as int
         == b0 as int + 256 * (b1 as int) + 65536 * (b2 as int) + 16777216 * (b3 as int)
  {
  }

  // ---------- Streams in pieces ----------

  /** The bytes successive reads will find, one piece per read unless the reader's buffer is smaller. */
  type Pieces = seq<seq<byte>>

  predicate NonEmptyPieces(ps: Pieces) {
    forall i | 0 <= i < |ps| :: ps[i] != []
  }

  function Flatten(ps: Pieces): seq<byte> {
    if ps == [] then [] else ps[0] + Flatten(ps[1..])
  }

  /** The pieces left after k bytes. */
  function Consume(ps: Pieces, k: nat): Pieces {
    if ps == [] || k == 0 then ps
    else if k < |ps[0]| then [ps[0][k..]] + ps[1..]
    else Consume(ps[1..], k - |ps[0]|)
  }

  lemma ConsumeNone(ps: Pieces)
    ensures Consume(ps, 0) == ps
  {
  }

  lemma {:induction false} ConsumeFlatten(ps: Pieces, k: nat)
    requires k <= |Flatten(ps)|
    ensures Flatten(Consume(ps, k)) == Flatten(ps)[k..]
    decreases |ps|
  {
    if ps == [] || k == 0 {
    } else if k < |ps[0]| {
      assert ([ps[0][k..]] + ps[1..])[1..] == ps[1..];
    } else {
      ConsumeFlatten(ps[1..], k - |ps[0]|);
    }
  }

  lemma {:induction false} ConsumeConsume(ps: Pieces, a: nat, b: nat)
    requires NonEmptyPieces(ps)
    ensures Consume(Consume(ps, a), b) == Consume(ps, a + b)
    decreases |ps|
  {
    if ps == [] || a == 0 {
    } else if a < |ps[0]| {
      var left := [ps[0][a..]] + ps[1..];
      assert left[1..] == ps[1..];
      if 0 < b < |left[0]| {
        assert ps[0][a..][b..] == ps[0][a + b..];
      }
    } else {
      ConsumeConsume(ps[1..], a - |ps[0]|, b);
    }
  }

  lemma {:induction false} ConsumeNonEmpty(ps: Pieces, k: nat)
    requires NonEmptyPieces(ps)
    ensures NonEmptyPieces(Consume(ps, k))
    decreases |ps|
  {
    if ps != [] && k >= |ps[0]| { ConsumeNonEmpty(ps[1..], k - |ps[0]|); }
  }

  lemma {:induction false} FlattenConcat(ps: Pieces, qs: Pieces)
    ensures Flatten(ps + qs) == Flatten(ps) + Flatten(qs)
    decreases |ps|
  {
    if ps == [] {
      assert ps + qs == qs;
    } else {
      assert (ps + qs)[1..] == ps[1..] + qs;
      FlattenConcat(ps[1..], qs);
    }
  }

  lemma FlattenEmpty(ps: Pieces)
    requires NonEmptyPieces(ps)
    ensures Flatten(ps) == [] <==> ps == []
  {
  }
}
