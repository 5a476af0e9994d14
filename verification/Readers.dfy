/**
  The byte readers under the codecs: the socket, the two small readers that replay bytes the handshake
  has already taken, io.MultiReader over one of them and the socket, and io.ReadFull.
*/
module Readers {
  import opened Bytes

  /** What one Read reports: nothing wrong, end of stream, or any other error (deadline, closed socket). */
  datatype ReadErr = NoErr | EOF | Failed

  /** What ReadFull reports. */
  datatype FullErr = Complete | CleanEOF | UnexpectedEOF | ReadFailed

  function Min(a: nat, b: nat): nat { if a < b then a else b }

  /** The bytes one Read with room for k bytes gets. */
  function FirstRead(ps: Pieces, k: nat): seq<byte> {
    if ps == [] then [] else ps[0][..Min(k, |ps[0]|)]
  }

  /** One Read into a buffer at off: n bytes of the first piece land there, and they leave the stream. */
  ghost predicate Delivered(before: seq<byte>, after: seq<byte>, off: nat, ps: Pieces, ps': Pieces, n: nat) {
    && off < |before|
    && n == |FirstRead(ps, |before| - off)| <= |before| - off
    && after == before[..off] + FirstRead(ps, |before| - off) + before[off + n..]
    && ps' == Consume(ps, n)
  }

  function OnePiece(b: seq<byte>): Pieces {
    if b == [] then [] else [b]
  }

  lemma CopyDelivers(before: seq<byte>, after: seq<byte>, off: nat, src: seq<byte>, rest: Pieces, n: nat)
    requires off < |before| && src != [] && n == Min(|before| - off, |src|)
    requires after == before[..off] + src[..n] + before[off + n..]
    ensures OnePiece(src) + rest == [src] + rest
    ensures Delivered(before, after, off, [src] + rest, OnePiece(src[n..]) + rest, n)
  {
    assert ([src] + rest)[1..] == rest && Consume(rest, 0) == rest;
  }

  lemma NothingDelivered(before: seq<byte>, off: nat)
    requires off < |before|
    ensures Delivered(before, before, off, [], [], 0)
  {
    assert before == before[..off] + [] + before[off..];
  }

  lemma DeliveredNothing(before: seq<byte>, after: seq<byte>, off: nat, ps': Pieces, n: nat)
    requires Delivered(before, after, off, [], ps', n)
    ensures after == before && ps' == [] && n == 0
  {
  }

  lemma DeliveredConsumes(before: seq<byte>, after: seq<byte>, off: nat, ps: Pieces, ps': Pieces, n: nat)
    requires Delivered(before, after, off, ps, ps', n)
    ensures ps' == Consume(ps, n) && n <= |Flatten(ps)|
  {
  }

  /** A delivery from the front of a stream is a delivery from the whole stream. */
  lemma DeliveredInFront(before: seq<byte>, after: seq<byte>, off: nat, ps: Pieces, ps': Pieces, rest: Pieces, n: nat)
    requires Delivered(before, after, off, ps, ps', n) && ps != [] && n > 0
    ensures Delivered(before, after, off, ps + rest, ps' + rest, n)
  {
    var all := ps + rest;
    assert all[0] == ps[0] && all[1..] == ps[1..] + rest;
    if n < |ps[0]| {
      assert [ps[0][n..]] + all[1..] == ([ps[0][n..]] + ps[1..]) + rest;
    } else {
      assert Consume(all[1..], 0) == all[1..] && Consume(ps[1..], 0) == ps[1..];
    }
  }

  /** A connected socket: the pieces still to be read, how the stream ends, and what has been written. */
  class Conn {
    var chunks: Pieces
    const ending: ReadErr
    var sent: seq<byte>
    var room: nat  // bytes the peer still takes before a write fails

    ghost predicate Valid()
      reads this
    {
      NonEmptyPieces(chunks) && ending != NoErr
    }

    constructor (chunks: Pieces, ending: ReadErr, room: nat)
      requires NonEmptyPieces(chunks) && ending != NoErr
      ensures Valid() && this.chunks == chunks && this.ending == ending && this.room == room && sent == []
    {
      this.chunks := chunks;
      this.ending := ending;
      this.room := room;
      this.sent := [];
    }

    method Read(p: array<byte>, off: nat) returns (n: nat, err: ReadErr)
      requires Valid() && off < p.Length
      modifies this`chunks, p
      ensures Valid()
      ensures Delivered(old(p[..]), p[..], off, old(chunks), chunks, n)
      ensures old(chunks) == [] ==> err == ending
      ensures old(chunks) != [] ==> err == NoErr && n > 0
    {
      ghost var was := p[..];
      if chunks == [] {
        NothingDelivered(was, off);
        return 0, ending;
      }
      var c, rest := chunks[0], chunks[1..];
      n := CopyInto(p, off, c);
      CopyDelivers(was, p[..], off, c, rest, n);
      assert chunks == [c] + rest;
      chunks := OnePiece(c[n..]) + rest;
      err := NoErr;
    }

    /** Sends what the peer still takes; succeeds exactly when that is everything. */
    method Write(data: seq<byte>) returns (ok: bool)
      modifies this`sent, this`room
      ensures ok <==> |data| <= old(room)
      ensures sent == old(sent) + data[..Min(|data|, old(room))]
      ensures room == old(room) - Min(|data|, old(room))
    {
      ok := |data| <= room;
      var n := Min(|data|, room);
      sent := sent + data[..n];
      room := room - n;
    }
  }

  /** Replays a length prefix and a body that have already been taken off the socket. */
  class LengthPrefixedReader {
    const lenBuf: seq<byte>
    const data: seq<byte>
    var pos: nat
    var phase: nat

    constructor (lenBuf: seq<byte>, data: seq<byte>)
      ensures this.lenBuf == lenBuf && this.data == data && pos == 0 && phase == 0
      ensures Left() == OnePiece(lenBuf) + OnePiece(data)
    {
      this.lenBuf := lenBuf;
      this.data := data;
      pos, phase := 0, 0;
    }

    /** What is still to be replayed: the prefix first, then the body. */
    ghost function Left(): Pieces
      reads this
    {
      if phase == 0 then OnePiece(lenBuf[Min(pos, |lenBuf|)..]) + OnePiece(data)
      else OnePiece(data[Min(pos, |data|)..])
    }

    method Read(p: array<byte>, off: nat) returns (n: nat, err: ReadErr)
      requires off < p.Length
      modifies this, p
      ensures Delivered(old(p[..]), p[..], off, old(Left()), Left(), n)
      ensures old(Left()) == [] ==> err == EOF
      ensures old(Left()) != [] ==> err == NoErr && n > 0
    {
      hide Delivered, FirstRead, Consume;
      ghost var was, left := p[..], Left();
      if phase == 0 {
        if pos >= |lenBuf| {
          phase := 1;
          pos := 0;
        } else {
          ghost var src := lenBuf[pos..];
          n := CopyInto(p, off, lenBuf[pos..]);
          CopyDelivers(was, p[..], off, src, OnePiece(data), n);
          pos := pos + n;
          assert lenBuf[pos..] == src[n..];
          return n, NoErr;
        }
      }
      assert Left() == left == OnePiece(data[Min(pos, |data|)..]);
      if pos >= |data| {
        NothingDelivered(was, off);
        return 0, EOF;
      }
      ghost var src := data[pos..];
      n := CopyInto(p, off, data[pos..]);
      CopyDelivers(was, p[..], off, src, [], n);
      assert [src] + [] == left;
      pos := pos + n;
      assert data[pos..] == src[n..];
      assert OnePiece(src[n..]) + [] == Left();
      err := NoErr;
    }
  }

  /** Go's copy into p[off:]. */
  method CopyInto(p: array<byte>, off: nat, src: seq<byte>) returns (n: nat)
    requires off <= p.Length
    modifies p
    ensures n == Min(p.Length - off, |src|)
    ensures p[..] == old(p[..off]) + src[..n] + old(p[off + n..])
  {
    n := Min(p.Length - off, |src|);
    ghost var was := p[..];
    forall i | 0 <= i < n {
      p[off + i] := src[i];
    }
    assert p[..] == was[..off] + src[..n] + was[off + n..];
  }

  /** The reader in front of the socket, if any. */
  datatype Head = NoHead | OneByte(b: byte) | Replay(r: LengthPrefixedReader)

  /** io.MultiReader over a head and the socket; a bare socket is the case without a head. */
  class MultiReader {
    var head: Head
    const conn: Conn

    constructor (head: Head, conn: Conn)
      ensures this.head == head && this.conn == conn
    {
      this.head := head;
      this.conn := conn;
    }

    ghost function Repr(): set<object>
      reads this
    {
      {this, conn} + (if head.Replay? then {head.r} else {})
    }

    ghost predicate Valid()
      reads this, conn
    {
      conn.Valid()
    }

    ghost function HeadPieces(): Pieces
      reads this, if head.Replay? then {head.r} else {}
    {
      match head
      case NoHead => []
      case OneByte(b) => [[b]]
      case Replay(r) => r.Left()
    }

    /** The pieces successive reads will deliver. */
    ghost function Ahead(): (ps: Pieces)
      requires Valid()
      reads this, conn, if head.Replay? then {head.r} else {}
      ensures NonEmptyPieces(ps)
    {
      HeadPieces() + conn.chunks
    }

    /** The head's turn: it delivers from its own pieces, or it is at its end and is dropped. */
    method ReadHead(p: array<byte>, off: nat) returns (n: nat, err: ReadErr)
      requires Valid() && off < p.Length
      modifies Repr() - {conn}, p
      ensures Valid() && Repr() <= old(Repr())
      ensures old(HeadPieces()) != [] ==> err == NoErr && n > 0
      ensures old(HeadPieces()) == [] ==> err == EOF && HeadPieces() == [] && p[..] == old(p[..])
      ensures Delivered(old(p[..]), p[..], off, old(HeadPieces()), HeadPieces(), n)
      ensures !old(head).Replay? ==> head == NoHead
    {
      hide Delivered, FirstRead, Flatten, Consume;
      ghost var was := p[..];
      match head {
        case NoHead =>
          n, err := 0, EOF;
          NothingDelivered(was, off);
        case OneByte(b) =>
          // byteReader: one byte together with EOF, which MultiReader keeps to itself
          n := CopyInto(p, off, [b]);
          err := NoErr;
          CopyDelivers(was, p[..], off, [b], [], n);
          assert [[b]] + [] == [[b]] && OnePiece([b][n..]) + [] == [];
          head := NoHead;
        case Replay(r) =>
          n, err := r.Read(p, off);
          if err == EOF {
            DeliveredNothing(was, p[..], off, HeadPieces(), n);
            head := NoHead;
          }
      }
    }

    method Read(p: array<byte>, off: nat) returns (n: nat, err: ReadErr)
      requires Valid() && off < p.Length
      modifies Repr() - {conn}, conn`chunks, p
      ensures Valid() && Repr() <= old(Repr())
      ensures Delivered(old(p[..]), p[..], off, old(Ahead()), Ahead(), n)
      ensures old(Ahead()) == [] ==> err == conn.ending
      ensures old(Ahead()) != [] ==> err == NoErr && n > 0
      ensures old(HeadPieces()) != [] ==> conn.chunks == old(conn.chunks) && HeadPieces() == Consume(old(HeadPieces()), n)
      ensures !old(head).Replay? ==> head == NoHead
    {
      hide Delivered, FirstRead, Flatten, Consume;
      ghost var was, front, chunks := p[..], HeadPieces(), conn.chunks;
      n, err := ReadHead(p, off);
      if err == EOF {
        assert front + chunks == chunks && [] + chunks == chunks;
        n, err := conn.Read(p, off);
        assert [] + conn.chunks == conn.chunks;
      } else {
        DeliveredInFront(was, p[..], off, front, HeadPieces(), chunks, n);
        DeliveredConsumes(was, p[..], off, front, HeadPieces(), n);
      }
    }
  }

  /** What ReadFull reports when the stream ends before the buffer is full. */
  function ShortErr(got: nat, ending: ReadErr): (e: FullErr)
    ensures e != Complete
  {
    if ending == Failed then ReadFailed else if got == 0 then CleanEOF else UnexpectedEOF
  }

  /** Bytes gathered so far plus one more delivery. */
  lemma Gathered(before: seq<byte>, after: seq<byte>, n: nat, ps: Pieces, ps': Pieces, ps'': Pieces, k: nat)
    requires NonEmptyPieces(ps) && n <= |before| && n <= |Flatten(ps)| && before[..n] == Flatten(ps)[..n]
    requires ps' == Consume(ps, n) && Delivered(before, after, n, ps', ps'', k)
    ensures n + k <= |Flatten(ps)| && n + k <= |before| == |after| && after[..n + k] == Flatten(ps)[..n + k]
    ensures ps'' == Consume(ps, n + k)
    ensures ps' == [] ==> n == |Flatten(ps)| && k == 0
  {
    ConsumeFlatten(ps, n);
    ConsumeConsume(ps, n, k);
    ConsumeNonEmpty(ps, n);
    FlattenEmpty(ps');
    var s, got := Flatten(ps), FirstRead(ps', |before| - n);
    assert got == s[n..][..k];
    assert after[..n + k] == before[..n] + got;
    assert s[..n + k] == s[..n] + s[n..][..k];
  }

  /** A full read of len bytes: it gets exactly the next len bytes, or all there is and an error. */
  ghost predicate Filled(ps: Pieces, ps': Pieces, ending: ReadErr, len: nat, got: seq<byte>, err: FullErr) {
    && |got| == Min(len, |Flatten(ps)|)
    && got == Flatten(ps)[..|got|]
    && ps' == Consume(ps, |got|)
    && err == (if |got| == len then Complete else ShortErr(|got|, ending))
  }

  /** Which error that is: a failing connection's own, the end of the stream if nothing came before it, and an
      unexpected end otherwise. */
  lemma FilledErrors(ps: Pieces, ps': Pieces, ending: ReadErr, len: nat, got: seq<byte>, err: FullErr)
    requires Filled(ps, ps', ending, len, got, err) && ending != NoErr
    ensures err == Complete <==> |Flatten(ps)| >= len
    ensures err == ReadFailed <==> |Flatten(ps)| < len && ending == Failed
    ensures err == CleanEOF <==> |Flatten(ps)| == 0 < len && ending == EOF
    ensures err == UnexpectedEOF <==> 0 < |Flatten(ps)| < len && ending == EOF
  {
  }

  /** Before all of the head has been taken, some of it is left. */
  lemma FrontLeft(front: Pieces, n: nat)
    requires NonEmptyPieces(front) && n < |Flatten(front)|
    ensures Consume(front, n) != []
  {
    ConsumeFlatten(front, n);
  }

  /** However the stream is cut into pieces, what ReadFull gets depends only on its bytes. */
  method ReadFull(r: MultiReader, buf: array<byte>) returns (n: nat, err: FullErr)
    requires r.Valid()
    modifies r.Repr() - {r.conn}, r.conn`chunks, buf
    ensures r.Valid() && r.Repr() <= old(r.Repr())
    ensures n <= buf.Length
    ensures Filled(old(r.Ahead()), r.Ahead(), r.conn.ending, buf.Length, buf[..n], err)
    ensures buf.Length <= |Flatten(old(r.HeadPieces()))| ==>
              r.conn.chunks == old(r.conn.chunks) && r.HeadPieces() == Consume(old(r.HeadPieces()), buf.Length)
    ensures old(r.head) == NoHead ==> r.head == NoHead
  {
    hide Delivered, FirstRead, Consume;
    ghost var ahead, front, chunks := r.Ahead(), r.HeadPieces(), r.conn.chunks;
    ghost var s := Flatten(ahead);
    n := 0;
    var e := NoErr;
    assert Consume(ahead, 0) == ahead && Consume(front, 0) == front by { ConsumeNone(ahead); ConsumeNone(front); }
    while n < buf.Length && e == NoErr
      invariant r.Valid() && r.Repr() <= old(r.Repr())
      invariant n <= buf.Length && n <= |s|
      invariant buf[..n] == s[..n]
      invariant r.Ahead() == Consume(ahead, n)
      invariant e != NoErr ==> n == |s| && e == r.conn.ending && n < buf.Length
      invariant old(r.head) == NoHead ==> r.head == NoHead
      invariant buf.Length <= |Flatten(front)| ==> r.conn.chunks == chunks && r.HeadPieces() == Consume(front, n)
      decreases e == NoErr, buf.Length - n
    {
      ghost var now, before := r.Ahead(), buf[..];
      if buf.Length <= |Flatten(front)| {
        FrontLeft(front, n);
      }
      var k;
      k, e := r.Read(buf, n);
      Gathered(before, buf[..], n, ahead, now, r.Ahead(), k);
      ConsumeConsume(front, n, k);
      n := n + k;
    }
    FlattenConcat(front, chunks);
    err := if n == buf.Length then Complete else ShortErr(n, e);
  }

  /** A full read of len bytes into a buffer of its own. */
  method ReadBuffer(r: MultiReader, len: nat) returns (got: seq<byte>, err: FullErr)
    requires r.Valid()
    modifies r.Repr() - {r.conn}, r.conn`chunks
    ensures r.Valid() && r.Repr() <= old(r.Repr())
    ensures Filled(old(r.Ahead()), r.Ahead(), r.conn.ending, len, got, err) && (err == Complete ==> |got| == len)
    ensures len <= |Flatten(old(r.HeadPieces()))| ==>
              r.conn.chunks == old(r.conn.chunks) && r.HeadPieces() == Consume(old(r.HeadPieces()), len)
    ensures old(r.head) == NoHead ==> r.head == NoHead
  {
    hide Flatten, Consume;
    var buf := new byte[len];
    var n;
    n, err := ReadFull(r, buf);
    got := buf[..n];
  }

  /** ReadFull on the bare socket. */
  method ReadFullSocket(conn: Conn, buf: array<byte>) returns (n: nat, err: FullErr)
    requires conn.Valid()
    modifies conn`chunks, buf
    ensures conn.Valid() && n <= buf.Length
    ensures Filled(old(conn.chunks), conn.chunks, conn.ending, buf.Length, buf[..n], err)
  {
    hide Filled;
    var direct := new MultiReader(NoHead, conn);
    assert direct.Ahead() == [] + conn.chunks == conn.chunks;
    n, err := ReadFull(direct, buf);
    assert direct.Ahead() == [] + conn.chunks == conn.chunks;
  }
}
