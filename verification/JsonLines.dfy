/**
  JSON mode: every message is read with a new bufio.Scanner, whose read-ahead is dropped with it.
*/
module JsonLines {
  import opened Bytes
  import opened Readers

  const NEWLINE: byte := 10
  const RETURN: byte := 13

  /** MaxJSONMessageSize, 512 << 10: both the scanner's buffer and its limit for requests. */
  const MAX_JSON: nat := 524288

  /** The index of the first newline, or the length. */
  function LineEnd(b: seq<byte>): (i: nat)
    ensures i <= |b| && NEWLINE !in b[..i]
    ensures i < |b| ==> b[i] == NEWLINE
  {
    if b == [] || b[0] == NEWLINE then 0
    else
      var i := LineEnd(b[1..]);
      assert b[..i + 1] == [b[0]] + b[1..][..i];
      i + 1
  }

  function DropReturn(b: seq<byte>): seq<byte> {
    if b != [] && b[|b| - 1] == RETURN then b[..|b| - 1] else b
  }

  /** Exactly one trailing carriage return is dropped. */
  lemma NoReturnDropped(b: seq<byte>)
    ensures b == [] || b[|b| - 1] != 13 ==> DropReturn(b) == b
    ensures DropReturn(b + [13]) == b
  {
  }

  datatype ScanResult = Line(text: seq<byte>) | NoLine(err: FullErr) | TooLong

  /** Scanner.Scan with ScanLines on a fresh scanner whose buffer has grown to `size` and holds `buf`:
      the token, and what is left for the next reader. Everything read beyond the line is gone. */
  function ScanLine(buf: seq<byte>, size: nat, max: nat, ps: Pieces, ending: ReadErr): (r: (ScanResult, Pieces))
    requires NonEmptyPieces(ps) && |buf| <= size <= max && size > 0
    ensures NonEmptyPieces(r.1)
    ensures |Flatten(r.1)| <= |Flatten(ps)|
    ensures r.0.Line? && buf == [] ==> |Flatten(r.1)| < |Flatten(ps)|
    decreases |Flatten(ps)|, max - size
  {
    var i := LineEnd(buf);
    if i < |buf| then (Line(DropReturn(buf[..i])), ps)
    else if |buf| == size then
      if size >= max then (TooLong, ps) else ScanLine(buf, Min(2 * size, max), max, ps, ending)
    else if ps == [] then
      (if buf != [] then Line(DropReturn(buf)) else NoLine(ShortErr(0, ending)), ps)
    else
      var got := FirstRead(ps, size - |buf|);
      AfterRead(ps, size - |buf|);
      ScanLine(buf + got, size, max, Consume(ps, |got|), ending)
  }

  lemma AfterRead(ps: Pieces, k: nat)
    requires NonEmptyPieces(ps) && ps != [] && k > 0
    ensures var got := FirstRead(ps, k);
      && 0 < |got| <= k && got <= Flatten(ps)
      && NonEmptyPieces(Consume(ps, |got|))
      && Flatten(Consume(ps, |got|)) == Flatten(ps)[|got|..]
  {
    var got := FirstRead(ps, k);
    ConsumeNonEmpty(ps, |got|);
    ConsumeFlatten(ps, |got|);
  }

  // The four ways a round of the scanner can go.

  lemma ScanFound(buf: seq<byte>, size: nat, max: nat, ps: Pieces, ending: ReadErr, i: nat)
    requires NonEmptyPieces(ps) && |buf| <= size <= max && size > 0
    requires i == LineEnd(buf) < |buf|
    ensures ScanLine(buf, size, max, ps, ending) == (Line(DropReturn(buf[..i])), ps)
  {
  }

  lemma ScanFull(buf: seq<byte>, size: nat, max: nat, ps: Pieces, ending: ReadErr)
    requires NonEmptyPieces(ps) && |buf| == size <= max && size > 0
    requires LineEnd(buf) == |buf|
    ensures ScanLine(buf, size, max, ps, ending) ==
      if size >= max then (TooLong, ps) else ScanLine(buf, Min(2 * size, max), max, ps, ending)
  {
  }

  lemma ScanEnded(buf: seq<byte>, size: nat, max: nat, ending: ReadErr)
    requires |buf| < size <= max && LineEnd(buf) == |buf|
    ensures ScanLine(buf, size, max, [], ending) == (if buf != [] then Line(DropReturn(buf)) else NoLine(ShortErr(0, ending)), [])
  {
  }

  lemma ScanMore(buf: seq<byte>, size: nat, max: nat, ps: Pieces, ending: ReadErr, got: seq<byte>)
    requires NonEmptyPieces(ps) && ps != [] && |buf| < size <= max && LineEnd(buf) == |buf|
    requires got == FirstRead(ps, size - |buf|)
    ensures 0 < |got| <= size - |buf| && got <= Flatten(ps)
    ensures NonEmptyPieces(Consume(ps, |got|)) && Flatten(Consume(ps, |got|)) == Flatten(ps)[|got|..]
    ensures ScanLine(buf, size, max, ps, ending) == ScanLine(buf + got, size, max, Consume(ps, |got|), ending)
  {
    AfterRead(ps, size - |buf|);
  }

  /** A delivery to the free end of the buffer, as the scanner sees it. */
  lemma Appended(before: seq<byte>, after: seq<byte>, end: nat, ps: Pieces, ps': Pieces, n: nat)
    requires Delivered(before, after, end, ps, ps', n)
    ensures |after| == |before| && end + n <= |before|
    ensures n == |FirstRead(ps, |before| - end)|
    ensures after[..end + n] == before[..end] + FirstRead(ps, |before| - end)
    ensures ps' == Consume(ps, n)
  {
  }

  /** One read into the free end of the buffer, from a round that has found no newline yet. */
  method ScanRead(r: MultiReader, buf: array<byte>, end: nat, max: nat) returns (n: nat, err: ReadErr)
    requires r.Valid() && end < buf.Length <= max && LineEnd(buf[..end]) == end
    modifies r.Repr() - {r.conn}, r.conn`chunks, buf
    ensures r.Valid() && r.Repr() <= old(r.Repr())
    ensures !old(r.head).Replay? ==> r.head == NoHead
    ensures var goal := ScanLine(old(buf[..end]), buf.Length, max, old(r.Ahead()), r.conn.ending);
      if err == NoErr then
        && 0 < n <= buf.Length - end
        && |Flatten(r.Ahead())| < |Flatten(old(r.Ahead()))|
        && ScanLine(buf[..end + n], buf.Length, max, r.Ahead(), r.conn.ending) == goal
      else
        && err == r.conn.ending && buf[..end] == old(buf[..end])
        && goal == (if end > 0 then Line(DropReturn(buf[..end])) else NoLine(ShortErr(0, err)), r.Ahead())
  {
    hide ScanLine, Delivered, LineEnd, FirstRead, Consume, DropReturn;
    ghost var now, before := r.Ahead(), buf[..];
    assert before[..end] == buf[..end];
    n, err := r.Read(buf, end);
    Appended(before, buf[..], end, now, r.Ahead(), n);
    assert buf[..end + n] == buf[..][..end + n];
    if err == NoErr {
      ScanMore(before[..end], buf.Length, max, now, r.conn.ending, FirstRead(now, buf.Length - end));
    } else {
      ScanEnded(before[..end], buf.Length, max, r.conn.ending);
      EndOfPieces(before, buf[..], end, n);
    }
  }

  /** The scanner in place: an array it reads into and replaces by a larger one when full. */
  method Scan(r: MultiReader, start: nat, max: nat) returns (res: ScanResult)
    requires r.Valid() && 0 < start <= max
    modifies r.Repr() - {r.conn}, r.conn`chunks
    ensures r.Valid() && r.Repr() <= old(r.Repr())
    ensures (res, r.Ahead()) == ScanLine([], start, max, old(r.Ahead()), r.conn.ending)
    ensures !old(r.head).Replay? ==> r.head == NoHead
  {
    hide ScanLine, LineEnd, DropReturn;
    ghost var goal := ScanLine([], start, max, r.Ahead(), r.conn.ending);
    var buf := new byte[start];
    var end: nat := 0;
    assert buf[..end] == [];
    while true
      invariant fresh(buf) && 0 < buf.Length <= max && end <= buf.Length
      invariant r.Valid() && r.Repr() <= old(r.Repr())
      invariant !old(r.head).Replay? ==> !r.head.Replay? && (end > 0 ==> r.head == NoHead)
      invariant ScanLine(buf[..end], buf.Length, max, r.Ahead(), r.conn.ending) == goal
      decreases |Flatten(r.Ahead())|, max - buf.Length
    {
      var i := LineEnd(buf[..end]);
      if i < end {
        ScanFound(buf[..end], buf.Length, max, r.Ahead(), r.conn.ending, i);
        return Line(DropReturn(buf[..end][..i]));
      }
      if end == buf.Length {
        ScanFull(buf[..end], buf.Length, max, r.Ahead(), r.conn.ending);
        if buf.Length >= max {
          return TooLong;
        }
        ghost var held := buf[..end];
        assert held == buf[..];
        buf := Grow(buf, Min(2 * buf.Length, max));
        assert buf[..end] == held;
      } else {
        var n, err := ScanRead(r, buf, end, max);
        if err != NoErr {
          if end > 0 {
            return Line(DropReturn(buf[..end]));
          } else {
            return NoLine(ShortErr(0, err));
          }
        }
        end := end + n;
      }
    }
  }

  method Grow(buf: array<byte>, size: nat) returns (bigger: array<byte>)
    requires buf.Length <= size
    ensures fresh(bigger) && bigger.Length == size && bigger[..buf.Length] == buf[..]
  {
    bigger := new byte[size];
    forall j | 0 <= j < buf.Length {
      bigger[j] := buf[j];
    }
  }

  lemma EndOfPieces(before: seq<byte>, after: seq<byte>, end: nat, n: nat)
    requires end < |before| && |after| == |before| && end + n <= |before|
    requires n == |FirstRead([], |before| - end)|
    requires after[..end + n] == before[..end] + FirstRead([], |before| - end)
    ensures n == 0 && after[..end] == before[..end] && Consume([], n) == []
  {
  }

  // ---------- Which clients JSON mode serves exactly ----------

  /** The lines successive reads return until the first that fails. */
  function ReadLines(ps: Pieces, ending: ReadErr): seq<seq<byte>>
    requires NonEmptyPieces(ps)
    decreases |Flatten(ps)|
  {
    var (res, rest) := ScanLine([], MAX_JSON, MAX_JSON, ps, ending);
    if res.Line? then [res.text] + ReadLines(rest, ending) else []
  }

  function JoinLines(ls: seq<seq<byte>>): seq<byte> {
    if ls == [] then [] else ls[0] + [NEWLINE] + JoinLines(ls[1..])
  }

  /** A newline is always the last byte of its piece: no read returns bytes beyond the end of a line. */
  predicate Aligned(ps: Pieces) {
    forall i | 0 <= i < |ps| :: AlignedPiece(ps[i])
  }

  predicate AlignedPiece(c: seq<byte>) {
    forall j | 0 <= j < |c| && c[j] == NEWLINE :: j == |c| - 1
  }

  predicate EndsLine(s: seq<byte>) {
    s == [] || s[|s| - 1] == NEWLINE
  }

  /** While complete lines are ahead, a read returns no more bytes than it takes off the stream. */
  lemma {:induction false} ScanLineVolume(buf: seq<byte>, size: nat, max: nat, ps: Pieces, ending: ReadErr)
    requires NonEmptyPieces(ps) && |buf| <= size <= max && size > 0
    requires EndsLine(Flatten(ps)) && (NEWLINE in buf || Flatten(ps) != [])
    ensures var (res, rest) := ScanLine(buf, size, max, ps, ending);
      EndsLine(Flatten(rest)) && (res.Line? ==> |res.text| + 1 <= |buf| + |Flatten(ps)| - |Flatten(rest)|)
    decreases |Flatten(ps)|, max - size
  {
    hide ScanLine, LineEnd, DropReturn, FirstRead, Consume;
    var i := LineEnd(buf);
    if i < |buf| {
      ScanFound(buf, size, max, ps, ending, i);
      DropReturnShortens(buf[..i]);
      return;
    }
    assert buf[..i] == buf;
    if |buf| == size {
      ScanFull(buf, size, max, ps, ending);
      if size < max { ScanLineVolume(buf, Min(2 * size, max), max, ps, ending); }
      return;
    }
    assert ps != [];
    var got := FirstRead(ps, size - |buf|);
    ScanMore(buf, size, max, ps, ending, got);
    var s := Flatten(ps);
    if |s| == |got| {
      assert (buf + got)[|buf| + |got| - 1] == s[|s| - 1] == NEWLINE;
    } else {
      assert s[|got|..][|s| - |got| - 1] == s[|s| - 1];
    }
    ScanLineVolume(buf + got, size, max, Consume(ps, |got|), ending);
  }

  lemma DropReturnShortens(b: seq<byte>)
    ensures |DropReturn(b)| <= |b|
  {
  }

  lemma {:induction false} ReadLinesVolume(ps: Pieces, ending: ReadErr)
    requires NonEmptyPieces(ps) && EndsLine(Flatten(ps))
    ensures |JoinLines(ReadLines(ps, ending))| <= |Flatten(ps)|
    decreases |Flatten(ps)|
  {
    FlattenEmpty(ps);
    if ps != [] {
      ScanLineVolume([], MAX_JSON, MAX_JSON, ps, ending);
      var (res, rest) := ScanLine([], MAX_JSON, MAX_JSON, ps, ending);
      if res.Line? {
        ReadLinesVolume(rest, ending);
        assert ([res.text] + ReadLines(rest, ending))[1..] == ReadLines(rest, ending);
      }
    }
  }

  lemma Outside(b: seq<byte>, k: nat)
    requires k <= |b| && NEWLINE !in b[..k]
    ensures forall j | 0 <= j < k :: b[j] != NEWLINE
  {
    forall j | 0 <= j < k ensures b[j] != NEWLINE {
      assert b[..k][j] == b[j] && b[..k][j] in b[..k];
    }
  }

  lemma AlignedConsume(ps: Pieces, k: nat)
    requires NonEmptyPieces(ps) && ps != [] && k <= |ps[0]| && NEWLINE !in ps[0][..k]
    ensures Aligned(Consume(ps, k)) <==> Aligned(ps)
  {
    if 0 < k < |ps[0]| {
      var cut := [ps[0][k..]] + ps[1..];
      assert AlignedPiece(ps[0]) <==> AlignedPiece(cut[0]) by {
        Outside(ps[0], k);
        assert forall j | k <= j < |ps[0]| :: cut[0][j - k] == ps[0][j];
      }
      assert forall i | 0 < i < |ps| :: cut[i] == ps[i];
    } else if k == |ps[0]| {
      assert ps[0][..k] == ps[0];
      assert Consume(ps[1..], 0) == ps[1..];
      assert forall i | 0 < i < |ps| :: ps[1..][i - 1] == ps[i];
      assert forall i | 0 <= i < |ps[1..]| :: ps[1..][i] == ps[i + 1];
    }
  }

  /** The read that reaches the newline at index i of the first piece. */
  lemma NewlineRead(ps: Pieces, k: nat, i: nat)
    requires NonEmptyPieces(ps) && ps != [] && i < |ps[0]| && i < k
    requires ps[0][i] == NEWLINE && NEWLINE !in ps[0][..i]
    ensures var rest := Consume(ps, |FirstRead(ps, k)|);
      && (Aligned(ps) ==> Flatten(rest) == Flatten(ps)[i + 1..] && Aligned(rest))
      && (!Aligned(ps) && i + 1 < k ==>
            |Flatten(rest)| < |Flatten(ps)| - (i + 1) || (Flatten(rest) == Flatten(ps)[i + 1..] && !Aligned(rest)))
  {
    AfterRead(ps, k);
    var c := ps[0];
    if i == |c| - 1 {
      Outside(c, i);
      assert AlignedPiece(c);
      assert Consume(ps, |c|) == ps[1..];
      assert forall n | 0 < n < |ps| :: ps[1..][n - 1] == ps[n];
      assert forall n | 0 <= n < |ps[1..]| :: ps[1..][n] == ps[n + 1];
    } else {
      assert !AlignedPiece(c);
    }
  }

  /** One complete line within the limit is returned as it was sent.  What follows it is untouched if the
      pieces are aligned; otherwise bytes of it are lost, or the misalignment is still ahead. */
  lemma {:induction false} ScanOneLine(buf: seq<byte>, l: seq<byte>, tail: seq<byte>, ps: Pieces, ending: ReadErr)
    requires NonEmptyPieces(ps) && NEWLINE !in l && |l| + 1 <= MAX_JSON && |buf| <= |l|
    requires buf + Flatten(ps) == l + [NEWLINE] + tail
    ensures var (res, rest) := ScanLine(buf, MAX_JSON, MAX_JSON, ps, ending);
      && res == Line(DropReturn(l))
      && (Aligned(ps) ==> Flatten(rest) == tail && Aligned(rest))
      && (!Aligned(ps) && |l| + 2 <= MAX_JSON ==> |Flatten(rest)| < |tail| || (Flatten(rest) == tail && !Aligned(rest)))
    decreases |Flatten(ps)|
  {
    hide ScanLine, Aligned, LineEnd, DropReturn;
    var s := Flatten(ps);
    assert buf == (l + [NEWLINE] + tail)[..|buf|] == l[..|buf|];
    assert s == (l + [NEWLINE] + tail)[|buf|..];
    NoLineEnd(buf);
    FlattenEmpty(ps);
    var got := FirstRead(ps, MAX_JSON - |buf|);
    ScanMore(buf, MAX_JSON, MAX_JSON, ps, ending, got);
    if |got| <= |l| - |buf| {
      LineGoesOn(buf, l, tail, ps, got);
      ScanOneLine(buf + got, l, tail, Consume(ps, |got|), ending);
    } else {
      LineEndsHere(buf, l, tail, ps, MAX_JSON - |buf|, got);
      ScanFound(buf + got, MAX_JSON, MAX_JSON, Consume(ps, |got|), ending, |l|);
    }
  }

  /** For a buffer of any size below its limit, growing as it fills: an aligned line that leaves room for its
      newline is returned as sent, and what follows is untouched. */
  lemma {:induction false} ScanAlignedLine(buf: seq<byte>, size: nat, max: nat, l: seq<byte>, tail: seq<byte>, ps: Pieces,
                                           ending: ReadErr)
    requires NonEmptyPieces(ps) && Aligned(ps) && NEWLINE !in l && |l| + 1 <= max && |buf| <= |l|
    requires 0 < size <= max && |buf| <= size && buf + Flatten(ps) == l + [NEWLINE] + tail
    ensures var (res, rest) := ScanLine(buf, size, max, ps, ending);
      res == Line(DropReturn(l)) && Flatten(rest) == tail && Aligned(rest)
    decreases |Flatten(ps)|, max - size
  {
    hide ScanLine, Aligned, LineEnd, DropReturn;
    assert buf == (l + [NEWLINE] + tail)[..|buf|] == l[..|buf|];
    NoLineEnd(buf);
    if |buf| == size {
      ScanFull(buf, size, max, ps, ending);
      ScanAlignedLine(buf, Min(2 * size, max), max, l, tail, ps, ending);
      return;
    }
    FlattenEmpty(ps);
    var got := FirstRead(ps, size - |buf|);
    ScanMore(buf, size, max, ps, ending, got);
    if |got| <= |l| - |buf| {
      LineGoesOn(buf, l, tail, ps, got);
      ScanAlignedLine(buf + got, size, max, l, tail, Consume(ps, |got|), ending);
    } else {
      LineEndsHere(buf, l, tail, ps, size - |buf|, got);
      ScanFound(buf + got, size, max, Consume(ps, |got|), ending, |l|);
    }
  }

  /** A last line without a newline is returned all the same, whatever ends the stream; with no bytes left, the
      reader is told how it ended. */
  lemma {:induction false} ScanLastLine(buf: seq<byte>, size: nat, max: nat, ps: Pieces, ending: ReadErr)
    requires NonEmptyPieces(ps) && |buf| <= size <= max && size > 0 && ending != NoErr
    requires 10 !in buf + Flatten(ps) && |buf + Flatten(ps)| < max
    ensures var all := buf + Flatten(ps);
      ScanLine(buf, size, max, ps, ending) ==
        (if all != [] then Line(DropReturn(all)) else NoLine(if ending == EOF then CleanEOF else ReadFailed), [])
    decreases |Flatten(ps)|, max - size
  {
    hide ScanLine, LineEnd, DropReturn;
    var all := buf + Flatten(ps);
    assert forall b | b in buf :: b in all;
    NoLineEnd(buf);
    FlattenEmpty(ps);
    if |buf| == size {
      ScanFull(buf, size, max, ps, ending);
      ScanLastLine(buf, Min(2 * size, max), max, ps, ending);
    } else if ps == [] {
      ScanEnded(buf, size, max, ending);
      assert all == buf;
    } else {
      var got := FirstRead(ps, size - |buf|);
      ScanMore(buf, size, max, ps, ending, got);
      assert (buf + got) + Flatten(ps)[|got|..] == all;
      ScanLastLine(buf + got, size, max, Consume(ps, |got|), ending);
    }
  }

  lemma LineGoesOn(buf: seq<byte>, l: seq<byte>, tail: seq<byte>, ps: Pieces, got: seq<byte>)
    requires NonEmptyPieces(ps) && ps != [] && NEWLINE !in l
    requires buf + Flatten(ps) == l + [NEWLINE] + tail
    requires |buf| + |got| <= |l| && got <= ps[0]
    ensures (buf + got) + Flatten(ps)[|got|..] == l + [NEWLINE] + tail
    ensures Aligned(Consume(ps, |got|)) <==> Aligned(ps)
  {
    hide Aligned, Consume;
    var s, all := Flatten(ps), l + [NEWLINE] + tail;
    assert got == s[..|got|];
    assert got == all[|buf|..][..|got|] == l[|buf|..|buf| + |got|];
    assert ps[0][..|got|] == got;
    AlignedConsume(ps, |got|);
  }

  /** A read with room for k bytes that reaches the end of the line. */
  lemma LineEndsHere(buf: seq<byte>, l: seq<byte>, tail: seq<byte>, ps: Pieces, k: nat, got: seq<byte>)
    requires NonEmptyPieces(ps) && ps != [] && NEWLINE !in l && |buf| <= |l|
    requires buf + Flatten(ps) == l + [NEWLINE] + tail
    requires got == FirstRead(ps, k) && |buf| + |got| > |l|
    ensures LineEnd(buf + got) == |l| < |buf + got| && (buf + got)[..|l|] == l
    ensures var rest := Consume(ps, |got|);
      && (Aligned(ps) ==> Flatten(rest) == tail && Aligned(rest))
      && (!Aligned(ps) && |l| + 2 <= |buf| + k ==> |Flatten(rest)| < |tail| || (Flatten(rest) == tail && !Aligned(rest)))
  {
    hide Aligned, Consume, LineEnd;
    var s, all, i := Flatten(ps), l + [NEWLINE] + tail, |l| - |buf|;
    assert got == ps[0][..|got|] && got == s[..|got|];
    assert s == all[|buf|..];
    assert s[i] == all[|l|] == NEWLINE && s[..i] == l[|buf|..] && s[i + 1..] == tail;
    assert got[i] == s[i] && ps[0][i] == got[i];
    assert ps[0][..i] == got[..i] == s[..i];
    NewlineRead(ps, k, i);
    assert buf + got == all[..|buf| + |got|];
    assert l + [NEWLINE] <= buf + got;
    FoundLine(buf + got, l);
  }

  lemma NoLineEnd(b: seq<byte>)
    requires NEWLINE !in b
    ensures LineEnd(b) == |b|
  {
  }

  lemma FoundLine(b: seq<byte>, l: seq<byte>)
    requires l + [NEWLINE] <= b && NEWLINE !in l
    ensures LineEnd(b) == |l| && b[..|l|] == l
  {
    var i := LineEnd(b);
    assert b[|l|] == NEWLINE && b[..|l|] == l;
    Outside(b, |l|);
    Outside(b, i);
  }

  predicate EndsPlain(l: seq<byte>) {
    l == [] || l[|l| - 1] != 13
  }

  /** What a JSON client sends: no raw newline inside a message, no carriage return at its end, and room
      for the message and its newline in the scanner's buffer. */
  predicate Messages(ls: seq<seq<byte>>) {
    forall i | 0 <= i < |ls| :: 10 !in ls[i] && EndsPlain(ls[i]) && |ls[i]| + 1 <= 524288
  }

  lemma {:induction false} JoinLinesEnds(ls: seq<seq<byte>>)
    ensures EndsLine(JoinLines(ls))
    decreases |ls|
  {
    if ls != [] { JoinLinesEnds(ls[1..]); }
  }

  /** Messages that leave a byte of the buffer free, so that a read can overshoot their newline. */
  predicate Roomy(ls: seq<seq<byte>>) {
    forall i | 0 <= i < |ls| :: |ls[i]| + 2 <= 524288
  }

  /** However the messages are cut into pieces, JSON mode delivers exactly them if and only if no piece
      continues past a newline; a client that pipelines into one piece loses bytes. */
  lemma {:induction false} JsonDeliveryIffAligned(ls: seq<seq<byte>>, ps: Pieces, ending: ReadErr)
    requires NonEmptyPieces(ps) && Messages(ls) && Flatten(ps) == JoinLines(ls)
    ensures Aligned(ps) ==> ReadLines(ps, ending) == ls
    ensures Roomy(ls) ==> (ReadLines(ps, ending) == ls <==> Aligned(ps))
    decreases |ls|
  {
    hide ScanLine, Aligned, DropReturn;
    FlattenEmpty(ps);
    if ls != [] {
      NoReturnDropped(ls[0]);
      var (res, rest) := ScanLine([], MAX_JSON, MAX_JSON, ps, ending);
      var tail := JoinLines(ls[1..]);
      ScanOneLine([], ls[0], tail, ps, ending);
      var got := ReadLines(rest, ending);
      assert ([res.text] + got)[1..] == got;
      assert ls == [ls[0]] + ls[1..];
      assert ReadLines(ps, ending) == ls <==> got == ls[1..];
      if Flatten(rest) == tail {
        JsonDeliveryIffAligned(ls[1..], rest, ending);
      } else {
        JoinLinesEnds(ls);
        ScanLineVolume([], MAX_JSON, MAX_JSON, ps, ending);
        ReadLinesVolume(rest, ending);
      }
    } else {
      NothingSent(ending);
    }
  }

  lemma NothingSent(ending: ReadErr)
    ensures Aligned([]) && ReadLines([], ending) == []
  {
  }

  /** A message of MAX_JSON bytes or more is refused, however it arrives. */
  lemma {:induction false} OversizedLine(buf: seq<byte>, ps: Pieces, ending: ReadErr)
    requires NonEmptyPieces(ps) && |buf| <= 524288 <= |buf + Flatten(ps)|
    requires 10 !in (buf + Flatten(ps))[..524288]
    ensures ScanLine(buf, MAX_JSON, MAX_JSON, ps, ending).0 == TooLong
    decreases |Flatten(ps)|
  {
    hide ScanLine, LineEnd;
    var all := buf + Flatten(ps);
    Outside(all, MAX_JSON);
    assert buf == all[..|buf|];
    NoLineEnd(buf);
    if |buf| == MAX_JSON {
      ScanFull(buf, MAX_JSON, MAX_JSON, ps, ending);
    } else {
      var got := FirstRead(ps, MAX_JSON - |buf|);
      ScanMore(buf, MAX_JSON, MAX_JSON, ps, ending, got);
      assert (buf + got) + Flatten(ps)[|got|..] == all;
      OversizedLine(buf + got, Consume(ps, |got|), ending);
    }
  }

  function Concat(cs: seq<Pieces>): Pieces {
    if cs == [] then [] else cs[0] + Concat(cs[1..])
  }

  /** A client that sends nothing of message k+1 before it has the answer to message k: every piece holds
      bytes of one message only. */
  predicate LockStep(cs: seq<Pieces>, ls: seq<seq<byte>>) {
    && |cs| == |ls|
    && forall i | 0 <= i < |cs| :: NonEmptyPieces(cs[i]) && Flatten(cs[i]) == ls[i] + [NEWLINE]
  }

  lemma {:induction false} LockStepAligned(ps: Pieces, l: seq<byte>)
    requires NonEmptyPieces(ps) && NEWLINE !in l && Flatten(ps) == l + [NEWLINE]
    ensures Aligned(ps)
    decreases |ps|
  {
    var c, s := ps[0], Flatten(ps);
    assert c == s[..|c|];
    assert s[..|l|] == l;
    Outside(s, |l|);
    assert AlignedPiece(c);
    if |ps| > 1 {
      FlattenEmpty(ps[1..]);
      assert Flatten(ps[1..]) == s[|c|..] == l[|c|..] + [NEWLINE];
      LockStepAligned(ps[1..], l[|c|..]);
      assert forall i | 0 < i < |ps| :: ps[i] == ps[1..][i - 1];
    }
  }

  /** Lock-step clients are served exactly, whatever the pieces. */
  lemma {:induction false} LockStepDelivery(cs: seq<Pieces>, ls: seq<seq<byte>>, ending: ReadErr)
    requires Messages(ls) && LockStep(cs, ls)
    ensures NonEmptyPieces(Concat(cs)) && ReadLines(Concat(cs), ending) == ls
  {
    LockStepConcat(cs, ls);
    JsonDeliveryIffAligned(ls, Concat(cs), ending);
  }

  lemma {:induction false} LockStepConcat(cs: seq<Pieces>, ls: seq<seq<byte>>)
    requires Messages(ls) && LockStep(cs, ls)
    ensures NonEmptyPieces(Concat(cs)) && Aligned(Concat(cs)) && Flatten(Concat(cs)) == JoinLines(ls)
    decreases |cs|
  {
    if cs != [] {
      LockStepAligned(cs[0], ls[0]);
      LockStepConcat(cs[1..], ls[1..]);
      FlattenConcat(cs[0], Concat(cs[1..]));
    }
  }
}
