/**
  Streams of length-prefixed frames: what a reader gets from a written list of payloads, or from any part
  of it, and how many bytes that takes.
*/
module FrameStreams {
  import opened Bytes
  import opened Readers
  import opened Framing

  function WriteFrames(ps: seq<seq<byte>>): seq<byte> {
    if ps == [] then [] else WriteFrame(ps[0]) + WriteFrames(ps[1..])
  }

  /** The bodies successive reads return until the first that is not a frame. */
  function ReadFrames(s: seq<byte>, ending: ReadErr): seq<seq<byte>>
    decreases |s|
  {
    var (res, used) := ParseFrame(s, ending);
    if res.Frame? then [res.body] + ReadFrames(s[used..], ending) else []
  }

  predicate Sendable(ps: seq<seq<byte>>) {
    forall i | 0 <= i < |ps| :: |ps[i]| <= MAX_MESSAGE
  }

  lemma CutFrame(p: seq<byte>, rest: seq<byte>, k: nat, ending: ReadErr)
    requires |p| <= MAX_MESSAGE && k < 4 + |p|
    ensures ParseFrame((WriteFrame(p) + rest)[..k], ending).0.Cut?
  {
    hide UintLE, PutUintLE;
    var s := (WriteFrame(p) + rest)[..k];
    if k >= 4 {
      assert s[..4] == PutUintLE(|p| % WORD);
      LittleEndianRoundTrip(|p| % WORD);
    }
  }

  lemma ReadFramesCons(p: seq<byte>, rest: seq<byte>, ending: ReadErr)
    requires |p| <= MAX_MESSAGE
    ensures ReadFrames(WriteFrame(p) + rest, ending) == [p] + ReadFrames(rest, ending)
  {
    hide ParseFrame, WriteFrame;
    FrameRoundTrip(p, rest, ending);
    FrameLength(p);
    assert (WriteFrame(p) + rest)[4 + |p|..] == rest;
  }

  lemma ReadFramesCut(s: seq<byte>, ending: ReadErr)
    requires ParseFrame(s, ending).0.Cut?
    ensures ReadFrames(s, ending) == []
  {
  }

  /** From the first k bytes of a written stream, the reader gets the first m payloads and nothing else,
      m being the number of frames that lie within those k bytes. */
  lemma {:induction false} FrameStream(ps: seq<seq<byte>>, k: nat, ending: ReadErr) returns (m: nat)
    requires Sendable(ps) && k <= |WriteFrames(ps)|
    ensures m <= |ps| && ReadFrames(WriteFrames(ps)[..k], ending) == ps[..m]
    ensures |WriteFrames(ps[..m])| <= k
    ensures m < |ps| ==> k < |WriteFrames(ps[..m + 1])|
    decreases |ps|
  {
    hide ReadFrames, ParseFrame, WriteFrame;
    if ps == [] {
      ReadFramesNil(ending);
      return 0;
    }
    var first, others := WriteFrame(ps[0]), WriteFrames(ps[1..]);
    FrameLength(ps[0]);
    if k < |first| {
      m := 0;
      CutFrame(ps[0], others, k, ending);
      ReadFramesCut((first + others)[..k], ending);
    } else {
      m := FrameStream(ps[1..], k - |first|, ending);
      assert (first + others)[..k] == first + others[..k - |first|];
      ReadFramesCons(ps[0], others[..k - |first|], ending);
      m := m + 1;
      assert ps[..m] == [ps[0]] + ps[1..][..m - 1];
    }
    WriteFramesTake(ps, m);
    if m < |ps| { WriteFramesTake(ps, m + 1); }
  }

  lemma WriteFramesTake(ps: seq<seq<byte>>, m: nat)
    requires 0 < |ps| && m <= |ps|
    ensures WriteFrames(ps[..m]) == if m == 0 then [] else WriteFrame(ps[0]) + WriteFrames(ps[1..][..m - 1])
  {
    if m > 0 { assert ps[..m][1..] == ps[1..][..m - 1]; }
  }

  lemma ReadFramesNil(ending: ReadErr)
    ensures ReadFrames([], ending) == []
  {
  }

  /** However the written stream is cut into pieces on its way, the whole list comes back; and what any
      prefix yields is a prefix of the list, never a wrong frame. */
  lemma FrameStreamRoundTrip(ps: seq<seq<byte>>, pieces: Pieces, ending: ReadErr)
    requires Sendable(ps) && Flatten(pieces) <= WriteFrames(ps)
    ensures ReadFrames(Flatten(pieces), ending) <= ps
    ensures Flatten(pieces) == WriteFrames(ps) ==> ReadFrames(Flatten(pieces), ending) == ps
  {
    hide ReadFrames;
    var k := |Flatten(pieces)|;
    assert Flatten(pieces) == WriteFrames(ps)[..k];
    var m := FrameStream(ps, k, ending);
    if k == |WriteFrames(ps)| && m < |ps| {
      WriteFramesPrefix(ps, m + 1);
    }
  }

  lemma {:induction false} WriteFramesPrefix(ps: seq<seq<byte>>, m: nat)
    requires m <= |ps|
    ensures |WriteFrames(ps[..m])| <= |WriteFrames(ps)|
    decreases m
  {
    if m > 0 {
      assert ps[..m][1..] == ps[1..][..m - 1];
      WriteFramesPrefix(ps[1..], m - 1);
    }
  }

  /** The bodies of the next n frames, and the number of bytes they take. */
  function TakeFrames(s: seq<byte>, n: nat, ending: ReadErr): Option<(seq<seq<byte>>, nat)>
    decreases n
  {
    if n == 0 then Some(([], 0))
    else
      var (res, used) := ParseFrame(s, ending);
      if !res.Frame? then None
      else
        match TakeFrames(s[used..], n - 1, ending)
        case None => None
        case Some((bodies, more)) => Some(([res.body] + bodies, used + more))
  }

  lemma {:induction false} TakeWritten(ps: seq<seq<byte>>, rest: seq<byte>, ending: ReadErr)
    requires Sendable(ps)
    ensures TakeFrames(WriteFrames(ps) + rest, |ps|, ending) == Some((ps, |WriteFrames(ps)|))
    decreases |ps|
  {
    hide ParseFrame, WriteFrame;
    if ps != [] {
      var first, others := WriteFrame(ps[0]), WriteFrames(ps[1..]);
      FrameRoundTrip(ps[0], others + rest, ending);
      FrameLength(ps[0]);
      TakeWritten(ps[1..], rest, ending);
      assert WriteFrames(ps) + rest == first + (others + rest);
      assert (first + (others + rest))[|first|..] == others + rest;
      assert ps == [ps[0]] + ps[1..];
    }
  }

  /** Reading as many frames as were written, off a stream that goes on and however it is cut into pieces,
      gives the payloads and consumes exactly the written bytes. */
  lemma FramesConsumed(ps: seq<seq<byte>>, rest: seq<byte>, pieces: Pieces, ending: ReadErr)
    requires Sendable(ps) && Flatten(pieces) == WriteFrames(ps) + rest
    ensures TakeFrames(Flatten(pieces), |ps|, ending) == Some((ps, |WriteFrames(ps)|))
    ensures Flatten(Consume(pieces, |WriteFrames(ps)|)) == rest
  {
    hide TakeFrames, Consume;
    TakeWritten(ps, rest, ending);
    ConsumeFlatten(pieces, |WriteFrames(ps)|);
  }

  /** What follows the written frames is read as it would be on its own. */
  lemma {:induction false} ReadFramesAppend(ps: seq<seq<byte>>, rest: seq<byte>, ending: ReadErr)
    requires Sendable(ps)
    ensures ReadFrames(WriteFrames(ps) + rest, ending) == ps + ReadFrames(rest, ending)
    decreases |ps|
  {
    hide ParseFrame, WriteFrame, ReadFrames;
    if ps == [] {
      assert WriteFrames(ps) + rest == rest;
    } else {
      var others := WriteFrames(ps[1..]);
      assert WriteFrames(ps) + rest == WriteFrame(ps[0]) + (others + rest);
      ReadFramesCons(ps[0], others + rest, ending);
      ReadFramesAppend(ps[1..], rest, ending);
    }
  }
}
