/**
 The incremental stream decoder and the server's read loop (FrameStreamDecoder,
 src/transport/frame.cpp:404-460; src/transport/server.cpp:113-131).
 */
module FrameStream {
  import opened Bits
  import opened Frames

  // ---- Draining ----

  /** `failed` is sticky: a stream that went wrong is never resynchronised. */
  datatype Drained = Drained(frames: seq<Frame>, rest: Bytes, failed: bool)

  function Drain(data: Bytes, format: Format): (d: Drained)
    decreases |data|
  {
    match Decode(data, format)
    case Incomplete => Drained([], data, false)
    case Complete(frame, consumed) =>
      CompleteConsumes(data, format);
      var more := Drain(data[consumed..], format);
      Drained([frame] + more.frames, more.rest, more.failed)
    case _ => Drained([], data, true)
  }

  /** What draining leaves is a proper part of one frame. */
  lemma {:induction false} DrainRest(data: Bytes, format: Format)
    requires !Drain(data, format).failed
    ensures Decode(Drain(data, format).rest, format).Incomplete?
    decreases |data|
  {
    if Decode(data, format).Complete? {
      CompleteConsumes(data, format);
      DrainRest(data[Decode(data, format).consumed..], format);
    }
  }

  /** A frame in front of a drained stream. */
  function Ahead(frame: Frame, d: Drained): (longer: Drained) {
    Drained([frame] + d.frames, d.rest, d.failed)
  }

  /** A drained stream followed by what draining its rest gives. */
  function Followed(first: Drained, second: Drained): (whole: Drained) {
    Drained(first.frames + second.frames, second.rest, second.failed)
  }

  lemma FollowedAhead(frame: Frame, first: Drained, second: Drained)
    ensures Followed(Ahead(frame, first), second) == Ahead(frame, Followed(first, second))
  {
    assert [frame] + (first.frames + second.frames) == ([frame] + first.frames) + second.frames;
  }

  lemma DrainTurn(data: Bytes, format: Format)
    requires Decode(data, format).Complete?
    ensures 0 < Decode(data, format).consumed <= |data|
    ensures Drain(data, format) ==
            Ahead(Decode(data, format).frame, Drain(data[Decode(data, format).consumed..], format))
  {
    CompleteConsumes(data, format);
  }

  lemma DrainTurnMore(data: Bytes, more: Bytes, format: Format)
    requires Decode(data, format).Complete?
    ensures 0 < Decode(data, format).consumed <= |data|
    ensures Drain(data + more, format) ==
            Ahead(Decode(data, format).frame, Drain(data[Decode(data, format).consumed..] + more, format))
  {
    CompleteConsumes(data, format);
    DecodeStable(data, more, format);
    DrainTurn(data + more, format);
    var consumed := Decode(data, format).consumed;
    assert (data + more)[consumed..] == data[consumed..] + more;
  }

  lemma DrainStopped(data: Bytes, more: Bytes, format: Format)
    requires !Decode(data, format).Complete?
    ensures !Drain(data, format).failed ==> Drain(data, format) == Drained([], data, false)
    ensures Drain(data, format).failed ==>
              Drain(data, format).frames == [] && Drain(data + more, format).failed &&
                Drain(data + more, format).frames == []
  {
    if !Decode(data, format).Incomplete? {
      DecodeStable(data, more, format);
    }
  }

  /** Draining early changes nothing: the rest drains as if it had never been split off. */
  lemma {:induction false} DrainAppend(data: Bytes, more: Bytes, format: Format)
    ensures !Drain(data, format).failed ==>
              Drain(data + more, format) == Followed(Drain(data, format),
                                                     Drain(Drain(data, format).rest + more, format))
    ensures Drain(data, format).failed ==>
              Drain(data + more, format).failed && Drain(data + more, format).frames == Drain(data, format).frames
    decreases |data|
  {
    if Decode(data, format).Complete? {
      var frame, consumed := Decode(data, format).frame, Decode(data, format).consumed;
      DrainTurn(data, format);
      DrainTurnMore(data, more, format);
      DrainAppend(data[consumed..], more, format);
      var first := Drain(data[consumed..], format);
      FollowedAhead(frame, first, Drain(first.rest + more, format));
    } else {
      DrainStopped(data, more, format);
      FollowedNone(data, Drain(data + more, format));
    }
  }

  lemma FollowedNone(data: Bytes, second: Drained)
    ensures Followed(Drained([], data, false), second) == second
  {
    assert [] + second.frames == second.frames;
  }

  // ---- Chunks ----

  function Concat(chunks: seq<Bytes>): (data: Bytes) {
    if chunks == [] then [] else Concat(chunks[..|chunks| - 1]) + chunks[|chunks| - 1]
  }

  /** Feeding a chunk and draining, over and over. */
  function Received(chunks: seq<Bytes>, format: Format): (d: Drained) {
    if chunks == [] then Drained([], [], false)
    else
      var before := Received(chunks[..|chunks| - 1], format);
      if before.failed then before
      else
        var d := Drain(before.rest + chunks[|chunks| - 1], format);
        Drained(before.frames + d.frames, d.rest, d.failed)
  }

  /** How a stream is cut into chunks never matters, for any stream of bytes. */
  lemma {:induction false} ChunkingIndependent(chunks: seq<Bytes>, format: Format)
    ensures Received(chunks, format).frames == Drain(Concat(chunks), format).frames
    ensures Received(chunks, format).failed == Drain(Concat(chunks), format).failed
    ensures !Received(chunks, format).failed ==> Received(chunks, format).rest == Drain(Concat(chunks), format).rest
  {
    if chunks != [] {
      var n := |chunks| - 1;
      ChunkingIndependent(chunks[..n], format);
      DrainAppend(Concat(chunks[..n]), chunks[n], format);
    }
  }

  function Stream(frames: seq<Frame>, format: Format): (data: Bytes)
    requires forall i :: 0 <= i < |frames| ==> Sendable(frames[i], format)
  {
    if frames == [] then []
    else
      assert Sendable(frames[0], format);
      Encode(frames[0], format) + Stream(frames[1..], format)
  }

  function SealedFrames(frames: seq<Frame>, format: Format): (sealed: seq<Frame>)
    requires forall i :: 0 <= i < |frames| ==> Sendable(frames[i], format)
    ensures |sealed| == |frames|
  {
    if frames == [] then []
    else
      assert Sendable(frames[0], format);
      [Sealed(frames[0], format)] + SealedFrames(frames[1..], format)
  }

  lemma DrainFirst(f: Frame, rest: Bytes, format: Format)
    requires Sendable(f, format)
    ensures Drain(Encode(f, format) + rest, format)
         == Drained([Sealed(f, format)] + Drain(rest, format).frames, Drain(rest, format).rest,
                    Drain(rest, format).failed)
  {
    var first := Encode(f, format);
    DecodeEncoded(f, rest, format);
    assert (first + rest)[|first|..] == rest;
  }

  lemma {:induction false} StreamDrains(frames: seq<Frame>, format: Format)
    requires forall i :: 0 <= i < |frames| ==> Sendable(frames[i], format)
    ensures Drain(Stream(frames, format), format) == Drained(SealedFrames(frames, format), [], false)
  {
    if frames != [] {
      assert Sendable(frames[0], format);
      DrainFirst(frames[0], Stream(frames[1..], format), format);
      StreamDrains(frames[1..], format);
    }
  }

  /** A stream of valid frames, in any chunks, yields exactly those frames in order. */
  lemma FramesArrive(frames: seq<Frame>, chunks: seq<Bytes>, format: Format)
    requires forall i :: 0 <= i < |frames| ==> Sendable(frames[i], format)
    requires Concat(chunks) == Stream(frames, format)
    ensures Received(chunks, format) == Drained(SealedFrames(frames, format), [], false)
  {
    ChunkingIndependent(chunks, format);
    StreamDrains(frames, format);
  }

  /** At every moment, what has arrived is the beginning of what will arrive. */
  lemma ArrivalInOrder(part: Bytes, rest: Bytes, format: Format)
    ensures Drain(part, format).frames <= Drain(part + rest, format).frames
  {
    DrainAppend(part, rest, format);
  }

  // ---- The decoder object ----

  const MAX_CHUNK_BYTES: nat := 0x1_0000

  /** How much the server reads at once. */
  function ChunkBytes(format: Format): (bytes: nat) {
    Larger(Smaller(LongestFrame(format), MAX_CHUNK_BYTES), HEADER_BYTES + TRAILER_BYTES)
  }

  function Larger(a: nat, b: nat): (m: nat) {
    if a < b then b else a
  }

  function Smaller(a: nat, b: nat): (m: nat) {
    if a < b then a else b
  }

  class FrameStreamDecoder {
    const format: Format
    var buffer: Bytes
    var sticky: bool
    var status: Decoded

    constructor (format: Format)
      ensures this.format == format && buffer == [] && !sticky
    {
      this.format := format;
      buffer, sticky, status := [], false, Incomplete;
    }

    /** The buffer is bounded by two longest frames; a chunk is taken whole or not at all. */
    method Feed(data: Bytes) returns (ok: bool)
      modifies this`buffer
      ensures ok <==> !sticky && (data == [] || |old(buffer)| + |data| <= 2 * LongestFrame(format))
      ensures buffer == if ok then old(buffer) + data else old(buffer)
    {
      if sticky {
        return false;
      }
      if data == [] {
        return true;
      }
      var capacity := 2 * LongestFrame(format);
      if |buffer| > capacity || |data| > capacity - |buffer| {
        return false;
      }
      buffer := buffer + data;
      ok := true;
    }

    method Next() returns (d: Decoded)
      modifies this
      ensures old(sticky) ==> d == old(status) && sticky && buffer == old(buffer) && status == old(status)
      ensures !old(sticky) ==> d == Decode(old(buffer), format) && sticky == (d.Corrupt? || d.Unsupported?)
      ensures !old(sticky) ==> buffer == if d.Complete? then old(buffer)[d.consumed..] else old(buffer)
    {
      if sticky {
        return status;
      }
      d := Decode(buffer, format);
      if d.Complete? {
        buffer := buffer[d.consumed..];
      } else if d.Corrupt? || d.Unsupported? {
        sticky, status := true, d;
      }
    }

    /** Takes every frame that has fully arrived. */
    method TakeAll() returns (frames: seq<Frame>)
      requires !sticky
      modifies this
      ensures frames == Drain(old(buffer), format).frames && sticky == Drain(old(buffer), format).failed
      ensures !sticky ==> buffer == Drain(old(buffer), format).rest
    {
      frames := [];
      ghost var all := Drain(buffer, format);
      var more := true;
      while more
        invariant more ==> !sticky && all == After(frames, Drain(buffer, format))
        invariant !more ==> all.frames == frames && all.failed == sticky && (!sticky ==> all.rest == buffer)
        decreases more, |buffer|
      {
        ghost var before := buffer;
        var d := Next();
        if d.Complete? {
          CompleteConsumes(before, format);
          AfterFrame(frames, before, format);
          frames := frames + [d.frame];
        } else {
          more := false;
        }
      }
    }
  }

  /** Frames already taken, in front of what is still to be drained. */
  function After(frames: seq<Frame>, d: Drained): (all: Drained) {
    Drained(frames + d.frames, d.rest, d.failed)
  }

  lemma AfterFrame(frames: seq<Frame>, data: Bytes, format: Format)
    requires Decode(data, format).Complete?
    ensures var d := Decode(data, format);
            && d.consumed <= |data|
            && After(frames, Drain(data, format)) == After(frames + [d.frame], Drain(data[d.consumed..], format))
  {
    CompleteConsumes(data, format);
    var d := Decode(data, format);
    var more := Drain(data[d.consumed..], format);
    assert frames + ([d.frame] + more.frames) == (frames + [d.frame]) + more.frames;
  }

  /**
   The server's loop: read only when nothing complete is buffered, feed, and take what arrived.
   No chunk of the transport's size is ever refused for want of buffer space.
   */
  method Serve(chunks: seq<Bytes>, format: Format) returns (frames: seq<Frame>, refused: bool)
    requires forall i :: 0 <= i < |chunks| ==> |chunks[i]| <= ChunkBytes(format)
    ensures frames == Drain(Concat(chunks), format).frames
    ensures refused == Drain(Concat(chunks), format).failed
  {
    var decoder := new FrameStreamDecoder(format);
    frames, refused := [], false;
    for i := 0 to |chunks|
      invariant decoder.format == format && fresh(decoder)
      invariant refused == decoder.sticky == Received(chunks[..i], format).failed
      invariant frames == Received(chunks[..i], format).frames
      invariant !refused ==> decoder.buffer == Received(chunks[..i], format).rest
      invariant !refused ==> Decode(decoder.buffer, format).Incomplete?
    {
      assert chunks[..i + 1][..i] == chunks[..i];
      if !refused {
        IncompleteShort(decoder.buffer, format);
        var ok := decoder.Feed(chunks[i]);
        assert ok;
        ghost var fed := decoder.buffer;
        var taken := decoder.TakeAll();
        frames, refused := frames + taken, decoder.sticky;
        if !refused {
          DrainRest(fed, format);
        }
      }
    }
    assert chunks[..|chunks|] == chunks;
    ChunkingIndependent(chunks, format);
  }
}
