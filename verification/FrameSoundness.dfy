/**
 What arbitrary bytes must be for the frame decoder to accept them (decode_frame,
 src/transport/frame.cpp:335-402), and what one changed byte does to a frame.
 */
module FrameSoundness {
  import opened Identity
  import opened Bits
  import opened Frames
  import opened FrameStream
  import Records

  // ---- Only encodings are accepted ----

  lemma HeaderBytes(data: Bytes)
    requires |data| >= HEADER_BYTES && Load(data, 0, 4) == FRAME_MAGIC
    ensures data[..CHECKED_BYTES] == HeaderPrefix(ReadHeader(data))
    ensures data[CHECKED_BYTES..HEADER_BYTES] == StoreLE(ReadHeader(data).crc, 4)
  {
    StoreLoad(data[0..4]);
    StoreLoad(data[4..6]);
    StoreLoad(data[6..8]);
    StoreLoad(data[8..12]);
    StoreLoad(data[12..20]);
    StoreLoad(data[20..28]);
    StoreLoad(data[28..36]);
    StoreLoad(data[36..44]);
    StoreLoad(data[44..48]);
    StoreLoad(data[48..52]);
    assert data[..CHECKED_BYTES] == data[0..4] + data[4..6] + data[6..8] + data[8..12] + data[12..20] + data[20..28]
                                    + data[28..36] + data[36..44] + data[44..48];
  }

  /** The frame is exactly as the encoder seals it. */
  ghost predicate Proper(f: Frame, format: Format) {
    Sendable(f, format) && f == Sealed(f, format)
  }

  lemma BodyBytes(data: Bytes, h: FrameHeader, payload: Bytes, end: nat)
    requires |data| >= end + 4 && end == HEADER_BYTES + |payload| && data[HEADER_BYTES..end] == payload
    ensures data[..end + 4]
         == data[..CHECKED_BYTES] + data[CHECKED_BYTES..HEADER_BYTES] + payload + data[end..end + 4]
  {
  }

  /** Whatever is decoded as a frame is the encoding of that frame. */
  lemma DecodeSound(data: Bytes, format: Format)
    requires Decode(data, format).Complete?
    ensures var d := Decode(data, format);
            && Proper(d.frame, format) && d.consumed <= |data| && data[..d.consumed] == Encode(d.frame, format)
  {
    var d := Decode(data, format);
    var h, payload := d.frame.header, d.frame.payload;
    var end := HEADER_BYTES + h.payloadLen;
    HeaderBytes(data);
    assert SealedHeader(d.frame, format).(crc := 0) == h.(crc := 0);
    assert HeaderPrefix(SealedHeader(d.frame, format)) == HeaderPrefix(h);
    StoreLoad(data[end..end + 4]);
    BodyBytes(data, h, payload, end);
  }

  /** A frame is decoded exactly when the bytes start with the encoding of one. */
  lemma DecodeAccepts(data: Bytes, format: Format)
    ensures Decode(data, format).Complete? <==> exists f :: Sendable(f, format) && Encode(f, format) <= data
  {
    if Decode(data, format).Complete? {
      DecodeSound(data, format);
      var f := Decode(data, format).frame;
      assert Sendable(f, format) && Encode(f, format) <= data;
    }
    if f :| Sendable(f, format) && Encode(f, format) <= data {
      var rest := data[|Encode(f, format)|..];
      assert data == Encode(f, format) + rest;
      DecodeEncoded(f, rest, format);
    }
  }

  // ---- Whole streams ----

  ghost predicate AllProper(frames: seq<Frame>, format: Format) {
    forall f :: f in frames ==> Proper(f, format)
  }

  ghost function Sent(frames: seq<Frame>, format: Format): (bytes: Bytes)
    requires AllProper(frames, format)
  {
    if frames == [] then [] else assert Proper(frames[0], format); Encode(frames[0], format) + Sent(frames[1..], format)
  }

  /**
   The bytes of a stream are accounted for: they are the encodings of the frames delivered, in
   order, and then the rest, where no frame starts; the stream failed exactly when that rest is
   more than incomplete.
   */
  lemma {:induction false} DrainSound(data: Bytes, format: Format)
    ensures var d := Drain(data, format);
            && AllProper(d.frames, format)
            && data == Sent(d.frames, format) + d.rest
            && !Decode(d.rest, format).Complete?
            && (d.failed <==> !Decode(d.rest, format).Incomplete?)
    decreases |data|
  {
    var d := Drain(data, format);
    if Decode(data, format).Complete? {
      var frame, consumed := Decode(data, format).frame, Decode(data, format).consumed;
      DrainTurn(data, format);
      DecodeSound(data, format);
      DrainSound(data[consumed..], format);
      SentAhead(frame, Drain(data[consumed..], format), d, data, format);
    } else {
      assert d.frames == [] && [] + d.rest == data;
    }
  }

  lemma SentAhead(frame: Frame, later: Drained, d: Drained, data: Bytes, format: Format)
    requires Proper(frame, format) && d == Ahead(frame, later) && |Encode(frame, format)| <= |data|
    requires AllProper(later.frames, format)
    requires data[..|Encode(frame, format)|] == Encode(frame, format)
    requires data[|Encode(frame, format)|..] == Sent(later.frames, format) + later.rest
    ensures AllProper(d.frames, format)
    ensures data == Sent(d.frames, format) + d.rest
  {
    assert d.frames[1..] == later.frames;
    var n := |Encode(frame, format)|;
    assert data == data[..n] + data[n..];
  }

  // ---- One changed byte ----

  /** A frame with any one byte changed is refused, whatever follows it. */
  lemma CorruptionRefused(f: Frame, changed: Bytes, rest: Bytes, i: nat, format: Format)
    requires Records.Detects(format.checksum) && Sendable(f, format)
    requires Records.Apart(Encode(f, format), changed, i)
    ensures Decode(changed + rest, format).Corrupt?
  {
    var h := SealedHeader(f, format);
    var head := HeaderPrefix(h) + StoreLE(h.crc, 4);
    var body := f.payload + StoreLE(format.checksum(f.payload), 4);
    EncodeParts(f, h, head, body, format);
    Records.ApartSplit(head, body, changed, i);
    var first, second := changed[..HEADER_BYTES], changed[HEADER_BYTES..];
    Regroup(changed, first, second, rest);
    if i < HEADER_BYTES {
      HeaderChanged(h, first, second + rest, i, format);
    } else {
      BodyChanged(f, h, head, second, rest, i - HEADER_BYTES, format);
    }
  }

  lemma EncodeParts(f: Frame, h: FrameHeader, head: Bytes, body: Bytes, format: Format)
    requires Sendable(f, format) && h == SealedHeader(f, format) && head == HeaderPrefix(h) + StoreLE(h.crc, 4)
    requires body == f.payload + StoreLE(format.checksum(f.payload), 4)
    ensures |head| == HEADER_BYTES && Encode(f, format) == head + body
    ensures h.crc == format.checksum(HeaderPrefix(h))
  {
    assert HeaderPrefix(h) == HeaderPrefix(f.header.(payloadLen := |f.payload|));
  }

  lemma Regroup(whole: Bytes, first: Bytes, second: Bytes, rest: Bytes)
    requires whole == first + second
    ensures whole + rest == first + (second + rest)
  {
  }

  lemma HeaderChanged(h: FrameHeader, head: Bytes, rest: Bytes, i: nat, format: Format)
    requires Records.Detects(format.checksum) && h.crc == format.checksum(HeaderPrefix(h))
    requires Records.Apart(HeaderPrefix(h) + StoreLE(h.crc, 4), head, i)
    ensures Decode(head + rest, format).Corrupt?
  {
    var data, prefix, trailer := head + rest, HeaderPrefix(h), StoreLE(h.crc, 4);
    assert |head| == HEADER_BYTES;
    Records.ApartSplit(prefix, trailer, head, i);
    assert data[..CHECKED_BYTES] == head[..CHECKED_BYTES] && data[48..52] == head[48..];
    assert Pow256(4) == 0x1_0000_0000;
    LoadStore(h.crc, 4);
    if i < CHECKED_BYTES {
      assert format.checksum(head[..CHECKED_BYTES]) != h.crc;
    } else {
      if LoadLE(head[48..]) == h.crc {
        LoadInjective(head[48..], trailer);
      }
    }
  }

  lemma TrailerChanged(payload: Bytes, body: Bytes, i: nat, checksum: Bytes -> U32)
    requires Records.Detects(checksum) && Records.Apart(payload + StoreLE(checksum(payload), 4), body, i)
    ensures |body| == |payload| + 4 && LoadLE(body[|payload|..]) != checksum(body[..|payload|])
  {
    var n, trailer := |payload|, StoreLE(checksum(payload), 4);
    Records.ApartSplit(payload, trailer, body, i);
    assert Pow256(4) == 0x1_0000_0000;
    LoadStore(checksum(payload), 4);
    if i >= n && LoadLE(body[n..]) == checksum(payload) {
      LoadInjective(body[n..], trailer);
    }
  }

  lemma BodyChanged(f: Frame, h: FrameHeader, head: Bytes, body: Bytes, rest: Bytes, i: nat, format: Format)
    requires Records.Detects(format.checksum) && Sendable(f, format) && h == SealedHeader(f, format)
    requires head == HeaderPrefix(h) + StoreLE(h.crc, 4)
    requires Records.Apart(f.payload + StoreLE(format.checksum(f.payload), 4), body, i)
    ensures Decode(head + (body + rest), format).Corrupt?
  {
    var n := |f.payload|;
    TrailerChanged(f.payload, body, i, format.checksum);
    BodyRefused(h, head, body[..n], body[n..], rest, format);
    assert head + (body + rest) == head + body[..n] + body[n..] + rest;
    assert HeaderPrefix(h) == HeaderPrefix(f.header.(payloadLen := n));
  }

  lemma BodyRefused(h: FrameHeader, head: Bytes, payload: Bytes, trailer: Bytes, rest: Bytes, format: Format)
    requires head == HeaderPrefix(h) + StoreLE(h.crc, 4) && h.crc == format.checksum(HeaderPrefix(h))
    requires h.version == FRAME_VERSION && 1 <= h.kind <= LAST_MESSAGE_TYPE
    requires h.payloadLen == |payload| <= Ceiling(format) && |trailer| == 4
    requires LoadLE(trailer) != format.checksum(payload)
    ensures Decode(head + payload + trailer + rest, format).Corrupt?
  {
    var data := head + payload + trailer + rest;
    assert head <= data;
    HeaderReads(h, data);
    TailReads(head, payload, trailer, rest);
  }
}
