/**
 The transport frame codec (encode_frame and decode_frame, src/transport/frame.cpp:301-402): a
 52-byte checked header, a payload and a trailing checksum.
 */
module Frames {
  import opened Identity
  import opened Bits
  import opened Limits

  const HEADER_BYTES: nat := 52
  const CHECKED_BYTES: nat := 48
  const TRAILER_BYTES: nat := 4
  const FRAME_MAGIC: U32 := 0x3146_4653
  const FRAME_VERSION: nat := 1
  const LAST_MESSAGE_TYPE: nat := 16

  datatype FrameHeader = FrameHeader(
    version: U16, kind: U16, flags: U32, session: U64, epoch: U64, bootDigest: U64, requestSeq: U64, payloadLen: U32,
    crc: U32)

  datatype Frame = Frame(header: FrameHeader, payload: Bytes)

  /** The checksum is left open: everything here holds for any function of the bytes. */
  datatype Format = Format(limits: Limits, checksum: Bytes -> U32)

  datatype Decoded = Incomplete | Corrupt | Unsupported | Complete(frame: Frame, consumed: nat)

  function Ceiling(format: Format): (bytes: nat)
    ensures bytes <= HARD_MAX_FRAME_PAYLOAD
  {
    if format.limits.maxFramePayload < HARD_MAX_FRAME_PAYLOAD then format.limits.maxFramePayload
       else HARD_MAX_FRAME_PAYLOAD
  }

  /** The longest frame the decoder accepts. */
  function LongestFrame(format: Format): (bytes: nat) {
    HEADER_BYTES + Ceiling(format) + TRAILER_BYTES
  }

  // ---- Header ----

  function HeaderPrefix(h: FrameHeader): (bytes: Bytes)
    ensures |bytes| == CHECKED_BYTES
  {
    StoreLE(FRAME_MAGIC, 4) + StoreLE(h.version, 2) + StoreLE(h.kind, 2) + StoreLE(h.flags, 4)
    + StoreLE(h.session, 8) + StoreLE(h.epoch, 8) + StoreLE(h.bootDigest, 8) + StoreLE(h.requestSeq, 8) +
      StoreLE(h.payloadLen, 4)
  }

  function Load(data: Bytes, offset: nat, width: nat): (value: nat)
    requires offset + width <= |data|
    ensures value < Pow256(width)
  {
    LoadBound(data[offset..offset + width]);
    LoadLE(data[offset..offset + width])
  }

  function ReadHeader(data: Bytes): (h: FrameHeader)
    requires |data| >= HEADER_BYTES
  {
    assert Pow256(2) == 0x1_0000 && Pow256(4) == 0x1_0000_0000 && Pow256(8) == 0x1_0000_0000_0000_0000;
    FrameHeader(
      Load(data, 4, 2), Load(data, 6, 2), Load(data, 8, 4), Load(data, 12, 8), Load(data, 20, 8), Load(data, 28, 8),
      Load(data, 36, 8), Load(data, 44, 4), Load(data, 48, 4))
  }

  /** The checks in the order they are made. */
  function Decode(data: Bytes, format: Format): (d: Decoded) {
    if |data| < 4 then Incomplete
    else if Load(data, 0, 4) != FRAME_MAGIC then Corrupt
    else if |data| < HEADER_BYTES then Incomplete
    else
      var h := ReadHeader(data);
      if h.crc != format.checksum(data[..CHECKED_BYTES]) then Corrupt
      else if h.version != FRAME_VERSION then Unsupported
      else if !(1 <= h.kind <= LAST_MESSAGE_TYPE) then Unsupported
      else if h.payloadLen > Ceiling(format) then Corrupt
      else
        var total := HEADER_BYTES + h.payloadLen + TRAILER_BYTES;
        if |data| < total then Incomplete
        else
          var payload := data[HEADER_BYTES..HEADER_BYTES + h.payloadLen];
          if Load(data, HEADER_BYTES + h.payloadLen, 4) != format.checksum(payload) then Corrupt
          else Complete(Frame(h, payload), total)
  }

  // ---- More bytes never change an answer ----

  lemma LoadPrefix(data: Bytes, more: Bytes, offset: nat, width: nat)
    requires offset + width <= |data|
    ensures Load(data + more, offset, width) == Load(data, offset, width)
  {
    assert (data + more)[offset..offset + width] == data[offset..offset + width];
  }

  lemma ReadHeaderPrefix(data: Bytes, more: Bytes)
    requires |data| >= HEADER_BYTES
    ensures ReadHeader(data + more) == ReadHeader(data)
  {
    LoadPrefix(data, more, 4, 2);
    LoadPrefix(data, more, 6, 2);
    LoadPrefix(data, more, 8, 4);
    LoadPrefix(data, more, 12, 8);
    LoadPrefix(data, more, 20, 8);
    LoadPrefix(data, more, 28, 8);
    LoadPrefix(data, more, 36, 8);
    LoadPrefix(data, more, 44, 4);
    LoadPrefix(data, more, 48, 4);
  }

  /** Any answer but Incomplete is final. */
  lemma DecodeStable(data: Bytes, more: Bytes, format: Format)
    requires !Decode(data, format).Incomplete?
    ensures Decode(data + more, format) == Decode(data, format)
  {
    LoadPrefix(data, more, 0, 4);
    if |data| >= HEADER_BYTES {
      ReadHeaderPrefix(data, more);
      var h := ReadHeader(data);
      assert (data + more)[..CHECKED_BYTES] == data[..CHECKED_BYTES];
      var end := HEADER_BYTES + h.payloadLen;
      if end + TRAILER_BYTES <= |data| {
        LoadPrefix(data, more, end, 4);
        assert (data + more)[HEADER_BYTES..end] == data[HEADER_BYTES..end];
      }
    }
  }

  /** What is still incomplete fits within one longest frame. */
  lemma IncompleteShort(data: Bytes, format: Format)
    requires Decode(data, format).Incomplete?
    ensures |data| < LongestFrame(format)
  {
  }

  lemma CompleteConsumes(data: Bytes, format: Format)
    requires Decode(data, format).Complete?
    ensures 0 < Decode(data, format).consumed <= |data|
  {
  }

  // ---- Encoding ----

  predicate Sendable(f: Frame, format: Format) {
    f.header.version == FRAME_VERSION && 1 <= f.header.kind <= LAST_MESSAGE_TYPE && |f.payload| <= Ceiling(format)
  }

  /** The header that is actually written. */
  function SealedHeader(f: Frame, format: Format): (h: FrameHeader)
    requires |f.payload| <= Ceiling(format)
  {
    var h := f.header.(payloadLen := |f.payload|);
    h.(crc := format.checksum(HeaderPrefix(h)))
  }

  function Encode(f: Frame, format: Format): (bytes: Bytes)
    requires |f.payload| <= Ceiling(format)
    ensures |bytes| == HEADER_BYTES + |f.payload| + TRAILER_BYTES
  {
    var h := SealedHeader(f, format);
    HeaderPrefix(h) + StoreLE(h.crc, 4) + f.payload + StoreLE(format.checksum(f.payload), 4)
  }

  lemma PrefixFields(h: FrameHeader)
    ensures var p := HeaderPrefix(h);
            && p[0..4] == StoreLE(FRAME_MAGIC, 4) && p[4..6] == StoreLE(h.version, 2) && p[6..8] == StoreLE(h.kind, 2)
            && p[8..12] == StoreLE(h.flags, 4) && p[12..20] == StoreLE(h.session, 8) && p[20..28] == StoreLE(h.epoch, 8)
            && p[28..36] == StoreLE(h.bootDigest, 8) && p[36..44] == StoreLE(h.requestSeq, 8) &&
              p[44..48] == StoreLE(h.payloadLen, 4)
  {
  }

  lemma LoadPart(data: Bytes, offset: nat, value: nat, width: nat)
    requires offset + width <= |data| && data[offset..offset + width] == StoreLE(value, width) && value < Pow256(width)
    ensures Load(data, offset, width) == value
  {
    LoadStore(value, width);
  }

  lemma PartOf(data: Bytes, prefix: Bytes, from: nat, to: nat)
    requires from <= to <= |prefix| && prefix <= data
    ensures data[from..to] == prefix[from..to]
  {
  }

  lemma HeaderReads(h: FrameHeader, data: Bytes)
    requires HeaderPrefix(h) + StoreLE(h.crc, 4) <= data
    ensures Load(data, 0, 4) == FRAME_MAGIC && ReadHeader(data) == h
    ensures data[..CHECKED_BYTES] == HeaderPrefix(h)
  {
    assert Pow256(2) == 0x1_0000 && Pow256(4) == 0x1_0000_0000 && Pow256(8) == 0x1_0000_0000_0000_0000;
    var p := HeaderPrefix(h);
    PrefixFields(h);
    assert p <= data;
    PartOf(data, p, 0, 4);
    PartOf(data, p, 4, 6);
    PartOf(data, p, 6, 8);
    PartOf(data, p, 8, 12);
    PartOf(data, p, 12, 20);
    PartOf(data, p, 20, 28);
    PartOf(data, p, 28, 36);
    PartOf(data, p, 36, 44);
    PartOf(data, p, 44, 48);
    assert data[48..52] == StoreLE(h.crc, 4) by {
      assert (p + StoreLE(h.crc, 4))[48..52] == StoreLE(h.crc, 4);
    }
    LoadPart(data, 0, FRAME_MAGIC, 4);
    LoadPart(data, 4, h.version, 2);
    LoadPart(data, 6, h.kind, 2);
    LoadPart(data, 8, h.flags, 4);
    LoadPart(data, 12, h.session, 8);
    LoadPart(data, 20, h.epoch, 8);
    LoadPart(data, 28, h.bootDigest, 8);
    LoadPart(data, 36, h.requestSeq, 8);
    LoadPart(data, 44, h.payloadLen, 4);
    LoadPart(data, 48, h.crc, 4);
  }

  function Sealed(f: Frame, format: Format): (g: Frame)
    requires |f.payload| <= Ceiling(format)
  {
    Frame(SealedHeader(f, format), f.payload)
  }

  lemma TailReads(head: Bytes, payload: Bytes, trailer: Bytes, rest: Bytes)
    requires |head| == HEADER_BYTES && |trailer| == TRAILER_BYTES
    ensures var data := head + payload + trailer + rest;
            var end := HEADER_BYTES + |payload|;
            data[HEADER_BYTES..end] == payload && data[end..end + 4] == trailer
  {
  }

  /** An encoded frame decodes to itself, whatever follows it. */
  lemma DecodeEncoded(f: Frame, rest: Bytes, format: Format)
    requires Sendable(f, format)
    ensures Decode(Encode(f, format) + rest, format) == Complete(Sealed(f, format), |Encode(f, format)|)
  {
    var h := SealedHeader(f, format);
    var head := HeaderPrefix(h) + StoreLE(h.crc, 4);
    var trailer := StoreLE(format.checksum(f.payload), 4);
    var data := Encode(f, format) + rest;
    assert data == head + f.payload + trailer + rest;
    assert head <= data;
    HeaderReads(h, data);
    TailReads(head, f.payload, trailer, rest);
    assert Pow256(4) == 0x1_0000_0000;
    LoadPart(data, HEADER_BYTES + |f.payload|, format.checksum(f.payload), 4);
    assert HeaderPrefix(h) == HeaderPrefix(f.header.(payloadLen := |f.payload|));
  }

  /** Every strict prefix of an encoded frame is incomplete. */
  lemma PrefixIncomplete(f: Frame, cut: nat, format: Format)
    requires Sendable(f, format) && cut < |Encode(f, format)|
    ensures Decode(Encode(f, format)[..cut], format).Incomplete?
  {
    var whole := Encode(f, format);
    var part := whole[..cut];
    assert whole == part + whole[cut..];
    DecodeEncoded(f, [], format);
    assert whole + [] == whole;
    if !Decode(part, format).Incomplete? {
      DecodeStable(part, whole[cut..], format);
      CompleteConsumes(part, format);
    }
  }
}
