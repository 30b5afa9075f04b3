/**
 Versioned, integrity-checked durable records (src/persist/records.cpp): the 28-byte header, the
 payload and its CRC trailer, and the total decoder over a byte range.
 */
module Records {
  import opened Identity
  import opened Bits
  import opened Limits

  const HEADER_BYTES: nat := 28
  const RECORD_MAGIC: U32 := 0x31464653
  const FORMAT_VERSION: U16 := 1
  const MAX_RECORD_PAYLOAD: nat := 0x100_0000
  const MAGIC_BYTES: Bytes := [0x53, 0x46, 0x46, 0x31]

  /** Record kinds are numbered 1 to 14. */
  const FIRST_KIND: U16 := 1
  const SHUTDOWN_CLEAN: U16 := 14

  datatype RecordHeader = RecordHeader(magic: U32, formatVersion: U16, kind: U16, flags: U32, seqNo: U64,
                                       payloadLen: U32, headerCrc: U32)

  datatype Record = Record(header: RecordHeader, payload: Bytes)

  datatype Disposition = Complete | TornTail | Corrupt | Unsupported

  datatype Decoded = Decoded(disposition: Disposition, header: RecordHeader, payload: Bytes, consumed: nat)

  const NO_HEADER := RecordHeader(0, 0, 0, 0, 0, 0, 0)

  predicate ValidKind(kind: nat) {
    FIRST_KIND <= kind <= SHUTDOWN_CLEAN
  }

  function Ceiling(format: Format): (bytes: nat)
    ensures bytes <= MAX_RECORD_PAYLOAD
  {
    if format.limits.maxDocumentBytes < MAX_RECORD_PAYLOAD then format.limits.maxDocumentBytes else MAX_RECORD_PAYLOAD
  }

  /** What the codec is parameterised by: the bounds, and the checksum of a byte range. */
  datatype Format = Format(limits: Limits, checksum: Bytes -> U32)

  /** Two ranges of equal length that differ in byte i and nowhere else. */
  ghost predicate Apart(a: Bytes, b: Bytes, i: nat) {
    && i < |a| == |b|
    && a[i] != b[i]
    && a[..i] == b[..i]
    && a[i + 1..] == b[i + 1..]
  }

  /** Changing any one byte of any range changes its checksum. */
  ghost predicate Detects(checksum: Bytes -> U32) {
    forall a, b, i :: Apart(a, b, i) ==> checksum(a) != checksum(b)
  }

  /** A change lies in one of two adjacent parts. */
  lemma ApartSplit(x: Bytes, y: Bytes, z: Bytes, i: nat)
    requires Apart(x + y, z, i)
    ensures |z| == |x| + |y| && z == z[..|x|] + z[|x|..]
    ensures i < |x| ==> Apart(x, z[..|x|], i) && z[|x|..] == y
    ensures i >= |x| ==> z[..|x|] == x && Apart(y, z[|x|..], i - |x|)
  {
    var w := x + y;
    if i < |x| {
      assert z[..|x|][..i] == z[..i] == w[..i] == x[..i];
      assert z[..|x|][i + 1..] == z[i + 1..][..|x| - i - 1] == w[i + 1..][..|x| - i - 1] == x[i + 1..];
      assert z[|x|..] == z[i + 1..][|x| - i - 1..] == w[i + 1..][|x| - i - 1..] == y;
    } else {
      var j := i - |x|;
      assert z[..|x|] == z[..i][..|x|] == w[..i][..|x|] == x;
      assert z[|x|..][..j] == z[..i][|x|..] == w[..i][|x|..] == y[..j];
      assert z[|x|..][j + 1..] == z[i + 1..] == w[i + 1..] == y[j + 1..];
    }
  }

  // ---- Header ----

  /** The 24 header bytes the header CRC covers. */
  function HeaderPrefix(header: RecordHeader): (bytes: Bytes)
    ensures |bytes| == 24
  {
    StoreLE(header.magic, 4) + StoreLE(header.formatVersion, 2) + StoreLE(header.kind, 2)
    + StoreLE(header.flags, 4) + StoreLE(header.seqNo, 8) + StoreLE(header.payloadLen, 4)
  }

  function EncodeHeader(header: RecordHeader): (bytes: Bytes)
    ensures |bytes| == HEADER_BYTES
  {
    HeaderPrefix(header) + StoreLE(header.headerCrc, 4)
  }

  function Load(data: Bytes, offset: nat, width: nat): (value: nat)
    requires offset + width <= |data|
    ensures value < Pow256(width)
  {
    LoadBound(data[offset..offset + width]);
    LoadLE(data[offset..offset + width])
  }

  function ReadHeader(data: Bytes): (header: RecordHeader)
    requires |data| >= HEADER_BYTES
  {
    assert Pow256(2) == 0x1_0000 && Pow256(4) == 0x1_0000_0000 && Pow256(8) == 0x1_0000_0000_0000_0000;
    RecordHeader(Load(data, 0, 4), Load(data, 4, 2), Load(data, 6, 2), Load(data, 8, 4), Load(data, 12, 8),
                 Load(data, 20, 4), Load(data, 24, 4))
  }

  /** Re-encoding the fields read from a header gives back its bytes. */
  lemma ReadEncode(data: Bytes)
    requires |data| >= HEADER_BYTES
    ensures HeaderPrefix(ReadHeader(data)) == data[..24]
  {
    StoreLoad(data[0..4]);
    StoreLoad(data[4..6]);
    StoreLoad(data[6..8]);
    StoreLoad(data[8..12]);
    StoreLoad(data[12..20]);
    StoreLoad(data[20..24]);
    assert data[..24] == data[0..4] + data[4..6] + data[6..8] + data[8..12] + data[12..20] + data[20..24];
  }

  /** Reading an encoded header gives back its fields. */
  lemma EncodeRead(header: RecordHeader, rest: Bytes)
    ensures ReadHeader(EncodeHeader(header) + rest) == header
  {
    var data := EncodeHeader(header) + rest;
    assert Pow256(2) == 0x1_0000 && Pow256(4) == 0x1_0000_0000 && Pow256(8) == 0x1_0000_0000_0000_0000;
    assert data[0..4] == StoreLE(header.magic, 4);
    assert data[4..6] == StoreLE(header.formatVersion, 2);
    assert data[6..8] == StoreLE(header.kind, 2);
    assert data[8..12] == StoreLE(header.flags, 4);
    assert data[12..20] == StoreLE(header.seqNo, 8);
    assert data[20..24] == StoreLE(header.payloadLen, 4);
    assert data[24..28] == StoreLE(header.headerCrc, 4);
    LoadStore(header.magic, 4);
    LoadStore(header.formatVersion, 2);
    LoadStore(header.kind, 2);
    LoadStore(header.flags, 4);
    LoadStore(header.seqNo, 8);
    LoadStore(header.payloadLen, 4);
    LoadStore(header.headerCrc, 4);
  }

  /** Header validation, in the order the checks are made. */
  function Validate(header: RecordHeader, format: Format): (verdict: Disposition) {
    if header.magic != RECORD_MAGIC then Corrupt
    else if header.formatVersion != FORMAT_VERSION then Unsupported
    else if !ValidKind(header.kind) then Unsupported
    else if header.payloadLen > Ceiling(format) then Corrupt
    else if format.checksum(HeaderPrefix(header)) != header.headerCrc then Corrupt
    else Complete
  }

  // ---- Whole records ----

  datatype Encoded = Refused | Encoding(bytes: Bytes)

  /** The header an encoder actually writes for a record. */
  function SealedHeader(record: Record, format: Format): (header: RecordHeader)
    requires |record.payload| <= MAX_RECORD_PAYLOAD
  {
    var header := record.header.(magic := RECORD_MAGIC, formatVersion := FORMAT_VERSION, payloadLen :=
                                 |record.payload|);
    header.(headerCrc := format.checksum(HeaderPrefix(header)))
  }

  function RecordBytes(record: Record, format: Format): (bytes: Bytes)
    requires |record.payload| <= MAX_RECORD_PAYLOAD
    ensures |bytes| == HEADER_BYTES + |record.payload| + 4
  {
    EncodeHeader(SealedHeader(record, format)) + record.payload + StoreLE(format.checksum(record.payload), 4)
  }

  predicate Encodable(record: Record, format: Format) {
    |record.payload| <= Ceiling(format) && ValidKind(record.header.kind)
  }

  function EncodeRecord(record: Record, format: Format): (result: Encoded)
    ensures result.Encoding? <==> Encodable(record, format)
  {
    if |record.payload| > Ceiling(format) then Refused
    else if Validate(SealedHeader(record, format), format).Complete? then Encoding(RecordBytes(record, format))
    else Refused
  }

  /** The total decoder of one record at the head of a byte range. */
  function Decode(data: Bytes, format: Format): (result: Decoded) {
    var prefix := if |data| < 4 then |data| else 4;
    if |data| == 0 then Decoded(TornTail, NO_HEADER, [], 0)
    else if data[..prefix] != MAGIC_BYTES[..prefix] then Decoded(Corrupt, NO_HEADER, [], 0)
    else if |data| < HEADER_BYTES then Decoded(TornTail, NO_HEADER, [], |data|)
    else
      var header := ReadHeader(data);
      var verdict := Validate(header, format);
      if !verdict.Complete? then Decoded(verdict, NO_HEADER, [], 0)
      else if |data| < HEADER_BYTES + header.payloadLen + 4 then Decoded(TornTail, header, [], |data|)
      else
        var end := HEADER_BYTES + header.payloadLen;
        var payload := data[HEADER_BYTES..end];
        if Load(data, end, 4) != format.checksum(payload) then Decoded(Corrupt, NO_HEADER, [], 0)
        else Decoded(Complete, header, payload, end + 4)
  }

  lemma MagicLoads()
    ensures LoadLE(MAGIC_BYTES) == RECORD_MAGIC
    ensures StoreLE(RECORD_MAGIC, 4) == MAGIC_BYTES
  {
    assert MAGIC_BYTES[1..] == [0x46, 0x46, 0x31] && MAGIC_BYTES[1..][1..] == [0x46, 0x31];
    assert [0x46, 0x31][1..] == [0x31];
    assert LoadLE([0x31]) == 0x31;
    assert LoadLE([0x46, 0x31]) == 0x3146;
    assert LoadLE(MAGIC_BYTES[1..]) == 0x314646;
    StoreLoad(MAGIC_BYTES);
  }

  lemma SameField(a: Bytes, b: Bytes, offset: nat, width: nat)
    requires |a| >= HEADER_BYTES && |b| >= HEADER_BYTES && a[..HEADER_BYTES] == b[..HEADER_BYTES]
    requires offset + width <= HEADER_BYTES
    ensures Load(a, offset, width) == Load(b, offset, width)
  {
    forall i | offset <= i < offset + width
      ensures a[i] == b[i]
    {
      assert a[i] == a[..HEADER_BYTES][i] && b[i] == b[..HEADER_BYTES][i];
    }
    assert a[offset..offset + width] == b[offset..offset + width];
  }

  /** The header depends on the first 28 bytes only. */
  lemma SameHeader(a: Bytes, b: Bytes)
    requires |a| >= HEADER_BYTES && |b| >= HEADER_BYTES && a[..HEADER_BYTES] == b[..HEADER_BYTES]
    ensures ReadHeader(a) == ReadHeader(b)
  {
    SameField(a, b, 0, 4);
    SameField(a, b, 4, 2);
    SameField(a, b, 6, 2);
    SameField(a, b, 8, 4);
    SameField(a, b, 12, 8);
    SameField(a, b, 20, 4);
    SameField(a, b, 24, 4);
  }

  /** What makes 28 bytes an acceptable header. */
  ghost predicate GoodHeader(head: Bytes, header: RecordHeader, format: Format) {
    && |head| == HEADER_BYTES && head[..4] == MAGIC_BYTES
    && ReadHeader(head) == header && Validate(header, format).Complete?
  }

  /** Encoded records start with an acceptable header. */
  lemma EncodedHeader(record: Record, format: Format)
    requires Encodable(record, format)
    ensures GoodHeader(EncodeHeader(SealedHeader(record, format)), SealedHeader(record, format), format)
  {
    var header := SealedHeader(record, format);
    var head := EncodeHeader(header);
    MagicLoads();
    EncodeRead(header, []);
    assert head + [] == head;
    assert head[..4] == StoreLE(header.magic, 4);
  }

  /** Behind an acceptable header, the payload and its stored CRC decide. */
  lemma DecodeParts(head: Bytes, header: RecordHeader, payload: Bytes, trailer: Bytes, rest: Bytes, format: Format,
                    data: Bytes)
    requires GoodHeader(head, header, format)
    requires |payload| == header.payloadLen && |trailer| == 4
    requires data == head + (payload + trailer + rest)
    ensures Decode(data, format)
         == if LoadLE(trailer) == format.checksum(payload)
            then Decoded(Complete, header, payload, HEADER_BYTES + |payload| + 4)
            else Decoded(Corrupt, NO_HEADER, [], 0)
  {
    var end := HEADER_BYTES + |payload|;
    assert data[..HEADER_BYTES] == head[..HEADER_BYTES];
    SameHeader(data, head);
    assert data[..4] == head[..4];
    assert data[HEADER_BYTES..end] == payload && data[end..end + 4] == trailer;
  }

  lemma TrailerLoads(payload: Bytes, format: Format)
    ensures LoadLE(StoreLE(format.checksum(payload), 4)) == format.checksum(payload)
  {
    assert Pow256(4) == 0x1_0000_0000;
    LoadStore(format.checksum(payload), 4);
  }

  /** Round trip: an encoded record decodes to itself, whatever follows it. */
  lemma DecodeEncoded(record: Record, format: Format, rest: Bytes)
    requires Encodable(record, format)
    ensures Decode(RecordBytes(record, format) + rest, format)
         == Decoded(Complete, SealedHeader(record, format), record.payload, |RecordBytes(record, format)|)
  {
    var header, data := SealedHeader(record, format), RecordBytes(record, format) + rest;
    EncodedHeader(record, format);
    TrailerLoads(record.payload, format);
    var head, trailer := EncodeHeader(header), StoreLE(format.checksum(record.payload), 4);
    JoinRight(head, record.payload, trailer, rest);
    DecodeParts(head, header, record.payload, trailer, rest, format, data);
  }

  lemma JoinRight(a: Bytes, b: Bytes, c: Bytes, d: Bytes)
    ensures a + b + c + d == a + (b + c + d)
  {
  }

  /** Every strict prefix of an encoded record is a torn tail, consumed whole. */
  lemma DecodePrefix(record: Record, format: Format, cut: nat)
    requires Encodable(record, format) && cut < |RecordBytes(record, format)|
    ensures var result := Decode(RecordBytes(record, format)[..cut], format);
            result.disposition == TornTail && result.consumed == cut
            && (cut >= HEADER_BYTES ==> result.header == SealedHeader(record, format))
  {
    EncodedHeader(record, format);
    var head := EncodeHeader(SealedHeader(record, format));
    assert RecordBytes(record, format)[..HEADER_BYTES] == head;
    PrefixTorn(head, SealedHeader(record, format), RecordBytes(record, format), format, cut);
  }

  lemma PrefixTorn(head: Bytes, header: RecordHeader, bytes: Bytes, format: Format, cut: nat)
    requires GoodHeader(head, header, format) && |bytes| == HEADER_BYTES + header.payloadLen + 4
    requires bytes[..HEADER_BYTES] == head && cut < |bytes|
    ensures var result := Decode(bytes[..cut], format);
            result.disposition == TornTail && result.consumed == cut
            && (cut >= HEADER_BYTES ==> result.header == header)
  {
    var data := bytes[..cut];
    if cut < HEADER_BYTES {
      var prefix := if cut < 4 then cut else 4;
      assert data[..prefix] == bytes[..HEADER_BYTES][..prefix] == head[..4][..prefix];
    } else {
      assert data[..HEADER_BYTES] == head[..HEADER_BYTES];
      assert data[..4] == head[..4];
      SameHeader(data, head);
    }
  }

  /** A header that validates carries the CRC of its own first 24 bytes. */
  lemma ValidatedHeader(data: Bytes, format: Format)
    requires |data| >= HEADER_BYTES && Validate(ReadHeader(data), format).Complete?
    ensures Load(data, 24, 4) == format.checksum(data[..24])
  {
    ReadEncode(data);
  }

  predicate Rejected(disposition: Disposition) {
    disposition.Corrupt? || disposition.Unsupported?
  }

  /** Changing one byte of an acceptable header is never accepted and never taken for a torn tail. */
  lemma HeaderCorruption(head: Bytes, header: RecordHeader, format: Format, changed: Bytes, data: Bytes, i: nat)
    requires Detects(format.checksum)
    requires GoodHeader(head, header, format) && Apart(head, changed, i)
    requires |data| >= HEADER_BYTES && data[..HEADER_BYTES] == changed
    ensures Rejected(Decode(data, format).disposition)
  {
    if Validate(ReadHeader(data), format).Complete? {
      ValidatedHeader(data, format);
      ValidatedHeader(head, format);
      assert data[..24] == changed[..24] && data[24..28] == changed[24..];
      assert head[24..28] == head[24..];
      StoredCrcMismatch(head, changed, format, i);
    }
  }

  lemma StoredCrcMismatch(head: Bytes, changed: Bytes, format: Format, i: nat)
    requires Detects(format.checksum)
    requires |head| == HEADER_BYTES && Apart(head, changed, i) && LoadLE(head[24..]) == format.checksum(head[..24])
    ensures LoadLE(changed[24..]) != format.checksum(changed[..24])
  {
    assert head == head[..24] + head[24..];
    ApartSplit(head[..24], head[24..], changed, i);
    if i >= 24 && LoadLE(changed[24..]) == LoadLE(head[24..]) {
      LoadInjective(changed[24..], head[24..]);
    }
  }

  /** Changing one payload or trailer byte behind an acceptable header is reported as corruption. */
  lemma BodyCorruption(head: Bytes, header: RecordHeader, payload: Bytes, trailer: Bytes, body: Bytes, rest: Bytes,
                       format: Format, data: Bytes, i: nat)
    requires Detects(format.checksum)
    requires GoodHeader(head, header, format) && |payload| == header.payloadLen && |trailer| == 4
    requires LoadLE(trailer) == format.checksum(payload)
    requires Apart(payload + trailer, body, i) && data == head + (body + rest)
    ensures Decode(data, format).disposition == Corrupt
  {
    ApartSplit(payload, trailer, body, i);
    var payload', trailer' := body[..|payload|], body[|payload|..];
    assert LoadLE(trailer') != format.checksum(payload') by {
      if i >= |payload| && LoadLE(trailer') == LoadLE(trailer) {
        LoadInjective(trailer', trailer);
      }
    }
    DecodeParts(head, header, payload', trailer', rest, format, data);
  }

  /** Where a one-byte change of a record lands once other bytes follow it. */
  lemma LocateChange(head: Bytes, body: Bytes, changed: Bytes, rest: Bytes, i: nat)
    requires Apart(head + body, changed, i)
    ensures var head', body' := changed[..|head|], changed[|head|..];
            && |changed| == |head| + |body|
            && changed + rest == head' + (body' + rest)
            && (changed + rest)[..|head|] == head'
            && (i < |head| ==> Apart(head, head', i))
            && (i >= |head| ==> head' == head && Apart(body, body', i - |head|))
  {
    ApartSplit(head, body, changed, i);
  }

  /** Corruption is never accepted: any one changed byte makes the decoder refuse the record. */
  lemma CorruptionRefused(record: Record, format: Format, changed: Bytes, rest: Bytes, i: nat)
    requires Detects(format.checksum)
    requires Encodable(record, format) && Apart(RecordBytes(record, format), changed, i)
    ensures Rejected(Decode(changed + rest, format).disposition)
  {
    if i < HEADER_BYTES {
      HeaderByteRefused(record, format, changed, rest, i);
    } else {
      BodyByteRefused(record, format, changed, rest, i);
    }
  }

  lemma RecordSplit(record: Record, format: Format)
    requires |record.payload| <= MAX_RECORD_PAYLOAD
    ensures |EncodeHeader(SealedHeader(record, format))| == HEADER_BYTES
    ensures RecordBytes(record, format)
         == EncodeHeader(SealedHeader(record, format)) + (record.payload + StoreLE(format.checksum(record.payload), 4))
  {
  }

  lemma HeaderByteRefused(record: Record, format: Format, changed: Bytes, rest: Bytes, i: nat)
    requires Detects(format.checksum) && i < HEADER_BYTES
    requires Encodable(record, format) && Apart(RecordBytes(record, format), changed, i)
    ensures Rejected(Decode(changed + rest, format).disposition)
  {
    var header := SealedHeader(record, format);
    var head, body := EncodeHeader(header), record.payload + StoreLE(format.checksum(record.payload), 4);
    EncodedHeader(record, format);
    RecordSplit(record, format);
    LocateChange(head, body, changed, rest, i);
    HeaderCorruption(head, header, format, changed[..HEADER_BYTES], changed + rest, i);
  }

  lemma BodyByteRefused(record: Record, format: Format, changed: Bytes, rest: Bytes, i: nat)
    requires Detects(format.checksum) && i >= HEADER_BYTES
    requires Encodable(record, format) && Apart(RecordBytes(record, format), changed, i)
    ensures Rejected(Decode(changed + rest, format).disposition)
  {
    var header, payload := SealedHeader(record, format), record.payload;
    var head, trailer := EncodeHeader(header), StoreLE(format.checksum(payload), 4);
    EncodedHeader(record, format);
    TrailerLoads(payload, format);
    RecordSplit(record, format);
    LocateChange(head, payload + trailer, changed, rest, i);
    BodyCorruption(head, header, payload, trailer, changed[HEADER_BYTES..], rest, format, changed + rest,
                   i - HEADER_BYTES);
  }

  /** A changed header byte is refused on the header bytes alone. */
  lemma HeaderCorruptionRefused(record: Record, format: Format, changed: Bytes, i: nat)
    requires Detects(format.checksum)
    requires Encodable(record, format) && Apart(RecordBytes(record, format), changed, i) && i < HEADER_BYTES
    ensures Rejected(Decode(changed[..HEADER_BYTES], format).disposition)
  {
    var head := EncodeHeader(SealedHeader(record, format));
    var body := record.payload + StoreLE(format.checksum(record.payload), 4);
    EncodedHeader(record, format);
    RecordSplit(record, format);
    LocateChange(head, body, changed, [], i);
    var head' := changed[..HEADER_BYTES];
    assert head'[..HEADER_BYTES] == head';
    HeaderCorruption(head, SealedHeader(record, format), format, head', head', i);
  }
}
