/** The canonical byte codec (src/codec/bytes.cpp) that the journal payloads are written with. */
module Payloads {
  import opened Identity
  import opened Bits
  import opened Evidence

  const ELEMENT_LIMIT: nat := 0x100_0000
  const PAYLOAD_TAG: Byte := 1

  // ---- Fields ----

  datatype Field = Small(byte: Byte) | Half(half: U16) | Wide(value: U64) | Text(bytes: Bytes)

  datatype Shape = SmallShape | HalfShape | WideShape | TextShape

  function ShapeOf(f: Field): (shape: Shape) {
    match f
    case Small(_) => SmallShape
    case Half(_) => HalfShape
    case Wide(_) => WideShape
    case Text(_) => TextShape
  }

  /** The reader accepts a text up to the element limit. */
  predicate Readable(f: Field) {
    f.Text? ==> |f.bytes| <= ELEMENT_LIMIT
  }

  function WriteField(f: Field): (bytes: Bytes) {
    match f
    case Small(b) => [b]
    case Half(v) => StoreLE(v, 2)
    case Wide(v) => StoreLE(v, 8)
    case Text(t) => StoreLE(|t|, 4) + t
  }

  function WriteFields(fields: seq<Field>): (bytes: Bytes) {
    if fields == [] then [] else WriteField(fields[0]) + WriteFields(fields[1..])
  }

  datatype ReadResult = Read(field: Field, rest: Bytes) | Short

  lemma EightBytes(bytes: Bytes)
    requires |bytes| == 8
    ensures LoadLE(bytes) <= U64_MAX
  {
    LoadBound(bytes);
    assert Pow256(8) == 0x1_0000_0000_0000_0000;
  }

  function ReadWide(data: Bytes): (value: U64)
    requires |data| >= 8
  {
    EightBytes(data[..8]);
    LoadLE(data[..8])
  }

  lemma TwoBytes(bytes: Bytes)
    requires |bytes| == 2
    ensures LoadLE(bytes) <= 0xFFFF
  {
    LoadBound(bytes);
    assert Pow256(2) == 0x1_0000;
  }

  function ReadHalf(data: Bytes): (value: U16)
    requires |data| >= 2
  {
    TwoBytes(data[..2]);
    LoadLE(data[..2])
  }

  function ReadField(shape: Shape, data: Bytes): (r: ReadResult) {
    match shape
    case SmallShape => if |data| < 1 then Short else Read(Small(data[0]), data[1..])
    case HalfShape => if |data| < 2 then Short else Read(Half(ReadHalf(data)), data[2..])
    case WideShape => if |data| < 8 then Short else Read(Wide(ReadWide(data)), data[8..])
    case TextShape =>
      if |data| < 4 then Short
      else
        var length := LoadLE(data[..4]);
        if length > ELEMENT_LIMIT || length > |data| - 4 then Short
        else Read(Text(data[4..4 + length]), data[4 + length..])
  }

  /** All fields in order, and nothing after them. */
  function ReadFields(shapes: seq<Shape>, data: Bytes): (fields: Option<seq<Field>>) {
    if shapes == [] then if data == [] then Some([]) else None
    else match ReadField(shapes[0], data)
      case Short => None
      case Read(f, rest) =>
        match ReadFields(shapes[1..], rest)
        case None => None
        case Some(fields) => Some([f] + fields)
  }

  // ---- Round trip ----

  lemma Widths()
    ensures Pow256(8) == U64_MAX + 1 && Pow256(4) > ELEMENT_LIMIT && Pow256(2) == 0x1_0000
  {
    assert Pow256(2) == 0x1_0000;
    assert Pow256(4) == 0x1_0000_0000;
    assert Pow256(8) == 0x1_0000_0000 * Pow256(4);
  }

  lemma ReadWritten(f: Field, rest: Bytes)
    requires Readable(f)
    ensures ReadField(ShapeOf(f), WriteField(f) + rest) == Read(f, rest)
  {
    Widths();
    var data := WriteField(f) + rest;
    match f
    case Small(b) =>
      assert data[1..] == rest;
    case Half(v) =>
      LoadStore(v, 2);
      assert data[..2] == StoreLE(v, 2) && data[2..] == rest;
    case Wide(v) =>
      LoadStore(v, 8);
      assert data[..8] == StoreLE(v, 8) && data[8..] == rest;
    case Text(t) =>
      LoadStore(|t|, 4);
      assert data[..4] == StoreLE(|t|, 4);
      assert data[4..4 + |t|] == t && data[4 + |t|..] == rest;
  }

  lemma WrittenRead(shape: Shape, data: Bytes)
    requires ReadField(shape, data).Read?
    ensures var r := ReadField(shape, data);
            data == WriteField(r.field) + r.rest && ShapeOf(r.field) == shape && Readable(r.field)
  {
    match shape
    case SmallShape =>
    case HalfShape =>
      StoreLoad(data[..2]);
      assert data == data[..2] + data[2..];
    case WideShape =>
      StoreLoad(data[..8]);
      assert data == data[..8] + data[8..];
    case TextShape =>
      StoreLoad(data[..4]);
      var length := LoadLE(data[..4]);
      assert data == data[..4] + data[4..4 + length] + data[4 + length..];
  }

  function Shapes(fields: seq<Field>): (shapes: seq<Shape>)
    ensures |shapes| == |fields|
    ensures forall i :: 0 <= i < |fields| ==> shapes[i] == ShapeOf(fields[i])
  {
    seq(|fields|, i requires 0 <= i < |fields| => ShapeOf(fields[i]))
  }

  /** What is written reads back. */
  lemma {:induction false} ReadsBack(fields: seq<Field>)
    requires forall i :: 0 <= i < |fields| ==> Readable(fields[i])
    ensures ReadFields(Shapes(fields), WriteFields(fields)) == Some(fields)
  {
    if fields != [] {
      var first, later := fields[0], fields[1..];
      assert forall i :: 0 <= i < |later| ==> later[i] == fields[i + 1];
      ReadsBack(later);
      ReadsFirst(first, later);
      assert fields == [first] + later;
    }
  }

  lemma ReadsFirst(first: Field, later: seq<Field>)
    requires Readable(first) && ReadFields(Shapes(later), WriteFields(later)) == Some(later)
    ensures ReadFields(Shapes([first] + later), WriteFields([first] + later)) == Some([first] + later)
  {
    var fields := [first] + later;
    assert fields[1..] == later;
    ReadWritten(first, WriteFields(later));
    assert Shapes(fields)[1..] == Shapes(later);
  }

  /** The fields at the front, whatever follows them. */
  function ReadAhead(shapes: seq<Shape>, data: Bytes): (fields: Option<seq<Field>>) {
    if shapes == [] then Some([])
    else match ReadField(shapes[0], data)
      case Short => None
      case Read(f, rest) =>
        match ReadAhead(shapes[1..], rest)
        case None => None
        case Some(fields) => Some([f] + fields)
  }

  lemma {:induction false} ReadsAhead(fields: seq<Field>, rest: Bytes)
    requires forall i :: 0 <= i < |fields| ==> Readable(fields[i])
    ensures ReadAhead(Shapes(fields), WriteFields(fields) + rest) == Some(fields)
  {
    if fields != [] {
      var first, later := fields[0], fields[1..];
      assert forall i :: 0 <= i < |later| ==> later[i] == fields[i + 1];
      ReadsAhead(later, rest);
      FirstAhead(first, later, rest);
      assert fields == [first] + later;
    }
  }

  lemma FirstAhead(first: Field, later: seq<Field>, rest: Bytes)
    requires Readable(first) && ReadAhead(Shapes(later), WriteFields(later) + rest) == Some(later)
    ensures ReadAhead(Shapes([first] + later), WriteFields([first] + later) + rest) == Some([first] + later)
  {
    var fields, tail := [first] + later, WriteFields(later) + rest;
    assert fields[1..] == later;
    Reassociate(WriteField(first), WriteFields(later), rest);
    ReadWritten(first, tail);
    assert Shapes(fields)[1..] == Shapes(later);
    AheadOf(Shapes(fields), WriteField(first) + tail, first, tail, later);
  }

  lemma Reassociate(a: Bytes, b: Bytes, c: Bytes)
    ensures (a + b) + c == a + (b + c)
  {
  }

  lemma AheadOf(shapes: seq<Shape>, data: Bytes, first: Field, rest: Bytes, later: seq<Field>)
    requires shapes != [] && ReadField(shapes[0], data) == Read(first, rest) &&
             ReadAhead(shapes[1..], rest) == Some(later)
    ensures ReadAhead(shapes, data) == Some([first] + later)
  {
  }

  /** The encoding is canonical: only what would be written for the result is accepted. */
  lemma {:induction false} ReadsOnlyWritten(shapes: seq<Shape>, data: Bytes)
    requires ReadFields(shapes, data).Some?
    ensures WriteFields(ReadFields(shapes, data).value) == data && Shapes(ReadFields(shapes, data).value) == shapes
    ensures forall f :: f in ReadFields(shapes, data).value ==> Readable(f)
  {
    if shapes != [] {
      WrittenRead(shapes[0], data);
      var r := ReadField(shapes[0], data);
      ReadsOnlyWritten(shapes[1..], r.rest);
      var fields := ReadFields(shapes, data).value;
      assert fields[1..] == ReadFields(shapes[1..], r.rest).value;
      assert shapes == [shapes[0]] + shapes[1..];
    }
  }

  // ---- The reader object ----

  /** Reads advance an offset; the first failure sticks and every later read yields nothing. */
  class ByteReader {
    const data: Bytes
    var offset: nat
    var failed: bool

    constructor (data: Bytes)
      ensures this.data == data && offset == 0 && !failed
    {
      this.data := data;
      offset, failed := 0, false;
    }

    ghost predicate Valid()
      reads this
    {
      offset <= |data|
    }

    method Ensure(count: nat) returns (ok: bool)
      requires Valid()
      modifies this`failed
      ensures ok <==> !old(failed) && count <= |data| - offset
      ensures failed == (old(failed) || !ok)
    {
      if failed {
        return false;
      }
      if count > |data| - offset {
        failed := true;
        return false;
      }
      ok := true;
    }

    method Number(width: nat) returns (value: nat)
      requires Valid()
      modifies this
      ensures Valid()
      ensures failed <==> old(failed) || width > |data| - old(offset)
      ensures if failed then offset == old(offset) && value == 0
              else offset == old(offset) + width && value == LoadLE(data[old(offset)..offset])
    {
      var ok := Ensure(width);
      if !ok {
        return 0;
      }
      value := LoadLE(data[offset..offset + width]);
      offset := offset + width;
    }

    method TextField() returns (text: Bytes)
      requires Valid()
      modifies this
      ensures Valid()
      ensures !old(failed) ==>
                match ReadField(TextShape, data[old(offset)..])
                case Short => failed
                case Read(f, rest) => !failed && f == Text(text) && rest == data[offset..]
      ensures old(failed) ==> failed
    {
      ghost var start := offset;
      var length := Number(4);
      if failed {
        return [];
      }
      assert data[start..][..4] == data[start..offset];
      if length > ELEMENT_LIMIT {
        failed := true;
        return [];
      }
      var ok := Ensure(length);
      if !ok {
        return [];
      }
      text := data[offset..offset + length];
      assert data[start..][4..4 + length] == text;
      offset := offset + length;
      assert data[start..][4 + length..] == data[offset..];
    }

    method NextField(shape: Shape) returns (field: Field)
      requires Valid()
      modifies this
      ensures Valid()
      ensures !old(failed) ==>
                match ReadField(shape, data[old(offset)..])
                case Short => failed
                case Read(f, rest) => !failed && f == field && rest == data[offset..]
      ensures old(failed) ==> failed
    {
      ghost var start := offset;
      match shape
      case SmallShape =>
        var ok := Ensure(1);
        if !ok {
          return Small(0);
        }
        field := Small(data[offset]);
        offset := offset + 1;
        assert data[start..][1..] == data[offset..];
      case HalfShape =>
        var value := Number(2);
        if failed {
          return Half(0);
        }
        assert data[start..][..2] == data[start..offset] && data[start..][2..] == data[offset..];
        TwoBytes(data[start..offset]);
        field := Half(value);
      case WideShape =>
        var value := Number(8);
        if failed {
          return Wide(0);
        }
        assert data[start..][..8] == data[start..offset] && data[start..][8..] == data[offset..];
        EightBytes(data[start..offset]);
        field := Wide(value);
      case TextShape =>
        var text := TextField();
        field := Text(text);
    }

    /** A whole payload: every field, then the end. */
    method All(shapes: seq<Shape>) returns (fields: Option<seq<Field>>)
      requires Valid() && offset == 0 && !failed
      modifies this
      ensures fields == ReadFields(shapes, data)
    {
      var found: seq<Field> := [];
      assert data[0..] == data && shapes[0..] == shapes;
      PrependNothing(ReadFields(shapes, data));
      for i := 0 to |shapes|
        invariant Valid() && |found| == i
        invariant failed ==> ReadFields(shapes, data).None?
        invariant !failed ==> ReadFields(shapes, data) == Prepend(found, ReadFields(shapes[i..], data[offset..]))
      {
        assert shapes[i..][1..] == shapes[i + 1..];
        ghost var start := offset;
        var field := NextField(shapes[i]);
        if !failed {
          PrependNext(found, field, shapes[i..], data[start..]);
        }
        found := found + [field];
      }
      if failed || offset != |data| {
        return None;
      }
      assert shapes[|shapes|..] == [] && found + [] == found;
      fields := Some(found);
    }
  }

  function Prepend(found: seq<Field>, more: Option<seq<Field>>): (all: Option<seq<Field>>) {
    match more
    case None => None
    case Some(fields) => Some(found + fields)
  }

  lemma PrependNothing(more: Option<seq<Field>>)
    ensures Prepend([], more) == more
  {
    if more.Some? {
      assert [] + more.value == more.value;
    }
  }

  lemma PrependNext(found: seq<Field>, field: Field, shapes: seq<Shape>, data: Bytes)
    requires shapes != [] && ReadField(shapes[0], data).Read? && ReadField(shapes[0], data).field == field
    ensures Prepend(found, ReadFields(shapes, data))
         == Prepend(found + [field], ReadFields(shapes[1..], ReadField(shapes[0], data).rest))
  {
    var more := ReadFields(shapes[1..], ReadField(shapes[0], data).rest);
    if more.Some? {
      assert found + ([field] + more.value) == (found + [field]) + more.value;
    }
  }
}
