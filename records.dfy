/** The record reader `decodeTNEFObject` (src/parse.js:197-233, copied
    unchanged at src/commands/parse.js:268-303), the attribute identifiers
    both variants switch on, and the walk of the record stream that both
    `Decode` loops perform. */
module Records {
  import opened Wrappers
  import opened Util

  /** The TNEF signature, read little-endian from the first four bytes. */
  const TNEF_SIGNATURE: nat := 0x223e9f78
  const LVL_MESSAGE: nat := 0x01
  const LVL_ATTACHMENT: nat := 0x02

  // The `Attribute` table: identifiers carried in a record's Name field.
  const ATTOWNER: nat := 0x0000
  const ATTSENTFOR: nat := 0x0001
  const ATTDELEGATE: nat := 0x0002
  const ATTDATESTART: nat := 0x0006
  const ATTDATEEND: nat := 0x0007
  const ATTAIDOWNER: nat := 0x0008
  const ATTREQUESTRES: nat := 0x0009
  const ATTFROM: nat := 0x8000
  const ATTSUBJECT: nat := 0x8004
  const ATTDATESENT: nat := 0x8005
  const ATTDATERECD: nat := 0x8006
  const ATTMESSAGESTATUS: nat := 0x8007
  const ATTMESSAGECLASS: nat := 0x8008
  const ATTMESSAGEID: nat := 0x8009
  const ATTPARENTID: nat := 0x800a
  const ATTCONVERSATIONID: nat := 0x800b
  const ATTBODY: nat := 0x800c
  const ATTPRIORITY: nat := 0x800d
  const ATTATTACHDATA: nat := 0x800f
  const ATTATTACHTITLE: nat := 0x8010
  const ATTATTACHMETAFILE: nat := 0x8011
  const ATTATTACHCREATEDATE: nat := 0x8012
  const ATTATTACHMODIFYDATE: nat := 0x8013
  const ATTDATEMODIFY: nat := 0x8020
  const ATTATTACHTRANSPORTFILENAME: nat := 0x9001
  const ATTATTACHRENDDATA: nat := 0x9002
  const ATTMAPIPROPS: nat := 0x9003
  const ATTRECIPTABLE: nat := 0x9004
  const ATTATTACHMENT: nat := 0x9005
  const ATTTNEFVERSION: nat := 0x9006
  const ATTOEMCODEPAGE: nat := 0x9007
  const ATTORIGNINALMESSAGECLASS: nat := 0x9008

  /** The object decodeTNEFObject returns. The numeric fields are `None`
      when they were read as NaN; `Length` is the number of bytes the
      caller advances by. */
  datatype TnefObject = TnefObject(
    Level: Option<nat>,
    Name: Option<nat>,
    Type: Option<nat>,
    Data: seq<Cell>,
    Length: nat)

  /** The widths of the header fields, in the order decodeTNEFObject reads
      them: level, name, type and data length. */
  const HEADER: seq<nat> := [1, 2, 2, 4]

  /** Little-endian fields of the given widths, read one after the other
      from `offset` as processBytesToInteger reads each of them. */
  function ReadFields(widths: seq<nat>, data: seq<Cell>, offset: nat): (r: seq<Option<nat>>)
    ensures |r| == |widths|
  {
    if widths == [] then []
    else [IntegerAt(data, offset, widths[0])] + ReadFields(widths[1..], data, offset + widths[0])
  }

  /** The header fields sit at offsets 0, 1, 3 and 5 of the record. */
  lemma HeaderFields(data: seq<Cell>, offset: nat)
    ensures ReadFields(HEADER, data, offset) == [IntegerAt(data, offset, 1), IntegerAt(data, offset + 1, 2),
      IntegerAt(data, offset + 3, 2), IntegerAt(data, offset + 5, 4)]
  {
    var ws: seq<nat> := [2, 2, 4];
    assert HEADER[1..] == ws && ws[1..] == [2, 4] && ws[1..][1..] == [4] && ws[1..][1..][1..] == [];
    assert ReadFields([4], data, offset + 5) == [IntegerAt(data, offset + 5, 4)];
    assert ReadFields([2, 4], data, offset + 3) == [IntegerAt(data, offset + 3, 2), IntegerAt(data, offset + 5, 4)];
    assert ReadFields(ws, data, offset + 1) ==
      [IntegerAt(data, offset + 1, 2), IntegerAt(data, offset + 3, 2), IntegerAt(data, offset + 5, 4)];
  }

  /** The record decodeTNEFObject reads from the array `data` when its
      fields start at `offset`: the header fields, then the data (taken
      only when the whole array is longer than the header plus the
      declared length), then two skipped checksum bytes. decodeTNEFObject
      itself reads at offset 0. */
  function ReadRecord(data: seq<Cell>, offset: nat): (obj: TnefObject)
    ensures obj.Length >= 11
  {
    var fields := ReadFields(HEADER, data, offset);
    var attLength := fields[3];
    if attLength.Some? && |data| > 9 + attLength.value
    then TnefObject(fields[0], fields[1], fields[2], Slice(data, offset + 9, attLength.value), 11 + attLength.value)
    else TnefObject(fields[0], fields[1], fields[2], [], 11)
  }

  /** The layout the reader assumes: a record consumes its 11 header and
      checksum bytes plus its data, which is the declared number of slots
      from byte 9 when the whole array is longer than header plus declared
      length, and nothing otherwise. */
  lemma ReadRecordLayout(data: seq<Cell>, offset: nat)
    ensures var obj := ReadRecord(data, offset);
      var declared := IntegerAt(data, offset + 5, 4);
      && |obj.Data| == obj.Length - 11
      && obj.Data == Slice(data, offset + 9, |obj.Data|)
      && (if declared.Some? && |data| > 9 + declared.value
          then obj.Length == 11 + declared.value
          else obj.Length == 11)
  {
    HeaderFields(data, offset);
  }

  /** decodeTNEFObject, advancing its local offset field by field. */
  method DecodeTnefObject(data: seq<Cell>) returns (obj: TnefObject)
    ensures obj == ReadRecord(data, 0)
  {
    var offset := 0;
    var level := ProcessBytesToInteger(data, offset, 1);
    offset := offset + 1;
    var name := ProcessBytesToInteger(data, offset, 2);
    offset := offset + 2;
    var typ := ProcessBytesToInteger(data, offset, 2);
    offset := offset + 2;
    var attLength := ProcessBytesToInteger(data, offset, 4);
    offset := offset + 4;
    var objData: seq<Cell>;
    if attLength.Some? && |data| > offset + attLength.value {
      objData := ProcessBytes(data, offset, attLength.value);
      offset := offset + attLength.value;
    } else {
      objData := [];
    }
    offset := offset + 2;
    obj := TnefObject(level, name, typ, objData, offset);
    HeaderFields(data, 0);
  }

  /** Every slot of the padded copy `processBytes(data, offset, data.length)`
      is the slot of `data` it was copied from, or undefined like it. */
  lemma AtPadded(data: seq<Cell>, offset: nat, j: nat)
    ensures At(Slice(data, offset, |data|), j) == At(data, offset + j)
  {
  }

  lemma {:induction false} IntegerAtPadded(data: seq<Cell>, offset: nat, k: nat, length: nat)
    ensures IntegerAt(Slice(data, offset, |data|), k, length) == IntegerAt(data, offset + k, length)
    decreases length
  {
    if length > 0 {
      AtPadded(data, offset, k);
      IntegerAtPadded(data, offset, k + 1, length - 1);
    }
  }

  /** The header read from the padded copy is the header read in place. */
  lemma HeaderPadded(data: seq<Cell>, offset: nat)
    ensures ReadFields(HEADER, Slice(data, offset, |data|), 0) == ReadFields(HEADER, data, offset)
  {
    HeaderFields(Slice(data, offset, |data|), 0);
    HeaderFields(data, offset);
    IntegerAtPadded(data, offset, 0, 1);
    IntegerAtPadded(data, offset, 1, 2);
    IntegerAtPadded(data, offset, 3, 2);
    IntegerAtPadded(data, offset, 5, 4);
  }

  /** Reading the padded copy from its start is reading the buffer in place
      at `offset`: the copy has the buffer's length, so the truncation test
      compares the declared length with the whole buffer either way. */
  lemma ReadPadded(data: seq<Cell>, offset: nat)
    ensures ReadRecord(Slice(data, offset, |data|), 0) == ReadRecord(data, offset)
  {
    var t := Slice(data, offset, |data|);
    HeaderPadded(data, offset);
    var attLength := ReadFields(HEADER, data, offset)[3];
    if attLength.Some? && |t| > 9 + attLength.value {
      forall j | 0 <= j < attLength.value
        ensures Slice(t, 9, attLength.value)[j] == Slice(data, offset + 9, attLength.value)[j]
      {
        AtPadded(data, offset, 9 + j);
      }
    }
  }

  /** The records both Decode loops read from `offset` on: each is read
      from the array `processBytes(data, offset, data.length)` (the rest of
      the buffer, padded with undefined to the full length), which is
      reading in place, and the next one starts `Length` bytes later. */
  function RecordsFrom(data: seq<Cell>, offset: nat): seq<TnefObject>
    decreases |data| - offset
  {
    if offset < |data| then
      var obj := ReadRecord(data, offset);
      [obj] + RecordsFrom(data, offset + obj.Length)
    else []
  }

  /** One read of a Decode loop: `processBytes(data, offset, data.length)`
      then decodeTNEFObject on it; the record read is the first of those
      from `offset` on, and the rest follow from `offset + obj.Length`. */
  method ReadNext(data: seq<Cell>, offset: nat) returns (obj: TnefObject)
    requires offset < |data|
    ensures obj.Length >= 11
    ensures RecordsFrom(data, offset) == [obj] + RecordsFrom(data, offset + obj.Length)
  {
    var tempData := ProcessBytes(data, offset, |data|);
    obj := DecodeTnefObject(tempData);
    ReadPadded(data, offset);
  }

  /** The offsets at which those records are read. */
  function OffsetsFrom(data: seq<Cell>, offset: nat): seq<nat>
    decreases |data| - offset
  {
    if offset < |data| then
      var obj := ReadRecord(data, offset);
      [offset] + OffsetsFrom(data, offset + obj.Length)
    else []
  }

  /** Forward progress of a walk over a buffer of `n` bytes that starts at
      `offset`: one offset per record, the first at `offset`, all inside
      the buffer, each exactly its predecessor's Length further on, so at
      least 11 bytes further. */
  ghost predicate Advancing(offs: seq<nat>, recs: seq<TnefObject>, offset: nat, n: nat)
  {
    && |offs| == |recs|
    && (offset < n <==> |offs| > 0)
    && (|offs| > 0 ==> offs[0] == offset)
    && (forall i :: 0 <= i < |offs| ==> offset <= offs[i] < n)
    && (forall i :: 0 <= i < |offs| - 1 ==> offs[i + 1] == offs[i] + recs[i].Length >= offs[i] + 11)
  }

  lemma AdvancingCons(offs: seq<nat>, recs: seq<TnefObject>, offset: nat, obj: TnefObject, n: nat)
    requires offset < n && obj.Length >= 11
    requires Advancing(offs, recs, offset + obj.Length, n)
    ensures Advancing([offset] + offs, [obj] + recs, offset, n)
  {
    var offs' := [offset] + offs;
    var recs' := [obj] + recs;
    forall i | 0 <= i < |offs'| - 1
      ensures offs'[i + 1] == offs'[i] + recs'[i].Length >= offs'[i] + 11
    {
      if i > 0 {
        assert offs'[i + 1] == offs[i] && offs'[i] == offs[i - 1] && recs'[i] == recs[i - 1];
      }
    }
  }

  /** The offsets the loop reads at advance through the buffer. */
  lemma {:induction false} OffsetsAdvance(data: seq<Cell>, offset: nat)
    ensures Advancing(OffsetsFrom(data, offset), RecordsFrom(data, offset), offset, |data|)
    decreases |data| - offset
  {
    if offset < |data| {
      var obj := ReadRecord(data, offset);
      OffsetsAdvance(data, offset + obj.Length);
      AdvancingCons(OffsetsFrom(data, offset + obj.Length), RecordsFrom(data, offset + obj.Length),
        offset, obj, |data|);
    }
  }

  /** Every record consumes at least 11 bytes, so a buffer of `n` bytes
      past the starting offset holds at most (n + 10) / 11 records: the
      loop terminates. */
  lemma {:induction false} RecordCountBound(data: seq<Cell>, offset: nat)
    ensures offset >= |data| ==> RecordsFrom(data, offset) == []
    ensures offset < |data| ==> 11 * |RecordsFrom(data, offset)| <= |data| - offset + 10
    decreases |data| - offset
  {
    if offset < |data| {
      var obj := ReadRecord(data, offset);
      RecordCountBound(data, offset + obj.Length);
    }
  }

  /** A 40-byte buffer whose record at offset 20 declares 20 data bytes
      when only 11 remain after its header. */
  function TruncatedExample(): (data: seq<Cell>)
    ensures |data| == 40
  {
    seq(40, i => if i == 25 then Some(20) else Some(0))
  }

  /** The quirk of passing `data.length` as the slice length: the reader
      compares the declared length with the length of the whole buffer, not
      with the bytes left, so a record near the end comes back with its
      declared number of slots, the last ones undefined. */
  lemma TruncatedRecordKeepsUndefined()
    ensures var obj := ReadRecord(TruncatedExample(), 20);
      obj.Length == 31 && |obj.Data| == 20 && obj.Data[19].None?
  {
    var d := TruncatedExample();
    HeaderFields(d, 20);
    assert IntegerAt(d, 28, 1) == Some(0);
    assert IntegerAt(d, 27, 2) == Some(0);
    assert IntegerAt(d, 26, 3) == Some(0);
    assert IntegerAt(d, 25, 4) == Some(20);
  }

  // ----- The encoder: the partner the reader's layout is checked against -----

  /** The fields of one record as a producer writes them. */
  datatype RecordFields = RecordFields(level: byte, name: nat, typ: nat, payload: seq<byte>, checksum: nat)

  predicate WellFormed(f: RecordFields)
  {
    f.name < 0x1_0000 && f.typ < 0x1_0000 && |f.payload| < 0x1_0000_0000 && f.checksum < 0x1_0000
  }

  /** Level, Name, Type, Length (all little-endian), data, checksum. */
  function EncodeRecord(f: RecordFields): (r: seq<byte>)
    ensures |r| == 11 + |f.payload|
  {
    [f.level] + Encode(f.name, 2) + Encode(f.typ, 2) + Encode(|f.payload|, 4) + f.payload + Encode(f.checksum, 2)
  }

  /** The object a reader should report for an encoded record. */
  function Expected(f: RecordFields): TnefObject
  {
    TnefObject(Some(f.level), Some(f.name), Some(f.typ), Lift(f.payload), 11 + |f.payload|)
  }

  lemma SliceOfLifted(prefix: seq<Cell>, a: seq<byte>, rest: seq<Cell>, off: nat, len: nat)
    requires off + len <= |a|
    ensures Slice(prefix + Lift(a) + rest, |prefix| + off, len) == Lift(a[off..off + len])
  {
    var sl := Slice(prefix + Lift(a) + rest, |prefix| + off, len);
    assert forall i :: 0 <= i < len ==> sl[i] == Some(a[off + i]);
  }

  /** A field written as `len` little-endian bytes at `off` reads back as
      its value, whatever surrounds the bytes. */
  lemma FieldOf(prefix: seq<Cell>, a: seq<byte>, rest: seq<Cell>, off: nat, len: nat, v: nat)
    requires off + len <= |a| && v < Pow256(len)
    requires a[off..off + len] == Encode(v, len)
    ensures IntegerAt(prefix + Lift(a) + rest, |prefix| + off, len) == Some(v)
  {
    IntegerAtIsLittleEndian(prefix + Lift(a) + rest, |prefix| + off, len);
    SliceOfLifted(prefix, a, rest, off, len);
    LittleEndianOfEncode(v, len);
  }

  /** Where each field of an encoded record sits. */
  lemma EncodeRecordLayout(f: RecordFields)
    ensures var e := EncodeRecord(f); var n := |f.payload|;
      && e[0..1] == Encode(f.level, 1)
      && e[1..3] == Encode(f.name, 2)
      && e[3..5] == Encode(f.typ, 2)
      && e[5..9] == Encode(n, 4)
      && e[9..9 + n] == f.payload
  {
    var e := EncodeRecord(f);
    assert Encode(f.level, 1) == [f.level];
    assert e == [f.level] + Encode(f.name, 2) + Encode(f.typ, 2) + Encode(|f.payload|, 4) + f.payload + Encode(f.checksum, 2);
  }

  /** The header of an encoded record reads back as the fields written. */
  lemma EncodedHeader(prefix: seq<Cell>, f: RecordFields, rest: seq<Cell>)
    requires WellFormed(f)
    ensures ReadFields(HEADER, prefix + Lift(EncodeRecord(f)) + rest, |prefix|)
      == [Some(f.level), Some(f.name), Some(f.typ), Some(|f.payload|)]
  {
    var e := EncodeRecord(f);
    HeaderFields(prefix + Lift(e) + rest, |prefix|);
    EncodeRecordLayout(f);
    assert Pow256(1) == 0x100 && Pow256(2) == 0x1_0000 && Pow256(4) == 0x1_0000_0000;
    FieldOf(prefix, e, rest, 0, 1, f.level);
    FieldOf(prefix, e, rest, 1, 2, f.name);
    FieldOf(prefix, e, rest, 3, 2, f.typ);
    FieldOf(prefix, e, rest, 5, 4, |f.payload|);
  }

  /** Reading an encoded record, whatever precedes and follows it, gives
      back its level, name, type and payload, and consumes exactly its
      bytes. */
  lemma ReadEncodedRecord(prefix: seq<Cell>, f: RecordFields, rest: seq<Cell>)
    requires WellFormed(f)
    ensures ReadRecord(prefix + Lift(EncodeRecord(f)) + rest, |prefix|) == Expected(f)
  {
    var e := EncodeRecord(f);
    EncodedHeader(prefix, f, rest);
    EncodeRecordLayout(f);
    SliceOfLifted(prefix, e, rest, 9, |f.payload|);
  }

  /** The records of a stream, back to back. */
  function EncodeRecords(fs: seq<RecordFields>): seq<byte>
  {
    if fs == [] then [] else EncodeRecord(fs[0]) + EncodeRecords(fs[1..])
  }

  /** A whole stream: signature, the 2-byte key, then the records. */
  function EncodeStream(key: nat, fs: seq<RecordFields>): seq<byte>
  {
    Encode(TNEF_SIGNATURE, 4) + Encode(key, 2) + EncodeRecords(fs)
  }

  function ExpectedAll(fs: seq<RecordFields>): (r: seq<TnefObject>)
    ensures |r| == |fs|
    ensures forall i :: 0 <= i < |fs| ==> r[i] == Expected(fs[i])
  {
    seq(|fs|, i requires 0 <= i < |fs| => Expected(fs[i]))
  }

  /** One step of the walk: the record read at `offset`, then the records
      from the end of it on. */
  lemma RecordsStep(data: seq<Cell>, offset: nat, obj: TnefObject, next: nat)
    requires offset < |data| && ReadRecord(data, offset) == obj
    requires next == offset + obj.Length
    ensures RecordsFrom(data, offset) == [obj] + RecordsFrom(data, next)
  {
  }

  lemma Reassociate(a: seq<Cell>, b: seq<Cell>, c: seq<Cell>)
    ensures a + (b + c) == (a + b) + c
  {
  }

  /** The first record of an encoded run is read back, and the walk goes on
      right after it. */
  lemma EncodedHead(prefix: seq<Cell>, fs: seq<RecordFields>)
    requires fs != [] && WellFormed(fs[0])
    ensures var e := Lift(EncodeRecord(fs[0]));
      RecordsFrom(prefix + Lift(EncodeRecords(fs)), |prefix|)
        == [Expected(fs[0])] + RecordsFrom((prefix + e) + Lift(EncodeRecords(fs[1..])), |prefix + e|)
  {
    var e := Lift(EncodeRecord(fs[0]));
    var tail := Lift(EncodeRecords(fs[1..]));
    assert EncodeRecords(fs) == EncodeRecord(fs[0]) + EncodeRecords(fs[1..]);
    LiftAppend(EncodeRecord(fs[0]), EncodeRecords(fs[1..]));
    Reassociate(prefix, e, tail);
    ReadEncodedRecord(prefix, fs[0], tail);
    RecordsStep((prefix + e) + tail, |prefix|, Expected(fs[0]), |prefix + e|);
  }

  /** The framing round trip: walking a buffer that holds encoded records
      after any prefix yields exactly those records, in order. */
  lemma {:induction false} RecordsOfEncoding(prefix: seq<Cell>, fs: seq<RecordFields>)
    requires forall i :: 0 <= i < |fs| ==> WellFormed(fs[i])
    ensures RecordsFrom(prefix + Lift(EncodeRecords(fs)), |prefix|) == ExpectedAll(fs)
    decreases |fs|
  {
    if fs == [] {
      assert prefix + Lift(EncodeRecords(fs)) == prefix;
    } else {
      EncodedHead(prefix, fs);
      RecordsOfEncoding(prefix + Lift(EncodeRecord(fs[0])), fs[1..]);
      ExpectedAllCons(fs);
    }
  }

  lemma ExpectedAllCons(fs: seq<RecordFields>)
    requires fs != []
    ensures ExpectedAll(fs) == [Expected(fs[0])] + ExpectedAll(fs[1..])
  {
  }

  /** An encoded stream passes the signature test. */
  lemma EncodedSignature(key: nat, fs: seq<RecordFields>)
    ensures IntegerAt(Lift(EncodeStream(key, fs)), 0, 4) == Some(TNEF_SIGNATURE)
  {
    var s := EncodeStream(key, fs);
    assert s[0..4] == Encode(TNEF_SIGNATURE, 4);
    assert Pow256(4) == 0x1_0000_0000;
    FieldOf([], s, [], 0, 4, TNEF_SIGNATURE);
    assert [] + Lift(s) + [] == Lift(s);
  }

  /** The records of an encoded stream are read from offset 6 on. */
  lemma RecordsOfStream(key: nat, fs: seq<RecordFields>)
    requires key < 0x1_0000
    requires forall i :: 0 <= i < |fs| ==> WellFormed(fs[i])
    ensures RecordsFrom(Lift(EncodeStream(key, fs)), 6) == ExpectedAll(fs)
  {
    var prefix := Encode(TNEF_SIGNATURE, 4) + Encode(key, 2);
    LiftAppend(prefix, EncodeRecords(fs));
    RecordsOfEncoding(Lift(prefix), fs);
  }
}
