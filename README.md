# TNEF decoding engine of trustifi-node-tnef, in Dafny

This project models the decoding engine of trustifi-node-tnef. The engine turns a
TNEF stream (Microsoft's Transport Neutral Encapsulation Format, [MS-OXTNEF]) into a
message object. That object has a subject, the body variants, a message class and
an ordered list of attachments. A stream is laid out as follows:

- a 4-byte signature, 0x223e9f78, read little-endian;
- a 2-byte key;
- attribute records, each made of level (1 byte), name (2), type (2), length (4),
  data (length bytes) and a 2-byte checksum (section 2.1.3 of [MS-OXTNEF]).

The model covers three parts of the repository:

- the byte helpers of `src/util.js`;
- the current engine in `src/parse.js`: `decodeTNEFObject`, `addAttachmentAttr`,
  `Decode` and `parseBuffer`;
- the older copy of the engine in `src/commands/parse.js`: `decodeTNEFObject`,
  `addAttr` and `Decode`.

The two engines are compared in `variants.dfy`.

How JavaScript values are represented:

- A JavaScript array of bytes is a `seq<Cell>`, where `Cell = Option<byte>` and
  `None` stands for `undefined`.
- A number produced by `byteArrayToInt` is an `Option<nat>`, where `None` stands
  for `NaN`.
- `Decode` returns a `Result<Option<...>>`:
  - `Ok(None)` is `null`;
  - `Ok(Some(m))` is a message;
  - `TypeError` is the exception thrown when an attachment-level record arrives
    while no attachment is open, and the code writes to the `null` attachment.
- The message and its attachments are objects (`TnefObjects.Message`,
  `TnefObjects.Attachment`) that the methods update in place. Each has a
  `Value()` function, and every method is proved against a function on those
  values:
  - `Parse.DecodeSpec` and `Parse.Assemble` for the message;
  - `Parse.AddAttachmentAttrSpec` and `Parse.MergeProps` for an attachment.
  - `LegacyParse` has the same functions for the older engine.

Modules and files:

| file | module | models |
|---|---|---|
| `wrappers.dfy` | `Wrappers` | `Option` |
| `util.dfy` | `Util` | `src/util.js` |
| `jsstring.dfy` | `JsString` | `String.prototype.trim`, and the decimal rendering of a number added to a string |
| `mapi.dfy` | `Mapi` | the MAPI decoder and `bytesToString`, as parameters |
| `records.dfy` | `Records` | the constants, `decodeTNEFObject` and the record walk shared by both engines, plus an encoder used as its partner |
| `objects.dfy` | `TnefObjects` | the attachment and message objects |
| `parse.dfy` | `Parse` | `src/parse.js` |
| `legacy.dfy` | `LegacyParse` | `Decode` and `addAttr` of `src/commands/parse.js` |
| `variants.dfy` | `Variants` | where the two engines agree and where they differ |

Points of the code's behaviour that the model keeps as they are:

- **Orphan records throw.** An attachment-level record that arrives before any
  `ATTATTACHRENDDATA` reaches `addAttachmentAttr(obj, null)` and throws a
  `TypeError` as soon as it writes to the attachment (src/parse.js:144-146).
  This happens for ATTATTACHTITLE, for ATTATTACHDATA, and for an ATTATTACHMENT
  whose properties include one the merger writes. The model returns `TypeError`
  in those cases (`Parse.OrphanRecord`, `Parse.OrphanTitleThrows`).
- **Subject is stored raw.** Subject is the record's raw data array
  (src/parse.js:148), neither converted to text nor trimmed.
- **No recursive decoding.** A nested TNEF stream is not decoded; only
  `slice(16)` and the content type are set (src/parse.js:89-96).
- **The record slice is padded.** `Decode` slices the remaining bytes with
  `processBytes(data, offset, data.length)`, and the third argument is a length.
  The slice therefore always has the full buffer length, padded with `undefined`.
  The truncation test in `decodeTNEFObject` compares against that full length,
  so a record's data can run past the end of the buffer and hold `undefined`
  cells (`Records.TruncatedRecordKeepsUndefined`).
- **One copy of `decodeTNEFObject`.** The two copies of `decodeTNEFObject`
  (`src/parse.js:197-233` and `src/commands/parse.js:268-304`) are identical, and
  so are the constants of both files. Both are modelled once, in `Records`.

## Model

| member | source | states |
|---|---|---|
| Util.SliceAppend | src/util.js:20-27 | two consecutive processBytes slices concatenate to the slice of their combined length |
| Util.SliceInside | src/util.js:20-27 | a slice inside the array is the array's own bytes; a slice from past the end holds only undefined cells |
| Util.ArraySliceAt | src/parse.js:90 | cell k of `a.slice(start)` is cell start+k of `a`, also past the end; the slice is empty when `start` is past the end |
| Util.LiftAppend | src/parse.js:51-54 | spreading a concatenation of buffers gives the concatenation of their spreads |
| Util.Encode | src/util.js:7-17 | the partner of byteArrayToInt: k little-endian bytes of n, so exactly k bytes |
| Util.LittleEndian | src/util.js:7-17 | the value byteArrayToInt denotes: Σ bytes[i]·256^i, NaN as soon as one cell is undefined |
| Util.LittleEndianSnoc | src/util.js:11-14 | adding one more byte adds byte·256^len to the sum; an undefined byte makes the sum NaN |
| Util.LittleEndianNaN | src/util.js:12 | the result is NaN if and only if some cell is undefined |
| Util.LittleEndianBound | src/util.js:7-17 | a defined result is below 256^len |
| Util.LittleEndianOfEncode | src/util.js:7-17 | decoding the k-byte encoding of n < 256^k gives back n |
| Util.EncodeOfLittleEndian | src/util.js:7-17 | encoding the value of defined bytes gives back the same bytes |
| Util.ThreeHundred | src/util.js:7-17 | [0x2C, 0x01] reads as 300, and 300 encodes as [0x2C, 0x01] |
| Util.ByteArrayToInt | src/util.js:7-17 | the loop computes Σ bytes[i]·256^i (0 for an empty array), NaN when a cell is undefined |
| Util.ProcessBytes | src/util.js:20-27 | the loop returns exactly `length` cells, cell i being `data[offset+i]` or undefined past the end |
| Util.IntegerAt | src/util.js:30-38 | the value processBytesToInteger(data, offset, length) denotes, cells past the end being undefined |
| Util.IntegerAtIsLittleEndian | src/util.js:30-38 | processBytesToInteger equals byteArrayToInt of processBytes |
| Util.IntegerAtPastEnd | src/util.js:30-38 | reading a field that reaches past the end of the array gives NaN |
| Util.IntegerAtOfArraySlice | src/parse.js:90 | reading at offset k of `d.slice(s)` reads at offset s+k of `d` |
| Util.ProcessBytesToInteger | src/util.js:30-38 | the loop computes processBytesToInteger; NaN if and only if a cell in the range is undefined |
| Util.StripNul | src/util.js:1-4 | `replaceAll('\x00', '')` leaves no NUL and never lengthens the string |
| Util.StripNulAppend | src/util.js:1-4 | stripping distributes over concatenation, so non-NUL characters keep their order |
| Util.StripNulKeepsClean | src/util.js:1-4 | a string without NUL is left unchanged |
| Util.StripNulCounts | src/util.js:1-4 | every non-NUL character keeps its number of occurrences |
| Util.StripNulIdempotent | src/util.js:1-4 | stripping twice is the same as stripping once |
| JsString.Trim | src/parse.js:60 | `trim`: the text between the leading and the trailing run of whitespace |
| JsString.LeadingWhitespace | src/parse.js:60 | the leading run counted by `trim` is all whitespace and maximal |
| JsString.TrailingWhitespace | src/parse.js:60 | the trailing run counted by `trim` is all whitespace and maximal |
| JsString.TrimAddsNothing | src/parse.js:60 | `trim` introduces no character that was not in its input |
| JsString.TrimmedEnds | src/parse.js:60 | a trimmed string is empty or starts and ends with non-whitespace |
| JsString.TrimKeepsClean | src/parse.js:60 | `trim` leaves an already trimmed string unchanged |
| JsString.TrimIdempotent | src/parse.js:60 | trimming twice is the same as trimming once |
| JsString.DecimalString | src/parse.js:79 | the number appended to an OLE tag is rendered as decimal digits with no leading zero, and reading them back gives the number |
| Mapi.BytesToStringAppend | src/parse.js:60 | bytesToString works cell by cell: converting a concatenation concatenates the conversions |
| Mapi.CleanText | src/parse.js:71 | `bytesToString(att.Data).replaceAll('\x00', '')`: the text of a property |
| Mapi.LastData | src/parse.js:153-169 | the data of the last property with a given name, as seen by a loop where the last writer wins |
| Mapi.LastDataCons | src/parse.js:153-169 | the last property with a name is found in the tail when it has one, otherwise it is the head if that has the name |
| Records.ReadFields | src/parse.js:202-216 | the header reader gives one number per field width |
| Records.HeaderFields | src/parse.js:202-216 | Level = 1 byte at 0, Name = 2 bytes at 1, Type = 2 bytes at 3, attLength = 4 bytes at 5, all little-endian |
| Records.ReadRecord | src/parse.js:197-233 | every record consumes at least 11 bytes |
| Records.ReadRecordLayout | src/parse.js:218-230 | when length > 9 + attLength, Data is the attLength cells from 9 and Length = 11 + attLength; otherwise Data is empty and Length = 11 |
| Records.DecodeTnefObject | src/parse.js:197-233 | the step-by-step reader returns the record of the padded slice |
| Records.IntegerAtPadded | src/parse.js:127 | a field read from the padded slice equals the field read in place |
| Records.HeaderPadded | src/parse.js:127 | the header read from the padded slice equals the header read in place |
| Records.ReadPadded | src/parse.js:127-129 | reading a record from `processBytes(data, offset, data.length)` equals reading it at `offset` |
| Records.RecordsFrom | src/parse.js:125-137 | the records the loop reads from offset on, each from the padded slice, the next one Length bytes further |
| Records.ReadNext | src/parse.js:125-137 | reading at offset yields the next record of the walk, which advances by its Length (at least 11) |
| Records.OffsetsFrom | src/parse.js:119-137 | the offsets at which the loop reads those records |
| Records.AdvancingCons | src/parse.js:137 | one step of the walk keeps offsets strictly increasing and inside the buffer |
| Records.OffsetsAdvance | src/parse.js:119-137 | the offsets the loop visits start at 6, increase strictly by each record's Length, and stay below the length |
| Records.RecordCountBound | src/parse.js:125-137 | the walk is empty past the end and has at most (remaining + 10) / 11 records, so the loop terminates |
| Records.TruncatedRecordKeepsUndefined | src/parse.js:218-225 | because the test compares with the full length, that record keeps 20 data cells, the last undefined, and has Length 31 |
| Records.EncodeRecord | src/parse.js:197-233 | the partner of decodeTNEFObject: a record is encoded in 11 bytes plus its payload |
| Records.EncodeRecordLayout | src/parse.js:202-221 | the encoding places level, name, type, length and payload at the offsets the reader uses |
| Records.EncodedHeader | src/parse.js:202-216 | the reader recovers level, name, type and length from an encoded record |
| Records.ReadEncodedRecord | src/parse.js:197-233 | the reader recovers a well-formed encoded record exactly, followed by anything |
| Records.RecordsStep | src/parse.js:129-137 | a record read at offset heads the walk from offset |
| Records.EncodedHead | src/parse.js:125-137 | the walk over encoded records starts with the first encoded record |
| Records.RecordsOfEncoding | src/parse.js:125-137 | walking a sequence of encoded records recovers the records in order |
| Records.EncodedSignature | src/parse.js:108-111 | an encoded stream starts with the TNEF signature |
| Records.RecordsOfStream | src/parse.js:105-137 | walking an encoded stream from offset 6 recovers the encoded records in order |
| TnefObjects.Attachment.constructor | src/parse.js:142 | a new attachment `{}` has no field set |
| TnefObjects.Message.constructor | src/parse.js:121-122 | a new message `{}` has only an empty attachment list |
| TnefObjects.Message.OpenAttachment | src/parse.js:140-143 | pushes one fresh empty attachment; nothing else changes |
| Parse.ClassifyTag | src/parse.js:77-81 | the Tag of a MAPIAttachTag: TNEF, OLE, Mime or Unknown by byte 8; for OLE, byte 9 in decimal when non-zero and " storage" when byte 10 is 1 |
| Parse.HasNestedSignature | src/parse.js:90-91 | the four bytes from 16 of a data object, read from `slice(16)`, are the TNEF signature |
| Parse.Dereferences | src/parse.js:69-97 | the property names whose case writes to the attachment |
| Parse.MergeProp | src/parse.js:69-97 | one callback: ContentId, LongFilename and Extension set their text; MimeTag only when ContentType is falsy; Tag classifies; DataObj sets Content (and the nested type); other names change nothing |
| Parse.MergeProps | src/parse.js:68-98 | the `forEach` over the property list, in order |
| Parse.AddAttachmentAttrSpec | src/parse.js:57-101 | TITLE sets the trimmed NUL-free title, DATA stores the data, ATTACHMENT merges the decoded properties (nothing on a falsy result), other names change nothing |
| Parse.ThrowsOnNull | src/parse.js:57-101 | with a null attachment the call throws exactly for TITLE, DATA, or ATTACHMENT with a property whose case writes |
| Parse.MergeMessageProp | src/parse.js:154-179 | one iteration: the four body fields take the raw data, MessageClass takes the NUL-free text, other names change nothing |
| Parse.MergeMessageProps | src/parse.js:150-181 | the for-of loop over the message properties, in order |
| Parse.ApplyRecord | src/parse.js:139-182 | the if/else chain on one record: RENDDATA opens an attachment, attachment level updates the current one or throws on null, SUBJECT and MAPIPROPS update the message |
| Parse.Assemble | src/parse.js:125-191 | the loop over the records, stopping at the first throw |
| Parse.DecodeSpec | src/parse.js:105-195 | null unless the first four bytes are the signature, otherwise the records from offset 6 assembled into an empty message, or the exception |
| Parse.SetAttachmentProp | src/parse.js:68-97 | one `forEach` callback changes the attachment as MergeProp says |
| Parse.SetAttachmentProps | src/parse.js:68-98 | the `forEach` on an attachment gives MergeProps; on null it throws if and only if some property reaches a branch that writes |
| Parse.AddAttachmentAttr | src/parse.js:57-101 | on an attachment: AddAttachmentAttrSpec; on null: throws exactly when ThrowsOnNull |
| Parse.SetMessageProp | src/parse.js:154-169 | one iteration of the property loop changes the message as MergeMessageProp says; attachments are untouched |
| Parse.SetMessageProps | src/parse.js:150-181 | the property loop gives MergeMessageProps; attachments are untouched |
| Parse.OpenRecord | src/parse.js:140-143 | ATTATTACHRENDDATA appends one fresh empty attachment that becomes current |
| Parse.UpdateLastAttachment | src/parse.js:144-146 | an attachment-level record changes only the last attachment |
| Parse.SetSubject | src/parse.js:147-148 | ATTSUBJECT stores the raw data as Subject |
| Parse.ApplyMessageProps | src/parse.js:149-181 | ATTMAPIPROPS applies the decoded properties, or nothing when decodeMapi gives a falsy value |
| Parse.DispatchRecord | src/parse.js:139-182 | one dispatch gives ApplyRecord; the current attachment stays the last element of Attachments |
| Parse.AssembleOk | src/parse.js:125-191 | a record that applies lets the loop continue from the new message |
| Parse.AssembleThrows | src/parse.js:125-191 | a record that throws ends the decode with the exception |
| Parse.AssembleFrom | src/parse.js:125-191 | one loop iteration takes the remaining work from offset to offset + Length |
| Parse.DecodeStep | src/parse.js:125-191 | one iteration advances the offset and keeps the current attachment last; the remaining result is unchanged |
| Parse.Decode | src/parse.js:105-195 | the loop returns null, throws, or builds the message exactly as DecodeSpec says |
| Parse.ParseBuffer | src/parse.js:51-54 | parseBuffer decodes the spread of the buffer |
| Parse.SignatureGate | src/parse.js:108-114 | Decode returns null if and only if the first four bytes are not the signature |
| Parse.ShortBufferRejected | src/parse.js:108-114 | a buffer shorter than 4 bytes reads as NaN and is rejected |
| Parse.AssembleAppend | src/parse.js:125-191 | assembling two record lists in a row is assembling their concatenation |
| Parse.MessagePropsKeep | src/parse.js:150-181 | the property loop never changes Subject or Attachments |
| Parse.ApplyRecordAttachments | src/parse.js:139-182 | ATTATTACHRENDDATA (at any level) appends exactly one empty attachment; other records keep the count and all but the last attachment; message-level records other than subject and properties change nothing |
| Parse.AssembleAttachments | src/parse.js:125-191 | the attachment count grows by the number of ATTATTACHRENDDATA records, and earlier attachments are never changed afterwards |
| Parse.DecodeAttachmentCount | src/parse.js:105-195 | a decoded message has one attachment per ATTATTACHRENDDATA record |
| Parse.OrphanRecord | src/parse.js:144-146 | with no attachment open, a record throws exactly when ThrowsOnNull; TITLE and DATA always throw; otherwise nothing changes |
| Parse.NestedSignatureInPlace | src/parse.js:90 | the nested-TNEF test reads bytes 16..19 in place and fails on data shorter than 20 |
| Parse.DataObjContent | src/parse.js:89-96 | MAPIAttachDataObj with the signature at 16: Content = Data[16..] and ContentType = 'application/ms-tnef'; otherwise Content = Data |
| Parse.MimeTypeFirstWins | src/parse.js:73-75 | a truthy ContentType is kept; otherwise the first non-empty MIME tag wins (when no data object among them carries a nested stream) |
| Parse.TagClassification | src/parse.js:76-82 | Tag is TNEF, OLE…, Mime or Unknown for byte 8 = 1, 3, 4 or other; " storage" only for OLE with byte 10 = 1 |
| Parse.OleStorageExample | src/parse.js:76-82 | bytes 3, 5, 1 at 8..10 classify as "OLE5 storage" |
| Parse.TitleIsClean | src/parse.js:59-61 | ATTATTACHTITLE sets a Title with no NUL that is already trimmed |
| Parse.MessagePropsLastWins | src/parse.js:153-169 | each raw body field and MessageClass take the last property naming them, or keep their value |
| Parse.MergePropFields | src/parse.js:68-97 | one property sets Cid, LongFilename, Ext and Tag only for its own name, and never Title or Data |
| Parse.AttachmentPropsLastWins | src/parse.js:68-98 | Cid, LongFilename, Ext and Tag take the last property naming them; Title and Data are untouched |
| Parse.AttachmentRecordFields | src/parse.js:57-101 | ATTATTACHDATA stores the data verbatim; ATTATTACHMENT keeps Title and Data; other names change nothing |
| Parse.ClassifyTagNulFree | src/parse.js:76-82 | a tag holds no NUL |
| Parse.MergePropClean | src/parse.js:68-97 | one property keeps every text field NUL-free |
| Parse.MergePropsClean | src/parse.js:68-98 | the merger keeps every text field NUL-free |
| Parse.MessagePropsClean | src/parse.js:153-169 | the property loop keeps MessageClass and the attachments NUL-free |
| Parse.ApplyRecordClean | src/parse.js:139-182 | every dispatch keeps all text fields NUL-free |
| Parse.AssembleClean | src/parse.js:125-191 | the loop keeps all text fields NUL-free |
| Parse.DecodeNulFree | src/parse.js:105-195 | no text field of a decoded message holds a NUL |
| Parse.DecodeEncodedStream | src/parse.js:105-195 | decoding an encoded stream assembles exactly the encoded records |
| Parse.OrphanTitleThrows | src/parse.js:144-146 | a stream whose first record is an attachment title throws |
| Parse.OneAttachmentExample | src/parse.js:140-143 | a stream with one ATTATTACHRENDDATA record decodes to one empty attachment |
| LegacyParse.Dereferences | src/commands/parse.js:156-171 | the property names whose case writes to the attachment; MAPIAttachTag has none |
| LegacyParse.MergeProp | src/commands/parse.js:156-171 | one callback: ContentId, MimeTag, LongFilename and Extension overwrite their text; DataObj stores the data verbatim; other names change nothing |
| LegacyParse.MergeProps | src/commands/parse.js:155-172 | the `forEach` over the property list, in order |
| LegacyParse.AddAttrSpec | src/commands/parse.js:144-175 | TITLE sets the trimmed NUL-free title, DATA stores the data, ATTACHMENT merges the decoded properties, other names change nothing |
| LegacyParse.ThrowsOnNull | src/commands/parse.js:144-175 | with a null attachment the call throws exactly for TITLE, DATA, or ATTACHMENT with a property whose case writes |
| LegacyParse.MergeMessageProp | src/commands/parse.js:246-258 | one iteration: the four body fields take the raw data, other names change nothing |
| LegacyParse.MergeMessageProps | src/commands/parse.js:242-260 | the for-of loop over the message properties, in order |
| LegacyParse.ApplyRecord | src/commands/parse.js:231-261 | the if/else chain on one record, with addAttr and the older property loop |
| LegacyParse.Assemble | src/commands/parse.js:217-262 | the loop over the records, stopping at the first throw |
| LegacyParse.DecodeSpec | src/commands/parse.js:197-266 | null unless the first four bytes are the signature, otherwise the records from offset 6 assembled into an empty message, or the exception |
| LegacyParse.SetAttachmentProp | src/commands/parse.js:155-171 | one `forEach` callback changes the attachment as MergeProp says |
| LegacyParse.SetAttachmentProps | src/commands/parse.js:155-172 | the `forEach` on an attachment gives MergeProps; on null it throws if and only if some property reaches a branch that writes |
| LegacyParse.AddAttr | src/commands/parse.js:144-175 | on an attachment: AddAttrSpec; on null: throws exactly when ThrowsOnNull |
| LegacyParse.SetMessageProp | src/commands/parse.js:246-258 | one iteration of the property loop sets one of the four raw body fields or nothing |
| LegacyParse.SetMessageProps | src/commands/parse.js:242-260 | the property loop gives MergeMessageProps; attachments are untouched |
| LegacyParse.OpenRecord | src/commands/parse.js:232-235 | ATTATTACHRENDDATA appends a fresh empty attachment that becomes current |
| LegacyParse.UpdateLastAttachment | src/commands/parse.js:236-238 | an attachment-level record changes only the last attachment |
| LegacyParse.SetSubject | src/commands/parse.js:239-240 | ATTSUBJECT stores the raw data as Subject |
| LegacyParse.ApplyMessageProps | src/commands/parse.js:241-261 | ATTMAPIPROPS applies the decoded properties, or nothing on a falsy result |
| LegacyParse.DispatchRecord | src/commands/parse.js:231-261 | one dispatch gives ApplyRecord; the current attachment stays the last element |
| LegacyParse.AssembleFrom | src/commands/parse.js:217-262 | one loop iteration takes the remaining work from offset to offset + Length |
| LegacyParse.DecodeStep | src/commands/parse.js:217-262 | one iteration advances the offset and keeps the current attachment last; the remaining result is unchanged |
| LegacyParse.Decode | src/commands/parse.js:197-266 | the loop returns null, throws, or builds the message exactly as DecodeSpec says |
| LegacyParse.SignatureGate | src/commands/parse.js:200-206 | Decode returns null if and only if the first four bytes are not the signature |
| LegacyParse.MergePropFields | src/commands/parse.js:156-171 | one property overwrites ContentType, Content, Cid, LongFilename or Ext for its own name only; never Tag, Title or Data |
| LegacyParse.AttachmentPropsLastWins | src/commands/parse.js:155-172 | ContentType, Content and the text fields take the last property naming them (last writer wins) |
| LegacyParse.MessagePropsLastWins | src/commands/parse.js:245-258 | the four raw body fields take the last property naming them; MessageClass, Subject and Attachments never change |
| LegacyParse.AssembleAttachments | src/commands/parse.js:217-262 | the attachment count grows by the number of ATTATTACHRENDDATA records; earlier attachments never change |
| Variants.MergePropsAgree | src/commands/parse.js:155-172 | on properties without MimeTag, Tag, MessageClass or nested TNEF, both mergers agree |
| Variants.MessagePropsAgree | src/commands/parse.js:245-258 | without MessageClass, both property loops agree |
| Variants.ApplyRecordAgree | src/commands/parse.js:231-261 | on a record whose properties are shared, both dispatches agree |
| Variants.AssembleAgree | src/commands/parse.js:217-262 | on such records, both loops agree |
| Variants.VariantsAgree | src/commands/parse.js:197-266 | both Decodes give the same result when every record's properties are shared |
| Variants.SignatureGatesAgree | src/commands/parse.js:200-206 | both Decodes return null on exactly the same buffers |
| Variants.EraseExactly | src/commands/parse.js:144-175 | two messages erase alike if and only if they agree on every field but MessageClass, ContentType, Tag and Content; erasing keeps those fields, clears the erased ones and is idempotent |
| Variants.MergePropsCorrespond | src/commands/parse.js:155-172 | the two mergers agree on every field but ContentType, Tag and Content |
| Variants.MessagePropsCorrespond | src/commands/parse.js:245-258 | the two property loops agree on everything but MessageClass |
| Variants.ThrowsCorrespond | src/commands/parse.js:144-175 | whenever the older merger throws on null, the current one does too |
| Variants.UpdateLastCorrespond | src/commands/parse.js:236-238 | updating the last attachment keeps the two messages in correspondence |
| Variants.OpenCorrespond | src/commands/parse.js:232-235 | opening an attachment keeps the two messages in correspondence |
| Variants.ApplyRecordCorrespond | src/commands/parse.js:231-261 | an older throw implies a current throw; a current success implies an older success with the same erased message |
| Variants.AssembleCorrespond | src/commands/parse.js:217-262 | the same correspondence holds across the whole loop |
| Variants.DecodeCorrespond | src/commands/parse.js:197-266 | the older Decode throws only where the current one does, and their messages differ only in MessageClass, ContentType, Tag and Content |
| Variants.MimeTagDiffers | src/commands/parse.js:160-162 | the older merger overwrites ContentType; the current one keeps a truthy value, so they differ |
| Variants.NestedTnefDiffers | src/commands/parse.js:169-170 | with a nested signature, the current merger strips 16 bytes and sets the type, while the older one stores Data verbatim |
| Variants.TagOnlyCurrent | src/commands/parse.js:156-171 | the older merger ignores MAPIAttachTag; the current one classifies it |
| Variants.MessageClassOnlyCurrent | src/commands/parse.js:246-258 | the older property loop ignores MAPIMessageClass; the current one stores its text |
| Variants.OrphanTagDiffers | src/commands/parse.js:152-173 | an orphan ATTATTACHMENT holding only a tag throws in the current engine but decodes to an empty message in the older one |

## Left out

- `mapi.decodeMapi`, `mapi.MAPITypes` and `convertString.bytesToString`: these
  external collaborators are parameters (`Mapi.Externals`). `decodeMapi` is an
  arbitrary function from bytes to an optional property list, with `None`
  standing for any falsy result. `bytesToString` is a per-cell character map.
  MAPI names are distinct abstract constants.
- The 2 checksum bytes are skipped and never verified, and `Type` is read but
  never used. The model reads Type too but does not interpret it.
- The `if (!obj)` exit of both loops is dead, because `decodeTNEFObject` always
  returns an object. The model has no such branch.
- Logging (bunyan) has side effects only and is left out.
- The commented-out debug `extra` and `mapi` maps are dead code and are left out.
- `parseBuffer` of `src/commands/parse.js` (a callback wrapper) is left out,
  along with the file and CLI orchestration of that file: `handler`, `builder`,
  `parseOptions`, `parse`, `DecodeFile`, `ProcessDirectory` and `ProcessFile`.
  All of it is fs, Promises and process control.
- JavaScript numbers are modelled as unbounded naturals. The largest value the
  engine forms is four bytes wide, far below 2^53, so doubles behave as integers
  there.
- `parseInt(undefined)` yields NaN, and NaN propagates through `+` and `*`. The
  model keeps exactly that. It does not model `parseInt` on other non-number
  cells, which a byte array never holds.
- `String.prototype.trim` is modelled on the ECMAScript whitespace and
  line-terminator characters. The characters `bytesToString` produces are
  abstract.
- Util.ByteArrayToInt: the `for … in` loop is modelled as visiting the indices
  in order. Enumerable properties added to `Array.prototype` are not modelled.
