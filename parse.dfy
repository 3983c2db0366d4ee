/** The current engine, src/parse.js: the attachment merger
    addAttachmentAttr, the message assembler Decode and its wrapper
    parseBuffer. Each operation is a method over the objects of
    TnefObjects, proved against a function on their values; the lemmas
    below state what the engine promises about those functions. */
module Parse {
  import opened Wrappers
  import opened Util
  import opened JsString
  import opened Mapi
  import opened Records
  import opened TnefObjects

  /** The content type given to an attachment holding a nested TNEF stream. */
  const NESTED_TNEF_TYPE: string := "application/ms-tnef"

  /** A JavaScript value is truthy as a string when it is a non-empty string. */
  predicate Truthy(s: Option<string>)
  {
    s.Some? && s.value != ""
  }

  /** The first word of a MAPIAttachTag classification, from byte 8. */
  function TagKind(kind: Cell): string
  {
    if kind == Some(1) then "TNEF"
    else if kind == Some(3) then "OLE"
    else if kind == Some(4) then "Mime"
    else "Unknown"
  }

  /** For OLE, a non-zero byte 9 in decimal. */
  function OleNumber(d: seq<Cell>): string
  {
    if At(d, 9).Some? && At(d, 9).value != 0 then DecimalString(At(d, 9).value) else ""
  }

  /** For OLE, " storage" when byte 10 is 1. */
  function OleStorage(d: seq<Cell>): string
  {
    if At(d, 10) == Some(1) then " storage" else ""
  }

  /** The MAPIAttachTag classification of the property bytes `d`. */
  function ClassifyTag(d: seq<Cell>): string
  {
    if At(d, 8) == Some(3) then "OLE" + OleNumber(d) + OleStorage(d) else TagKind(At(d, 8))
  }

  /** The test of MAPIAttachDataObj: the four bytes from offset 16 of the
      property, read little-endian, are the TNEF signature. */
  predicate HasNestedSignature(d: seq<Cell>)
  {
    IntegerAt(ArraySlice(d, 16), 0, 4) == Some(TNEF_SIGNATURE)
  }

  /** The property identifiers whose case of the `forEach` callback touches
      the attachment object (and so throws when it is null). */
  predicate Dereferences(n: MapiName)
  {
    n.MAPIAttachContentId? || n.MAPIAttachMimeTag? || n.MAPIAttachTag?
    || n.MAPIAttachLongFilename? || n.MAPIAttachExtension? || n.MAPIAttachDataObj?
  }

  /** One call of the `forEach` callback on an attachment. */
  function MergeProp(a: AttachmentValue, p: MapiProp, env: Externals): AttachmentValue
  {
    match p.Name
    case MAPIAttachContentId => a.(Cid := Some(CleanText(env, p.Data)))
    case MAPIAttachMimeTag =>
      a.(ContentType := if Truthy(a.ContentType) then a.ContentType else Some(CleanText(env, p.Data)))
    case MAPIAttachTag => a.(Tag := Some(ClassifyTag(p.Data)))
    case MAPIAttachLongFilename => a.(LongFilename := Some(CleanText(env, p.Data)))
    case MAPIAttachExtension => a.(Ext := Some(CleanText(env, p.Data)))
    case MAPIAttachDataObj =>
      if HasNestedSignature(p.Data)
      then a.(Content := Some(ArraySlice(p.Data, 16)), ContentType := Some(NESTED_TNEF_TYPE))
      else a.(Content := Some(p.Data))
    case _ => a
  }

  /** The whole `forEach`, property by property. */
  function MergeProps(a: AttachmentValue, ps: seq<MapiProp>, env: Externals): AttachmentValue
    decreases |ps|
  {
    if ps == [] then a else MergeProps(MergeProp(a, ps[0], env), ps[1..], env)
  }

  /** addAttachmentAttr on an attachment object that exists. */
  function AddAttachmentAttrSpec(a: AttachmentValue, obj: TnefObject, env: Externals): AttachmentValue
  {
    if obj.Name == Some(ATTATTACHTITLE) then a.(Title := Some(Trim(CleanText(env, obj.Data))))
    else if obj.Name == Some(ATTATTACHDATA) then a.(Data := Some(obj.Data))
    else if obj.Name == Some(ATTATTACHMENT) then
      match env.decodeMapi(obj.Data)
      case None => a
      case Some(attributes) => MergeProps(a, attributes, env)
    else a
  }

  /** addAttachmentAttr on `null` throws exactly when it reaches a branch
      that touches the attachment. */
  predicate ThrowsOnNull(obj: TnefObject, env: Externals)
  {
    || obj.Name == Some(ATTATTACHTITLE)
    || obj.Name == Some(ATTATTACHDATA)
    || (&& obj.Name == Some(ATTATTACHMENT)
        && env.decodeMapi(obj.Data).Some?
        && exists k :: 0 <= k < |env.decodeMapi(obj.Data).value|
                       && Dereferences(env.decodeMapi(obj.Data).value[k].Name))
  }

  /** One iteration of the `for (let attr of attributes)` loop over the
      message properties. */
  function MergeMessageProp(m: MessageValue, p: MapiProp, env: Externals): MessageValue
  {
    match p.Name
    case MAPIBody => m.(Body := Some(p.Data))
    case MAPIBodyHTML => m.(BodyHTML := Some(p.Data))
    case MAPIBodyPreview => m.(BodyPreview := Some(p.Data))
    case MAPIRtfCompressed => m.(RtfCompressed := Some(p.Data))
    case MAPIMessageClass => m.(MessageClass := Some(CleanText(env, p.Data)))
    case _ => m
  }

  function MergeMessageProps(m: MessageValue, ps: seq<MapiProp>, env: Externals): MessageValue
    decreases |ps|
  {
    if ps == [] then m else MergeMessageProps(MergeMessageProp(m, ps[0], env), ps[1..], env)
  }

  /** One iteration of Decode's loop after the record is read: the current
      attachment is the last one of `Attachments` (none while it is empty). */
  function ApplyRecord(m: MessageValue, obj: TnefObject, env: Externals): Result<MessageValue>
  {
    if obj.Name == Some(ATTATTACHRENDDATA) then
      Ok(m.(Attachments := m.Attachments + [EmptyAttachment]))
    else if obj.Level == Some(LVL_ATTACHMENT) then
      if m.Attachments == [] then
        (if ThrowsOnNull(obj, env) then TypeError else Ok(m))
      else
        var last := |m.Attachments| - 1;
        Ok(m.(Attachments := m.Attachments[last := AddAttachmentAttrSpec(m.Attachments[last], obj, env)]))
    else if obj.Name == Some(ATTSUBJECT) then
      Ok(m.(Subject := Some(obj.Data)))
    else if obj.Name == Some(ATTMAPIPROPS) then
      match env.decodeMapi(obj.Data)
      case None => Ok(m)
      case Some(attributes) => Ok(MergeMessageProps(m, attributes, env))
    else Ok(m)
  }

  /** Decode's loop over a sequence of records. */
  function Assemble(rs: seq<TnefObject>, m: MessageValue, env: Externals): Result<MessageValue>
  {
    if rs == [] then Ok(m)
    else match ApplyRecord(m, rs[0], env)
      case TypeError => TypeError
      case Ok(m') => Assemble(rs[1..], m', env)
  }

  /** Decode: `null` (Ok(None)) unless the buffer starts with the signature,
      otherwise the message assembled from the records from offset 6 on. */
  function DecodeSpec(data: seq<Cell>, env: Externals): Result<Option<MessageValue>>
  {
    if IntegerAt(data, 0, 4) != Some(TNEF_SIGNATURE) then Ok(None)
    else match Assemble(RecordsFrom(data, 6), EmptyMessage, env)
      case TypeError => TypeError
      case Ok(m) => Ok(Some(m))
  }

  // ----- The methods -----

  /** The `forEach` callback of addAttachmentAttr. */
  method SetAttachmentProp(attachment: Attachment, att: MapiProp, env: Externals)
    modifies attachment
    ensures attachment.Value() == MergeProp(old(attachment.Value()), att, env)
  {
    match att.Name {
      case MAPIAttachContentId =>
        attachment.Cid := Some(StripNul(BytesToString(env, att.Data)));
      case MAPIAttachMimeTag =>
        attachment.ContentType :=
          if Truthy(attachment.ContentType) then attachment.ContentType
          else Some(StripNul(BytesToString(env, att.Data)));
      case MAPIAttachTag =>
        var kind := At(att.Data, 8);
        attachment.Tag := Some(TagKind(kind));
        if kind == Some(3) {
          if At(att.Data, 9).Some? && At(att.Data, 9).value != 0 {
            attachment.Tag := Some(attachment.Tag.value + DecimalString(At(att.Data, 9).value));
          }
          assert "OLE" + "" == "OLE";
          assert attachment.Tag == Some("OLE" + OleNumber(att.Data));
          if At(att.Data, 10) == Some(1) {
            attachment.Tag := Some(attachment.Tag.value + " storage");
          } else {
            assert "OLE" + OleNumber(att.Data) + "" == "OLE" + OleNumber(att.Data);
          }
          assert attachment.Tag == Some("OLE" + OleNumber(att.Data) + OleStorage(att.Data));
        }
      case MAPIAttachLongFilename =>
        attachment.LongFilename := Some(StripNul(BytesToString(env, att.Data)));
      case MAPIAttachExtension =>
        attachment.Ext := Some(StripNul(BytesToString(env, att.Data)));
      case MAPIAttachDataObj =>
        var signature := ProcessBytesToInteger(ArraySlice(att.Data, 16), 0, 4);
        if signature == Some(TNEF_SIGNATURE) {
          attachment.Content := Some(ArraySlice(att.Data, 16));
          attachment.ContentType := Some(NESTED_TNEF_TYPE);
        } else {
          attachment.Content := Some(att.Data);
        }
      case _ =>
    }
  }

  /** The `forEach` over the decoded properties; on a null attachment it
      throws at the first property whose case touches the attachment. */
  method SetAttachmentProps(attachment: Attachment?, atts: seq<MapiProp>, env: Externals) returns (thrown: bool)
    modifies attachment
    ensures attachment == null ==> (thrown <==> exists k :: 0 <= k < |atts| && Dereferences(atts[k].Name))
    ensures attachment != null ==>
      !thrown && attachment.Value() == MergeProps(old(attachment.Value()), atts, env)
  {
    thrown := false;
    var i := 0;
    while i < |atts|
      invariant 0 <= i <= |atts|
      invariant attachment == null ==> forall k :: 0 <= k < i ==> !Dereferences(atts[k].Name)
      invariant attachment != null ==>
        MergeProps(attachment.Value(), atts[i..], env) == MergeProps(old(attachment.Value()), atts, env)
    {
      if attachment == null {
        if Dereferences(atts[i].Name) { return true; }
      } else {
        assert atts[i..] == [atts[i]] + atts[i + 1..];
        SetAttachmentProp(attachment, atts[i], env);
      }
      i := i + 1;
    }
  }

  /** addAttachmentAttr(obj, attachment); `thrown` reports the TypeError
      raised when `attachment` is null. */
  method AddAttachmentAttr(obj: TnefObject, attachment: Attachment?, env: Externals) returns (thrown: bool)
    modifies attachment
    ensures attachment == null ==> thrown == ThrowsOnNull(obj, env)
    ensures attachment != null ==>
      !thrown && attachment.Value() == AddAttachmentAttrSpec(old(attachment.Value()), obj, env)
  {
    thrown := false;
    if obj.Name == Some(ATTATTACHTITLE) {
      if attachment == null { return true; }
      attachment.Title := Some(Trim(StripNul(BytesToString(env, obj.Data))));
    } else if obj.Name == Some(ATTATTACHDATA) {
      if attachment == null { return true; }
      attachment.Data := Some(obj.Data);
    } else if obj.Name == Some(ATTATTACHMENT) {
      var attributes := env.decodeMapi(obj.Data);
      if attributes.Some? {
        thrown := SetAttachmentProps(attachment, attributes.value, env);
      }
    }
  }

  /** One iteration of the `for (let attr of attributes)` loop of Decode's
      ATTMAPIPROPS branch. */
  method SetMessageProp(tnef: Message, attr: MapiProp, env: Externals)
    modifies tnef
    ensures tnef.Attachments == old(tnef.Attachments)
    ensures tnef.Value() == MergeMessageProp(old(tnef.Value()), attr, env)
  {
    match attr.Name {
      case MAPIBody => tnef.Body := Some(attr.Data);
      case MAPIBodyHTML => tnef.BodyHTML := Some(attr.Data);
      case MAPIBodyPreview => tnef.BodyPreview := Some(attr.Data);
      case MAPIRtfCompressed => tnef.RtfCompressed := Some(attr.Data);
      case MAPIMessageClass => tnef.MessageClass := Some(StripNul(BytesToString(env, attr.Data)));
      case _ =>
    }
  }

  /** The `for (let attr of attributes)` loop of Decode's ATTMAPIPROPS branch. */
  method SetMessageProps(tnef: Message, attributes: seq<MapiProp>, env: Externals)
    modifies tnef
    ensures tnef.Attachments == old(tnef.Attachments)
    ensures tnef.Value() == MergeMessageProps(old(tnef.Value()), attributes, env)
  {
    var i := 0;
    while i < |attributes|
      invariant 0 <= i <= |attributes|
      invariant tnef.Attachments == old(tnef.Attachments)
      invariant MergeMessageProps(tnef.Value(), attributes[i..], env)
             == MergeMessageProps(old(tnef.Value()), attributes, env)
    {
      assert attributes[i..] == [attributes[i]] + attributes[i + 1..];
      SetMessageProp(tnef, attributes[i], env);
      i := i + 1;
    }
  }

  /** The ATTATTACHRENDDATA branch of Decode: a new empty attachment
      becomes the current one. */
  method OpenRecord(tnef: Message, obj: TnefObject, env: Externals) returns (current: Attachment)
    requires tnef.Valid()
    requires obj.Name == Some(ATTATTACHRENDDATA)
    modifies tnef
    ensures fresh(current)
    ensures tnef.Attachments == old(tnef.Attachments) + [current]
    ensures tnef.Valid()
    ensures ApplyRecord(old(tnef.Value()), obj, env) == Ok(tnef.Value())
  {
    current := tnef.OpenAttachment();
  }

  /** addAttachmentAttr on the current attachment, the last of `tnef.Attachments`. */
  method UpdateLastAttachment(tnef: Message, attachment: Attachment, obj: TnefObject, env: Externals)
    requires tnef.Valid() && tnef.Attachments != []
    requires attachment == tnef.Attachments[|tnef.Attachments| - 1]
    requires obj.Level == Some(LVL_ATTACHMENT) && obj.Name != Some(ATTATTACHRENDDATA)
    modifies attachment
    ensures ApplyRecord(old(tnef.Value()), obj, env) == Ok(tnef.Value())
  {
    ghost var before := tnef.Value();
    var thrown := AddAttachmentAttr(obj, attachment, env);
    var last := |tnef.Attachments| - 1;
    assert forall k :: 0 <= k < last ==> tnef.Attachments[k] != attachment;
    assert tnef.Value().Attachments ==
      before.Attachments[last := AddAttachmentAttrSpec(before.Attachments[last], obj, env)];
  }

  /** `tnef.Subject = obj.Data` */
  method SetSubject(tnef: Message, obj: TnefObject, env: Externals)
    requires obj.Name == Some(ATTSUBJECT) && obj.Level != Some(LVL_ATTACHMENT)
    modifies tnef
    ensures tnef.Attachments == old(tnef.Attachments)
    ensures ApplyRecord(old(tnef.Value()), obj, env) == Ok(tnef.Value())
  {
    ghost var before := tnef.Value();
    tnef.Subject := Some(obj.Data);
    assert tnef.Value() == before.(Subject := Some(obj.Data));
  }

  /** The ATTMAPIPROPS branch of Decode: the message properties decoded
      from the record, when the decoder returns any. */
  method ApplyMessageProps(tnef: Message, obj: TnefObject, env: Externals)
    requires obj.Name == Some(ATTMAPIPROPS) && obj.Level != Some(LVL_ATTACHMENT)
    modifies tnef
    ensures tnef.Attachments == old(tnef.Attachments)
    ensures ApplyRecord(old(tnef.Value()), obj, env) == Ok(tnef.Value())
  {
    var attributes := env.decodeMapi(obj.Data);
    if attributes.Some? {
      SetMessageProps(tnef, attributes.value, env);
    }
  }

  /** The dispatch that ends each iteration of Decode's loop; `attachment`
      is the current attachment, the last of `tnef.Attachments`. */
  method DispatchRecord(tnef: Message, attachment: Attachment?, obj: TnefObject, env: Externals)
    returns (current: Attachment?, thrown: bool)
    requires tnef.Valid()
    requires attachment == null <==> tnef.Attachments == []
    requires attachment != null ==> attachment == tnef.Attachments[|tnef.Attachments| - 1]
    modifies tnef, attachment
    ensures tnef.Valid()
    ensures forall a :: a in tnef.Attachments ==> a in old(tnef.Attachments) || fresh(a)
    ensures current == null <==> tnef.Attachments == []
    ensures current != null ==> current == tnef.Attachments[|tnef.Attachments| - 1]
    ensures current != null ==> current == attachment || fresh(current)
    ensures thrown <==> ApplyRecord(old(tnef.Value()), obj, env).TypeError?
    ensures !thrown ==> ApplyRecord(old(tnef.Value()), obj, env) == Ok(tnef.Value())
  {
    current, thrown := attachment, false;
    if obj.Name == Some(ATTATTACHRENDDATA) {
      current := OpenRecord(tnef, obj, env);
    } else if obj.Level == Some(LVL_ATTACHMENT) {
      if attachment == null {
        thrown := AddAttachmentAttr(obj, attachment, env);
      } else {
        UpdateLastAttachment(tnef, attachment, obj, env);
      }
    } else if obj.Name == Some(ATTSUBJECT) {
      SetSubject(tnef, obj, env);
    } else if obj.Name == Some(ATTMAPIPROPS) {
      ApplyMessageProps(tnef, obj, env);
    }
  }

  /** A record that applies cleanly hands its result to the rest. */
  lemma AssembleOk(obj: TnefObject, rest: seq<TnefObject>, m: MessageValue, m': MessageValue, env: Externals)
    requires ApplyRecord(m, obj, env) == Ok(m')
    ensures Assemble([obj] + rest, m, env) == Assemble(rest, m', env)
  {
    assert ([obj] + rest)[1..] == rest;
  }

  /** A record that throws ends the assembly with the TypeError. */
  lemma AssembleThrows(obj: TnefObject, rest: seq<TnefObject>, m: MessageValue, env: Externals)
    requires ApplyRecord(m, obj, env).TypeError?
    ensures Assemble([obj] + rest, m, env) == TypeError
  {
  }

  /** The records from `offset` on assemble as the first one applied, then
      the rest from the state `m'` it leaves, unless it throws. */
  lemma AssembleFrom(data: seq<Cell>, offset: nat, obj: TnefObject, m: MessageValue, m': MessageValue,
                     thrown: bool, env: Externals)
    requires RecordsFrom(data, offset) == [obj] + RecordsFrom(data, offset + obj.Length)
    requires thrown <==> ApplyRecord(m, obj, env).TypeError?
    requires !thrown ==> ApplyRecord(m, obj, env) == Ok(m')
    ensures thrown ==> Assemble(RecordsFrom(data, offset), m, env) == TypeError
    ensures !thrown ==> Assemble(RecordsFrom(data, offset), m, env) == Assemble(RecordsFrom(data, offset + obj.Length), m', env)
  {
    var rest := RecordsFrom(data, offset + obj.Length);
    if thrown {
      AssembleThrows(obj, rest, m, env);
    } else {
      AssembleOk(obj, rest, m, m', env);
    }
  }


  /** One turn of Decode's loop: read the record at `offset`, then
      dispatch it; the records from `offset` on assemble to what the
      records from `next` on assemble to from the new state, or throw. */
  method DecodeStep(data: seq<Cell>, offset: nat, tnef: Message, attachment: Attachment?, env: Externals)
    returns (next: nat, current: Attachment?, thrown: bool)
    requires offset < |data|
    requires tnef.Valid()
    requires attachment == null <==> tnef.Attachments == []
    requires attachment != null ==> attachment == tnef.Attachments[|tnef.Attachments| - 1]
    modifies tnef, attachment
    ensures next > offset
    ensures tnef.Valid()
    ensures forall a :: a in tnef.Attachments ==> a in old(tnef.Attachments) || fresh(a)
    ensures current == null <==> tnef.Attachments == []
    ensures current != null ==> current == tnef.Attachments[|tnef.Attachments| - 1]
    ensures current != null ==> current == attachment || fresh(current)
    ensures thrown ==> Assemble(RecordsFrom(data, offset), old(tnef.Value()), env) == TypeError
    ensures !thrown ==>
      Assemble(RecordsFrom(data, offset), old(tnef.Value()), env)
      == Assemble(RecordsFrom(data, next), tnef.Value(), env)
  {
    ghost var m := tnef.Value();
    var obj := ReadNext(data, offset);
    // decodeTNEFObject always returns an object: the `if (!obj)` exit is dead.
    next := offset + obj.Length;
    current, thrown := DispatchRecord(tnef, attachment, obj, env);
    AssembleFrom(data, offset, obj, m, tnef.Value(), thrown, env);
  }

  /** Decode: `Ok(null)` for a buffer without the signature, `TypeError`
      when an attachment-level record reaches a null attachment, otherwise a
      fresh message object whose attachments are distinct fresh objects. */
  method Decode(data: seq<Cell>, env: Externals) returns (r: Result<Message?>)
    ensures r.TypeError? <==> DecodeSpec(data, env).TypeError?
    ensures r.Ok? ==> (r.value == null <==> DecodeSpec(data, env).value.None?)
    ensures r.Ok? && r.value != null ==>
      && fresh(r.value) && r.value.Valid()
      && (forall a :: a in r.value.Attachments ==> fresh(a))
      && r.value.Value() == DecodeSpec(data, env).value.value
  {
    var signature := ProcessBytesToInteger(data, 0, 4);
    if signature != Some(TNEF_SIGNATURE) {
      return Ok(null);
    }
    var offset: nat := 6;
    var attachment: Attachment? := null;
    var tnef := new Message();
    ghost var whole := Assemble(RecordsFrom(data, 6), EmptyMessage, env);
    while offset < |data|
      invariant fresh(tnef) && tnef.Valid()
      invariant forall a :: a in tnef.Attachments ==> fresh(a)
      invariant attachment == null <==> tnef.Attachments == []
      invariant attachment != null ==> attachment == tnef.Attachments[|tnef.Attachments| - 1]
      invariant attachment != null ==> fresh(attachment)
      invariant whole == Assemble(RecordsFrom(data, offset), tnef.Value(), env)
      decreases |data| - offset
    {
      var thrown;
      offset, attachment, thrown := DecodeStep(data, offset, tnef, attachment, env);
      if thrown {
        return TypeError;
      }
    }
    assert RecordsFrom(data, offset) == [];
    return Ok(tnef);
  }

  /** parseBuffer: Decode on the array `[...data]` of the buffer's bytes. */
  method ParseBuffer(data: seq<byte>, env: Externals) returns (r: Result<Message?>)
    ensures r.TypeError? <==> DecodeSpec(Lift(data), env).TypeError?
    ensures r.Ok? ==> (r.value == null <==> DecodeSpec(Lift(data), env).value.None?)
    ensures r.Ok? && r.value != null ==>
      fresh(r.value) && r.value.Value() == DecodeSpec(Lift(data), env).value.value
  {
    var arr := Lift(data);
    r := Decode(arr, env);
  }

  // ----- The signature gate -----

  /** Decode gives null exactly when the first four bytes, read
      little-endian, are not the signature. */
  lemma SignatureGate(data: seq<Cell>, env: Externals)
    ensures DecodeSpec(data, env) == Ok(None) <==> IntegerAt(data, 0, 4) != Some(TNEF_SIGNATURE)
  {
  }

  /** A buffer shorter than four bytes reads as NaN and gives null. */
  lemma ShortBufferRejected(data: seq<Cell>, env: Externals)
    requires |data| < 4
    ensures DecodeSpec(data, env) == Ok(None)
  {
    IntegerAtPastEnd(data, 0, 4);
  }

  // ----- The walk over the records -----

  /** Assembling two runs of records is assembling the first, then the
      second from where the first left the message, unless it threw. */
  lemma {:induction false} AssembleAppend(rs: seq<TnefObject>, more: seq<TnefObject>, m: MessageValue, env: Externals)
    ensures Assemble(rs + more, m, env) ==
      match Assemble(rs, m, env)
      case TypeError => TypeError
      case Ok(m') => Assemble(more, m', env)
    decreases |rs|
  {
    if rs == [] {
      assert rs + more == more;
    } else {
      assert (rs + more)[0] == rs[0] && (rs + more)[1..] == rs[1..] + more;
      match ApplyRecord(m, rs[0], env)
      case TypeError =>
      case Ok(m') => AssembleAppend(rs[1..], more, m', env);
    }
  }

  /** The number of records that open an attachment. */
  function Opened(rs: seq<TnefObject>): nat
  {
    if rs == [] then 0
    else (if rs[0].Name == Some(ATTATTACHRENDDATA) then 1 else 0) + Opened(rs[1..])
  }

  /** The message-property loop touches neither the subject nor the
      attachments. */
  lemma {:induction false} MessagePropsKeep(m: MessageValue, ps: seq<MapiProp>, env: Externals)
    ensures MergeMessageProps(m, ps, env).Subject == m.Subject
    ensures MergeMessageProps(m, ps, env).Attachments == m.Attachments
    decreases |ps|
  {
    if ps != [] {
      MessagePropsKeep(MergeMessageProp(m, ps[0], env), ps[1..], env);
    }
  }

  /** One record: ATTATTACHRENDDATA, at any level, appends exactly one
      empty attachment and changes nothing else; an attachment-level record
      changes only the last attachment; a message-level record leaves the
      attachments alone, and one that is neither ATTSUBJECT nor
      ATTMAPIPROPS leaves the whole message alone. */
  lemma ApplyRecordAttachments(m: MessageValue, obj: TnefObject, env: Externals)
    requires ApplyRecord(m, obj, env).Ok?
    ensures var m' := ApplyRecord(m, obj, env).value;
      && (obj.Name == Some(ATTATTACHRENDDATA) ==>
            m' == m.(Attachments := m.Attachments + [EmptyAttachment]))
      && (obj.Name != Some(ATTATTACHRENDDATA) ==>
            && |m'.Attachments| == |m.Attachments|
            && forall i :: 0 <= i < |m.Attachments| - 1 ==> m'.Attachments[i] == m.Attachments[i])
      && (obj.Name != Some(ATTATTACHRENDDATA) && obj.Level != Some(LVL_ATTACHMENT) ==>
            && m'.Attachments == m.Attachments
            && (obj.Name != Some(ATTSUBJECT) && obj.Name != Some(ATTMAPIPROPS) ==> m' == m))
  {
    if obj.Name != Some(ATTATTACHRENDDATA) && obj.Level != Some(LVL_ATTACHMENT)
       && obj.Name == Some(ATTMAPIPROPS) && env.decodeMapi(obj.Data).Some? {
      MessagePropsKeep(m, env.decodeMapi(obj.Data).value, env);
    }
  }

  /** Over the whole walk: one attachment per ATTATTACHRENDDATA record, and
      the attachments already closed when the walk starts (all but the
      current one) are never changed. */
  lemma {:induction false} AssembleAttachments(rs: seq<TnefObject>, m: MessageValue, env: Externals)
    requires Assemble(rs, m, env).Ok?
    ensures |Assemble(rs, m, env).value.Attachments| == |m.Attachments| + Opened(rs)
    ensures forall i :: 0 <= i < |m.Attachments| - 1 ==>
      Assemble(rs, m, env).value.Attachments[i] == m.Attachments[i]
    decreases |rs|
  {
    if rs != [] {
      ApplyRecordAttachments(m, rs[0], env);
      AssembleAttachments(rs[1..], ApplyRecord(m, rs[0], env).value, env);
    }
  }

  /** A decoded message holds one attachment per ATTATTACHRENDDATA record
      of the buffer. */
  lemma DecodeAttachmentCount(data: seq<Cell>, env: Externals)
    requires DecodeSpec(data, env).Ok? && DecodeSpec(data, env).value.Some?
    ensures |DecodeSpec(data, env).value.value.Attachments| == Opened(RecordsFrom(data, 6))
  {
    AssembleAttachments(RecordsFrom(data, 6), EmptyMessage, env);
  }

  /** An attachment-level record read before any attachment is open throws
      exactly when it reaches a branch that touches the attachment, and is
      otherwise ignored. */
  lemma OrphanRecord(m: MessageValue, obj: TnefObject, env: Externals)
    requires m.Attachments == []
    requires obj.Level == Some(LVL_ATTACHMENT) && obj.Name != Some(ATTATTACHRENDDATA)
    ensures ApplyRecord(m, obj, env).TypeError? <==> ThrowsOnNull(obj, env)
    ensures ApplyRecord(m, obj, env).Ok? ==> ApplyRecord(m, obj, env).value == m
    ensures obj.Name == Some(ATTATTACHTITLE) || obj.Name == Some(ATTATTACHDATA) ==>
      ApplyRecord(m, obj, env).TypeError?
  {
  }

  // ----- The attachment merger -----

  /** `data.slice(16)` starts with the signature exactly when bytes 16 to 19
      of the property, read little-endian, are the signature; a property
      shorter than 20 bytes never holds a nested stream. */
  lemma NestedSignatureInPlace(d: seq<Cell>)
    ensures HasNestedSignature(d) <==> IntegerAt(d, 16, 4) == Some(TNEF_SIGNATURE)
    ensures |d| < 20 ==> !HasNestedSignature(d)
  {
    IntegerAtOfArraySlice(d, 16, 0, 4);
    if |d| < 20 {
      IntegerAtPastEnd(d, 16, 4);
    }
  }

  /** MAPIAttachDataObj: a nested TNEF stream from byte 16 becomes the
      content, typed application/ms-tnef; anything else, a short property
      included, is kept verbatim and leaves the content type alone. */
  lemma DataObjContent(a: AttachmentValue, p: MapiProp, env: Externals)
    requires p.Name == MAPIAttachDataObj
    ensures IntegerAt(p.Data, 16, 4) == Some(TNEF_SIGNATURE) ==>
      && |p.Data| >= 20
      && MergeProp(a, p, env) == a.(Content := Some(p.Data[16..]), ContentType := Some(NESTED_TNEF_TYPE))
    ensures IntegerAt(p.Data, 16, 4) != Some(TNEF_SIGNATURE) ==>
      MergeProp(a, p, env) == a.(Content := Some(p.Data))
  {
    NestedSignatureInPlace(p.Data);
  }

  /** The MAPIAttachMimeTag properties whose text is not empty, and the
      first of them. */
  function FirstMimeType(ps: seq<MapiProp>, env: Externals): Option<string>
  {
    if ps == [] then None
    else if ps[0].Name == MAPIAttachMimeTag && CleanText(env, ps[0].Data) != "" then Some(CleanText(env, ps[0].Data))
    else FirstMimeType(ps[1..], env)
  }

  /** Among MAPIAttachMimeTag properties the first non-empty one wins: a
      content type already set is kept, otherwise the first non-empty MIME
      type becomes the content type (a data object carrying a nested stream,
      which also sets it, is excluded here; any other data object is not). */
  lemma {:induction false} MimeTypeFirstWins(a: AttachmentValue, ps: seq<MapiProp>, env: Externals)
    requires forall k :: 0 <= k < |ps| ==> !(ps[k].Name == MAPIAttachDataObj && HasNestedSignature(ps[k].Data))
    ensures Truthy(a.ContentType) ==> MergeProps(a, ps, env).ContentType == a.ContentType
    ensures !Truthy(a.ContentType) && FirstMimeType(ps, env).Some? ==>
      MergeProps(a, ps, env).ContentType == FirstMimeType(ps, env)
    ensures FirstMimeType(ps, env).None? ==>
      MergeProps(a, ps, env).ContentType == a.ContentType || MergeProps(a, ps, env).ContentType == Some("")
    decreases |ps|
  {
    if ps != [] {
      MimeTypeFirstWins(MergeProp(a, ps[0], env), ps[1..], env);
    }
  }

  /** The Tag classification: byte 8 picks TNEF, OLE, Mime or Unknown; only
      an OLE tag carries byte 9 (when non-zero) and the " storage" suffix
      (when byte 10 is 1). */
  lemma TagClassification(d: seq<Cell>)
    ensures At(d, 8) == Some(1) ==> ClassifyTag(d) == "TNEF"
    ensures At(d, 8) == Some(4) ==> ClassifyTag(d) == "Mime"
    ensures At(d, 8) != Some(1) && At(d, 8) != Some(3) && At(d, 8) != Some(4) ==> ClassifyTag(d) == "Unknown"
    ensures |ClassifyTag(d)| >= 3 && (ClassifyTag(d)[..3] == "OLE" <==> At(d, 8) == Some(3))
    ensures var t := ClassifyTag(d);
      |t| >= 8 && t[|t| - 8..] == " storage" <==> At(d, 8) == Some(3) && At(d, 10) == Some(1)
  {
    var t := ClassifyTag(d);
    if At(d, 8) == Some(3) {
      var n := OleNumber(d);
      assert t == "OLE" + n + OleStorage(d);
      assert t[..3] == "OLE";
      if At(d, 10) != Some(1) {
        assert t == "OLE" + n;
        if |t| >= 8 {
          assert t[|t| - 1] == n[|n| - 1];
        }
      }
    } else {
      assert t == "TNEF" || t == "Mime" || t == "Unknown";
      assert t[0] != 'O';
    }
  }

  /** A worked tag: an OLE object of version 5 in storage. */
  lemma OleStorageExample()
    ensures ClassifyTag([None, None, None, None, None, None, None, None, Some(3), Some(5), Some(1)]) == "OLE5 storage"
  {
    assert DecimalString(5) == "5";
  }

  /** ATTATTACHTITLE: the title holds no NUL and is already trimmed. */
  lemma TitleIsClean(a: AttachmentValue, obj: TnefObject, env: Externals)
    requires obj.Name == Some(ATTATTACHTITLE)
    ensures var t := AddAttachmentAttrSpec(a, obj, env).Title;
      && t.Some?
      && '\0' !in t.value
      && Trim(t.value) == t.value
      && (t.value == [] || (!IsJsWhitespace(t.value[0]) && !IsJsWhitespace(t.value[|t.value| - 1])))
  {
    var s := CleanText(env, obj.Data);
    TrimAddsNothing(s, '\0');
    TrimmedEnds(s);
    TrimIdempotent(s);
  }

  // ----- Later properties overwrite earlier ones -----

  /** The message-property loop: each raw body field ends up with the data
      of the last property naming it, MessageClass with the text of the last
      MAPIMessageClass property, and each keeps its earlier value when no
      property names it. */
  lemma {:induction false} MessagePropsLastWins(m: MessageValue, ps: seq<MapiProp>, env: Externals, n: MapiName)
    ensures IsRawField(n) ==> var r := MergeMessageProps(m, ps, env);
      RawField(r, n) == if LastData(ps, n).Some? then LastData(ps, n) else RawField(m, n)
    ensures var r := MergeMessageProps(m, ps, env); var c := LastData(ps, MAPIMessageClass);
      r.MessageClass == if c.Some? then Some(CleanText(env, c.value)) else m.MessageClass
    decreases |ps|
  {
    if ps != [] {
      MessagePropsLastWins(MergeMessageProp(m, ps[0], env), ps[1..], env, n);
      assert ps == [ps[0]] + ps[1..];
      LastDataCons(ps[0], ps[1..], n);
      LastDataCons(ps[0], ps[1..], MAPIMessageClass);
    }
  }

  /** One property of the merger, seen from the fields it may set. */
  lemma MergePropFields(a: AttachmentValue, p: MapiProp, env: Externals, n: MapiName)
    ensures IsTextField(n) ==>
      TextField(MergeProp(a, p, env), n) == if p.Name == n then Some(CleanText(env, p.Data)) else TextField(a, n)
    ensures MergeProp(a, p, env).Tag == if p.Name == MAPIAttachTag then Some(ClassifyTag(p.Data)) else a.Tag
    ensures MergeProp(a, p, env).Title == a.Title && MergeProp(a, p, env).Data == a.Data
  {
  }

  /** The merger: Cid, LongFilename and Ext end up with the text of the last
      property naming them, Tag with the classification of the last
      MAPIAttachTag property; title and data are left alone. */
  lemma {:induction false} AttachmentPropsLastWins(a: AttachmentValue, ps: seq<MapiProp>, env: Externals, n: MapiName)
    ensures IsTextField(n) ==> var r := MergeProps(a, ps, env);
      TextField(r, n) == if LastData(ps, n).Some? then Some(CleanText(env, LastData(ps, n).value)) else TextField(a, n)
    ensures var r := MergeProps(a, ps, env); var t := LastData(ps, MAPIAttachTag);
      r.Tag == if t.Some? then Some(ClassifyTag(t.value)) else a.Tag
    ensures MergeProps(a, ps, env).Title == a.Title && MergeProps(a, ps, env).Data == a.Data
    decreases |ps|
  {
    if ps != [] {
      AttachmentPropsLastWins(MergeProp(a, ps[0], env), ps[1..], env, n);
      MergePropFields(a, ps[0], env, n);
      assert ps == [ps[0]] + ps[1..];
      LastDataCons(ps[0], ps[1..], n);
      LastDataCons(ps[0], ps[1..], MAPIAttachTag);
    }
  }

  /** addAttachmentAttr by record name: ATTATTACHDATA stores the bytes
      verbatim and nothing else, ATTATTACHMENT never touches Title or Data,
      and every other name leaves the attachment as it was. */
  lemma AttachmentRecordFields(a: AttachmentValue, obj: TnefObject, env: Externals)
    ensures obj.Name == Some(ATTATTACHDATA) ==> AddAttachmentAttrSpec(a, obj, env) == a.(Data := Some(obj.Data))
    ensures obj.Name == Some(ATTATTACHMENT) ==>
      AddAttachmentAttrSpec(a, obj, env).Title == a.Title && AddAttachmentAttrSpec(a, obj, env).Data == a.Data
    ensures obj.Name != Some(ATTATTACHTITLE) && obj.Name != Some(ATTATTACHDATA) && obj.Name != Some(ATTATTACHMENT) ==>
      AddAttachmentAttrSpec(a, obj, env) == a
  {
    if obj.Name == Some(ATTATTACHMENT) && env.decodeMapi(obj.Data).Some? {
      AttachmentPropsLastWins(a, env.decodeMapi(obj.Data).value, env, MAPIAttachTag);
    }
  }

  // ----- No NUL in any text the engine stores -----

  predicate NulFree(s: Option<string>)
  {
    s.None? || '\0' !in s.value
  }

  predicate CleanAttachment(a: AttachmentValue)
  {
    && NulFree(a.Title) && NulFree(a.Cid) && NulFree(a.ContentType)
    && NulFree(a.Tag) && NulFree(a.LongFilename) && NulFree(a.Ext)
  }

  predicate CleanMessage(m: MessageValue)
  {
    NulFree(m.MessageClass) && forall i :: 0 <= i < |m.Attachments| ==> CleanAttachment(m.Attachments[i])
  }

  lemma ClassifyTagNulFree(d: seq<Cell>)
    ensures '\0' !in ClassifyTag(d)
  {
    if At(d, 8) == Some(3) {
      var n := OleNumber(d);
      assert forall k :: 0 <= k < |n| ==> n[k] != '\0';
      assert '\0' !in n;
      assert '\0' !in OleStorage(d);
      assert ClassifyTag(d) == "OLE" + n + OleStorage(d);
    } else {
      assert ClassifyTag(d) == TagKind(At(d, 8));
    }
  }

  lemma MergePropClean(a: AttachmentValue, p: MapiProp, env: Externals)
    requires CleanAttachment(a)
    ensures CleanAttachment(MergeProp(a, p, env))
  {
    match p.Name
    case MAPIAttachTag => ClassifyTagNulFree(p.Data);
    case MAPIAttachDataObj => assert '\0' !in NESTED_TNEF_TYPE;
    case _ =>
  }

  lemma {:induction false} MergePropsClean(a: AttachmentValue, ps: seq<MapiProp>, env: Externals)
    requires CleanAttachment(a)
    ensures CleanAttachment(MergeProps(a, ps, env))
    decreases |ps|
  {
    if ps != [] {
      MergePropClean(a, ps[0], env);
      MergePropsClean(MergeProp(a, ps[0], env), ps[1..], env);
    }
  }

  lemma {:induction false} MessagePropsClean(m: MessageValue, ps: seq<MapiProp>, env: Externals)
    requires CleanMessage(m)
    ensures CleanMessage(MergeMessageProps(m, ps, env))
    decreases |ps|
  {
    if ps != [] {
      MessagePropsKeep(MergeMessageProp(m, ps[0], env), [], env);
      MessagePropsClean(MergeMessageProp(m, ps[0], env), ps[1..], env);
    }
  }

  /** Every record keeps the stored text NUL-free. */
  lemma ApplyRecordClean(m: MessageValue, obj: TnefObject, env: Externals)
    requires CleanMessage(m) && ApplyRecord(m, obj, env).Ok?
    ensures CleanMessage(ApplyRecord(m, obj, env).value)
  {
    if obj.Name == Some(ATTATTACHRENDDATA) {
    } else if obj.Level == Some(LVL_ATTACHMENT) {
      if m.Attachments != [] {
        var last := |m.Attachments| - 1;
        var a := m.Attachments[last];
        if obj.Name == Some(ATTATTACHTITLE) {
          TitleIsClean(a, obj, env);
        } else if obj.Name == Some(ATTATTACHMENT) && env.decodeMapi(obj.Data).Some? {
          MergePropsClean(a, env.decodeMapi(obj.Data).value, env);
        }
      }
    } else if obj.Name == Some(ATTMAPIPROPS) && env.decodeMapi(obj.Data).Some? {
      MessagePropsClean(m, env.decodeMapi(obj.Data).value, env);
    }
  }

  lemma {:induction false} AssembleClean(rs: seq<TnefObject>, m: MessageValue, env: Externals)
    requires CleanMessage(m) && Assemble(rs, m, env).Ok?
    ensures CleanMessage(Assemble(rs, m, env).value)
    decreases |rs|
  {
    if rs != [] {
      ApplyRecordClean(m, rs[0], env);
      AssembleClean(rs[1..], ApplyRecord(m, rs[0], env).value, env);
    }
  }

  /** Whatever the buffer, no text Decode stores holds a NUL. */
  lemma DecodeNulFree(data: seq<Cell>, env: Externals)
    requires DecodeSpec(data, env).Ok? && DecodeSpec(data, env).value.Some?
    ensures CleanMessage(DecodeSpec(data, env).value.value)
  {
    AssembleClean(RecordsFrom(data, 6), EmptyMessage, env);
  }

  // ----- Decoding what an encoder wrote -----

  /** A stream written as signature, key and well-formed records decodes
      as those records assembled in order. */
  lemma DecodeEncodedStream(key: nat, fs: seq<RecordFields>, env: Externals)
    requires key < 0x1_0000
    requires forall i :: 0 <= i < |fs| ==> WellFormed(fs[i])
    ensures DecodeSpec(Lift(EncodeStream(key, fs)), env) ==
      match Assemble(ExpectedAll(fs), EmptyMessage, env)
      case TypeError => TypeError
      case Ok(m) => Ok(Some(m))
  {
    EncodedSignature(key, fs);
    RecordsOfStream(key, fs);
  }

  /** A stream whose first record is an attachment title, before any
      ATTATTACHRENDDATA, makes Decode throw. */
  lemma OrphanTitleThrows(key: nat, f: RecordFields, fs: seq<RecordFields>, env: Externals)
    requires key < 0x1_0000 && WellFormed(f) && forall i :: 0 <= i < |fs| ==> WellFormed(fs[i])
    requires f.level == LVL_ATTACHMENT && f.name == ATTATTACHTITLE
    ensures DecodeSpec(Lift(EncodeStream(key, [f] + fs)), env) == TypeError
  {
    var all := [f] + fs;
    DecodeEncodedStream(key, all, env);
    ExpectedAllCons(all);
    AssembleThrows(Expected(f), ExpectedAll(fs), EmptyMessage, env);
    assert all[1..] == fs;
  }

  /** A stream holding one empty ATTATTACHRENDDATA record decodes to a
      message with one empty attachment. */
  lemma OneAttachmentExample(env: Externals)
    ensures DecodeSpec(Lift(EncodeStream(0, [RecordFields(LVL_MESSAGE, ATTATTACHRENDDATA, 6, [], 0)])), env)
      == Ok(Some(EmptyMessage.(Attachments := [EmptyAttachment])))
  {
    var f := RecordFields(LVL_MESSAGE, ATTATTACHRENDDATA, 6, [], 0);
    DecodeEncodedStream(0, [f], env);
    assert ExpectedAll([f]) == [Expected(f)];
    var m := EmptyMessage.(Attachments := [EmptyAttachment]);
    assert Expected(f).Name == Some(ATTATTACHRENDDATA);
    assert EmptyMessage.Attachments + [EmptyAttachment] == [EmptyAttachment];
    AssembleOk(Expected(f), [], EmptyMessage, m, env);
    assert [Expected(f)] + [] == [Expected(f)];
  }
}
