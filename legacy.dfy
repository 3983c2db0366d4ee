/** The older engine, src/commands/parse.js: the attachment merger addAttr
    and the message assembler Decode. It reads records with the same
    decodeTNEFObject (Records) and walks them the same way; its merger has
    no Tag classification, lets every MAPIAttachMimeTag overwrite the
    content type and keeps data objects verbatim, and its message-property
    loop has no MessageClass case. */
module LegacyParse {
  import opened Wrappers
  import opened Util
  import opened JsString
  import opened Mapi
  import opened Records
  import opened TnefObjects

  /** The property identifiers whose case of addAttr's `forEach` callback
      touches the attachment object (MAPIAttachTag has no case here). */
  predicate Dereferences(n: MapiName)
  {
    n.MAPIAttachContentId? || n.MAPIAttachMimeTag?
    || n.MAPIAttachLongFilename? || n.MAPIAttachExtension? || n.MAPIAttachDataObj?
  }

  /** One call of addAttr's `forEach` callback. */
  function MergeProp(a: AttachmentValue, p: MapiProp, env: Externals): AttachmentValue
  {
    match p.Name
    case MAPIAttachContentId => a.(Cid := Some(CleanText(env, p.Data)))
    case MAPIAttachMimeTag => a.(ContentType := Some(CleanText(env, p.Data)))
    case MAPIAttachLongFilename => a.(LongFilename := Some(CleanText(env, p.Data)))
    case MAPIAttachExtension => a.(Ext := Some(CleanText(env, p.Data)))
    case MAPIAttachDataObj => a.(Content := Some(p.Data))
    case _ => a
  }

  function MergeProps(a: AttachmentValue, ps: seq<MapiProp>, env: Externals): AttachmentValue
    decreases |ps|
  {
    if ps == [] then a else MergeProps(MergeProp(a, ps[0], env), ps[1..], env)
  }

  /** addAttr on an attachment object that exists. */
  function AddAttrSpec(a: AttachmentValue, obj: TnefObject, env: Externals): AttachmentValue
  {
    if obj.Name == Some(ATTATTACHTITLE) then a.(Title := Some(Trim(CleanText(env, obj.Data))))
    else if obj.Name == Some(ATTATTACHDATA) then a.(Data := Some(obj.Data))
    else if obj.Name == Some(ATTATTACHMENT) then
      match env.decodeMapi(obj.Data)
      case None => a
      case Some(attributes) => MergeProps(a, attributes, env)
    else a
  }

  /** addAttr on `null` throws exactly when it reaches a branch that
      touches the attachment. */
  predicate ThrowsOnNull(obj: TnefObject, env: Externals)
  {
    || obj.Name == Some(ATTATTACHTITLE)
    || obj.Name == Some(ATTATTACHDATA)
    || (&& obj.Name == Some(ATTATTACHMENT)
        && env.decodeMapi(obj.Data).Some?
        && exists k :: 0 <= k < |env.decodeMapi(obj.Data).value|
                       && Dereferences(env.decodeMapi(obj.Data).value[k].Name))
  }

  /** One iteration of the message-property loop: the four raw body fields. */
  function MergeMessageProp(m: MessageValue, p: MapiProp): MessageValue
  {
    match p.Name
    case MAPIBody => m.(Body := Some(p.Data))
    case MAPIBodyHTML => m.(BodyHTML := Some(p.Data))
    case MAPIBodyPreview => m.(BodyPreview := Some(p.Data))
    case MAPIRtfCompressed => m.(RtfCompressed := Some(p.Data))
    case _ => m
  }

  function MergeMessageProps(m: MessageValue, ps: seq<MapiProp>): MessageValue
    decreases |ps|
  {
    if ps == [] then m else MergeMessageProps(MergeMessageProp(m, ps[0]), ps[1..])
  }

  /** One iteration of Decode's loop after the record is read; the current
      attachment is the last one of `Attachments`. */
  function ApplyRecord(m: MessageValue, obj: TnefObject, env: Externals): Result<MessageValue>
  {
    if obj.Name == Some(ATTATTACHRENDDATA) then
      Ok(m.(Attachments := m.Attachments + [EmptyAttachment]))
    else if obj.Level == Some(LVL_ATTACHMENT) then
      if m.Attachments == [] then
        (if ThrowsOnNull(obj, env) then TypeError else Ok(m))
      else
        var last := |m.Attachments| - 1;
        Ok(m.(Attachments := m.Attachments[last := AddAttrSpec(m.Attachments[last], obj, env)]))
    else if obj.Name == Some(ATTSUBJECT) then
      Ok(m.(Subject := Some(obj.Data)))
    else if obj.Name == Some(ATTMAPIPROPS) then
      match env.decodeMapi(obj.Data)
      case None => Ok(m)
      case Some(attributes) => Ok(MergeMessageProps(m, attributes))
    else Ok(m)
  }

  function Assemble(rs: seq<TnefObject>, m: MessageValue, env: Externals): Result<MessageValue>
  {
    if rs == [] then Ok(m)
    else match ApplyRecord(m, rs[0], env)
      case TypeError => TypeError
      case Ok(m') => Assemble(rs[1..], m', env)
  }

  /** Decode: `null` unless the buffer starts with the signature, otherwise
      the message assembled from the records from offset 6 on. */
  function DecodeSpec(data: seq<Cell>, env: Externals): Result<Option<MessageValue>>
  {
    if IntegerAt(data, 0, 4) != Some(TNEF_SIGNATURE) then Ok(None)
    else match Assemble(RecordsFrom(data, 6), EmptyMessage, env)
      case TypeError => TypeError
      case Ok(m) => Ok(Some(m))
  }

  // ----- The methods -----

  /** addAttr's `forEach` callback. */
  method SetAttachmentProp(attachment: Attachment, att: MapiProp, env: Externals)
    modifies attachment
    ensures attachment.Value() == MergeProp(old(attachment.Value()), att, env)
  {
    match att.Name {
      case MAPIAttachContentId =>
        attachment.Cid := Some(StripNul(BytesToString(env, att.Data)));
      case MAPIAttachMimeTag =>
        attachment.ContentType := Some(StripNul(BytesToString(env, att.Data)));
      case MAPIAttachLongFilename =>
        attachment.LongFilename := Some(StripNul(BytesToString(env, att.Data)));
      case MAPIAttachExtension =>
        attachment.Ext := Some(StripNul(BytesToString(env, att.Data)));
      case MAPIAttachDataObj =>
        attachment.Content := Some(att.Data);
      case _ =>
    }
  }

  /** The `forEach` over the decoded properties; on a null attachment it
      throws at the first property whose case touches the attachment. */
  method SetAttachmentProps(attachment: Attachment?, atts: seq<MapiProp>, env: Externals) returns (thrown: bool)
    modifies attachment
    ensures attachment == null ==> (thrown <==> exists k :: 0 <= k < |atts| && Dereferences(atts[k].Name))
    ensures attachment != null ==>
      !thrown && attachment.Value() == MergeProps(old(attachment.Value()), atts, env)
  {
    thrown := false;
    var i := 0;
    while i < |atts|
      invariant 0 <= i <= |atts|
      invariant attachment == null ==> forall k :: 0 <= k < i ==> !Dereferences(atts[k].Name)
      invariant attachment != null ==>
        MergeProps(attachment.Value(), atts[i..], env) == MergeProps(old(attachment.Value()), atts, env)
    {
      if attachment == null {
        if Dereferences(atts[i].Name) { return true; }
      } else {
        assert atts[i..] == [atts[i]] + atts[i + 1..];
        SetAttachmentProp(attachment, atts[i], env);
      }
      i := i + 1;
    }
  }

  /** addAttr(obj, attachment); `thrown` reports the TypeError raised when
      `attachment` is null. */
  method AddAttr(obj: TnefObject, attachment: Attachment?, env: Externals) returns (thrown: bool)
    modifies attachment
    ensures attachment == null ==> thrown == ThrowsOnNull(obj, env)
    ensures attachment != null ==>
      !thrown && attachment.Value() == AddAttrSpec(old(attachment.Value()), obj, env)
  {
    thrown := false;
    if obj.Name == Some(ATTATTACHTITLE) {
      if attachment == null { return true; }
      attachment.Title := Some(Trim(StripNul(BytesToString(env, obj.Data))));
    } else if obj.Name == Some(ATTATTACHDATA) {
      if attachment == null { return true; }
      attachment.Data := Some(obj.Data);
    } else if obj.Name == Some(ATTATTACHMENT) {
      var attributes := env.decodeMapi(obj.Data);
      if attributes.Some? {
        thrown := SetAttachmentProps(attachment, attributes.value, env);
      }
    }
  }

  /** One iteration of the `for (var attr of attributes)` loop of Decode's
      ATTMAPIPROPS branch. */
  method SetMessageProp(tnef: Message, attr: MapiProp)
    modifies tnef
    ensures tnef.Attachments == old(tnef.Attachments)
    ensures tnef.Value() == MergeMessageProp(old(tnef.Value()), attr)
  {
    match attr.Name {
      case MAPIBody => tnef.Body := Some(attr.Data);
      case MAPIBodyHTML => tnef.BodyHTML := Some(attr.Data);
      case MAPIBodyPreview => tnef.BodyPreview := Some(attr.Data);
      case MAPIRtfCompressed => tnef.RtfCompressed := Some(attr.Data);
      case _ =>
    }
  }

  method SetMessageProps(tnef: Message, attributes: seq<MapiProp>)
    modifies tnef
    ensures tnef.Attachments == old(tnef.Attachments)
    ensures tnef.Value() == MergeMessageProps(old(tnef.Value()), attributes)
  {
    var i := 0;
    while i < |attributes|
      invariant 0 <= i <= |attributes|
      invariant tnef.Attachments == old(tnef.Attachments)
      invariant MergeMessageProps(tnef.Value(), attributes[i..])
             == MergeMessageProps(old(tnef.Value()), attributes)
    {
      assert attributes[i..] == [attributes[i]] + attributes[i + 1..];
      SetMessageProp(tnef, attributes[i]);
      i := i + 1;
    }
  }

  /** The ATTATTACHRENDDATA branch: a new empty attachment becomes current. */
  method OpenRecord(tnef: Message, obj: TnefObject, env: Externals) returns (current: Attachment)
    requires tnef.Valid()
    requires obj.Name == Some(ATTATTACHRENDDATA)
    modifies tnef
    ensures fresh(current)
    ensures tnef.Attachments == old(tnef.Attachments) + [current]
    ensures tnef.Valid()
    ensures ApplyRecord(old(tnef.Value()), obj, env) == Ok(tnef.Value())
  {
    current := tnef.OpenAttachment();
  }

  /** addAttr on the current attachment, the last of `tnef.Attachments`. */
  method UpdateLastAttachment(tnef: Message, attachment: Attachment, obj: TnefObject, env: Externals)
    requires tnef.Valid() && tnef.Attachments != []
    requires attachment == tnef.Attachments[|tnef.Attachments| - 1]
    requires obj.Level == Some(LVL_ATTACHMENT) && obj.Name != Some(ATTATTACHRENDDATA)
    modifies attachment
    ensures ApplyRecord(old(tnef.Value()), obj, env) == Ok(tnef.Value())
  {
    ghost var before := tnef.Value();
    var thrown := AddAttr(obj, attachment, env);
    var last := |tnef.Attachments| - 1;
    assert forall k :: 0 <= k < last ==> tnef.Attachments[k] != attachment;
    assert tnef.Value().Attachments ==
      before.Attachments[last := AddAttrSpec(before.Attachments[last], obj, env)];
  }

  /** `tnef.Subject = obj.Data` */
  method SetSubject(tnef: Message, obj: TnefObject, env: Externals)
    requires obj.Name == Some(ATTSUBJECT) && obj.Level != Some(LVL_ATTACHMENT)
    modifies tnef
    ensures tnef.Attachments == old(tnef.Attachments)
    ensures ApplyRecord(old(tnef.Value()), obj, env) == Ok(tnef.Value())
  {
    ghost var before := tnef.Value();
    tnef.Subject := Some(obj.Data);
    assert tnef.Value() == before.(Subject := Some(obj.Data));
  }

  /** The ATTMAPIPROPS branch. */
  method ApplyMessageProps(tnef: Message, obj: TnefObject, env: Externals)
    requires obj.Name == Some(ATTMAPIPROPS) && obj.Level != Some(LVL_ATTACHMENT)
    modifies tnef
    ensures tnef.Attachments == old(tnef.Attachments)
    ensures ApplyRecord(old(tnef.Value()), obj, env) == Ok(tnef.Value())
  {
    var attributes := env.decodeMapi(obj.Data);
    if attributes.Some? {
      SetMessageProps(tnef, attributes.value);
    }
  }

  /** The dispatch that ends each iteration of Decode's loop. */
  method DispatchRecord(tnef: Message, attachment: Attachment?, obj: TnefObject, env: Externals)
    returns (current: Attachment?, thrown: bool)
    requires tnef.Valid()
    requires attachment == null <==> tnef.Attachments == []
    requires attachment != null ==> attachment == tnef.Attachments[|tnef.Attachments| - 1]
    modifies tnef, attachment
    ensures tnef.Valid()
    ensures forall a :: a in tnef.Attachments ==> a in old(tnef.Attachments) || fresh(a)
    ensures current == null <==> tnef.Attachments == []
    ensures current != null ==> current == tnef.Attachments[|tnef.Attachments| - 1]
    ensures current != null ==> current == attachment || fresh(current)
    ensures thrown <==> ApplyRecord(old(tnef.Value()), obj, env).TypeError?
    ensures !thrown ==> ApplyRecord(old(tnef.Value()), obj, env) == Ok(tnef.Value())
  {
    current, thrown := attachment, false;
    if obj.Name == Some(ATTATTACHRENDDATA) {
      current := OpenRecord(tnef, obj, env);
    } else if obj.Level == Some(LVL_ATTACHMENT) {
      if attachment == null {
        thrown := AddAttr(obj, attachment, env);
      } else {
        UpdateLastAttachment(tnef, attachment, obj, env);
      }
    } else if obj.Name == Some(ATTSUBJECT) {
      SetSubject(tnef, obj, env);
    } else if obj.Name == Some(ATTMAPIPROPS) {
      ApplyMessageProps(tnef, obj, env);
    }
  }

  /** The records from `offset` on assemble as the first one applied, then
      the rest from the state `m'` it leaves, unless it throws. */
  lemma AssembleFrom(data: seq<Cell>, offset: nat, obj: TnefObject, m: MessageValue, m': MessageValue,
                     thrown: bool, env: Externals)
    requires RecordsFrom(data, offset) == [obj] + RecordsFrom(data, offset + obj.Length)
    requires thrown <==> ApplyRecord(m, obj, env).TypeError?
    requires !thrown ==> ApplyRecord(m, obj, env) == Ok(m')
    ensures thrown ==> Assemble(RecordsFrom(data, offset), m, env) == TypeError
    ensures !thrown ==> Assemble(RecordsFrom(data, offset), m, env) == Assemble(RecordsFrom(data, offset + obj.Length), m', env)
  {
    var rs := RecordsFrom(data, offset);
    assert rs[0] == obj && rs[1..] == RecordsFrom(data, offset + obj.Length);
  }


  /** One turn of Decode's loop. */
  method DecodeStep(data: seq<Cell>, offset: nat, tnef: Message, attachment: Attachment?, env: Externals)
    returns (next: nat, current: Attachment?, thrown: bool)
    requires offset < |data|
    requires tnef.Valid()
    requires attachment == null <==> tnef.Attachments == []
    requires attachment != null ==> attachment == tnef.Attachments[|tnef.Attachments| - 1]
    modifies tnef, attachment
    ensures next > offset
    ensures tnef.Valid()
    ensures forall a :: a in tnef.Attachments ==> a in old(tnef.Attachments) || fresh(a)
    ensures current == null <==> tnef.Attachments == []
    ensures current != null ==> current == tnef.Attachments[|tnef.Attachments| - 1]
    ensures current != null ==> current == attachment || fresh(current)
    ensures thrown ==> Assemble(RecordsFrom(data, offset), old(tnef.Value()), env) == TypeError
    ensures !thrown ==>
      Assemble(RecordsFrom(data, offset), old(tnef.Value()), env)
      == Assemble(RecordsFrom(data, next), tnef.Value(), env)
  {
    ghost var m := tnef.Value();
    var obj := ReadNext(data, offset);
    next := offset + obj.Length;
    current, thrown := DispatchRecord(tnef, attachment, obj, env);
    AssembleFrom(data, offset, obj, m, tnef.Value(), thrown, env);
  }

  /** Decode: `Ok(null)` for a buffer without the signature, `TypeError`
      when an attachment-level record reaches a null attachment, otherwise a
      fresh message object whose attachments are distinct fresh objects. */
  method Decode(data: seq<Cell>, env: Externals) returns (r: Result<Message?>)
    ensures r.TypeError? <==> DecodeSpec(data, env).TypeError?
    ensures r.Ok? ==> (r.value == null <==> DecodeSpec(data, env).value.None?)
    ensures r.Ok? && r.value != null ==>
      && fresh(r.value) && r.value.Valid()
      && (forall a :: a in r.value.Attachments ==> fresh(a))
      && r.value.Value() == DecodeSpec(data, env).value.value
  {
    var signature := ProcessBytesToInteger(data, 0, 4);
    if signature != Some(TNEF_SIGNATURE) {
      return Ok(null);
    }
    var offset: nat := 6;
    var attachment: Attachment? := null;
    var tnef := new Message();
    ghost var whole := Assemble(RecordsFrom(data, 6), EmptyMessage, env);
    while offset < |data|
      invariant fresh(tnef) && tnef.Valid()
      invariant forall a :: a in tnef.Attachments ==> fresh(a)
      invariant attachment == null <==> tnef.Attachments == []
      invariant attachment != null ==> attachment == tnef.Attachments[|tnef.Attachments| - 1]
      invariant attachment != null ==> fresh(attachment)
      invariant whole == Assemble(RecordsFrom(data, offset), tnef.Value(), env)
      decreases |data| - offset
    {
      var thrown;
      offset, attachment, thrown := DecodeStep(data, offset, tnef, attachment, env);
      if thrown {
        return TypeError;
      }
    }
    assert RecordsFrom(data, offset) == [];
    return Ok(tnef);
  }

  // ----- What the older engine promises -----

  /** Decode gives null exactly when the first four bytes, read
      little-endian, are not the signature. */
  lemma SignatureGate(data: seq<Cell>, env: Externals)
    ensures DecodeSpec(data, env) == Ok(None) <==> IntegerAt(data, 0, 4) != Some(TNEF_SIGNATURE)
  {
  }

  /** One property of the merger, seen from the fields it may set. */
  lemma MergePropFields(a: AttachmentValue, p: MapiProp, env: Externals, n: MapiName)
    ensures MergeProp(a, p, env).ContentType ==
      if p.Name == MAPIAttachMimeTag then Some(CleanText(env, p.Data)) else a.ContentType
    ensures MergeProp(a, p, env).Content == if p.Name == MAPIAttachDataObj then Some(p.Data) else a.Content
    ensures IsTextField(n) ==>
      TextField(MergeProp(a, p, env), n) == if p.Name == n then Some(CleanText(env, p.Data)) else TextField(a, n)
    ensures var r := MergeProp(a, p, env); r.Tag == a.Tag && r.Title == a.Title && r.Data == a.Data
  {
  }

  /** The merger: the content type is that of the last MAPIAttachMimeTag
      property, the content the data of the last MAPIAttachDataObj property,
      Cid, LongFilename and Ext the text of the last property naming them;
      Tag, title and data are never touched. */
  lemma {:induction false} AttachmentPropsLastWins(a: AttachmentValue, ps: seq<MapiProp>, env: Externals, n: MapiName)
    ensures var r := MergeProps(a, ps, env); var t := LastData(ps, MAPIAttachMimeTag);
      r.ContentType == if t.Some? then Some(CleanText(env, t.value)) else a.ContentType
    ensures MergeProps(a, ps, env).Content == if LastData(ps, MAPIAttachDataObj).Some?
      then LastData(ps, MAPIAttachDataObj) else a.Content
    ensures IsTextField(n) ==> var r := MergeProps(a, ps, env);
      TextField(r, n) == if LastData(ps, n).Some? then Some(CleanText(env, LastData(ps, n).value)) else TextField(a, n)
    ensures var r := MergeProps(a, ps, env); r.Tag == a.Tag && r.Title == a.Title && r.Data == a.Data
    decreases |ps|
  {
    if ps != [] {
      AttachmentPropsLastWins(MergeProp(a, ps[0], env), ps[1..], env, n);
      MergePropFields(a, ps[0], env, n);
      assert ps == [ps[0]] + ps[1..];
      LastDataCons(ps[0], ps[1..], n);
      LastDataCons(ps[0], ps[1..], MAPIAttachMimeTag);
      LastDataCons(ps[0], ps[1..], MAPIAttachDataObj);
    }
  }

  /** The message-property loop: each raw body field ends up with the data
      of the last property naming it; MessageClass, the subject and the
      attachments are never touched. */
  lemma {:induction false} MessagePropsLastWins(m: MessageValue, ps: seq<MapiProp>, n: MapiName)
    ensures IsRawField(n) ==> var r := MergeMessageProps(m, ps);
      RawField(r, n) == if LastData(ps, n).Some? then LastData(ps, n) else RawField(m, n)
    ensures var r := MergeMessageProps(m, ps);
      r.MessageClass == m.MessageClass && r.Subject == m.Subject && r.Attachments == m.Attachments
    decreases |ps|
  {
    if ps != [] {
      MessagePropsLastWins(MergeMessageProp(m, ps[0]), ps[1..], n);
      assert ps == [ps[0]] + ps[1..];
      LastDataCons(ps[0], ps[1..], n);
    }
  }

  /** The number of records that open an attachment. */
  function Opened(rs: seq<TnefObject>): nat
  {
    if rs == [] then 0
    else (if rs[0].Name == Some(ATTATTACHRENDDATA) then 1 else 0) + Opened(rs[1..])
  }

  /** Over the whole walk: one attachment per ATTATTACHRENDDATA record, and
      the attachments already closed when the walk starts are never
      changed. */
  lemma {:induction false} AssembleAttachments(rs: seq<TnefObject>, m: MessageValue, env: Externals)
    requires Assemble(rs, m, env).Ok?
    ensures |Assemble(rs, m, env).value.Attachments| == |m.Attachments| + Opened(rs)
    ensures forall i :: 0 <= i < |m.Attachments| - 1 ==>
      Assemble(rs, m, env).value.Attachments[i] == m.Attachments[i]
    decreases |rs|
  {
    if rs != [] {
      var obj := rs[0];
      if obj.Name != Some(ATTATTACHRENDDATA) && obj.Level != Some(LVL_ATTACHMENT)
         && obj.Name == Some(ATTMAPIPROPS) && env.decodeMapi(obj.Data).Some? {
        MessagePropsLastWins(m, env.decodeMapi(obj.Data).value, MAPIBody);
      }
      AssembleAttachments(rs[1..], ApplyRecord(m, obj, env).value, env);
    }
  }
}
