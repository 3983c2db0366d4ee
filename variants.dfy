/** The two engines side by side: src/parse.js (Parse) and the older copy
    in src/commands/parse.js (LegacyParse). Both read records with the same
    decodeTNEFObject and apply the same signature gate and walk. Where the
    older merger has no case of its own (MIME tag, Tag, nested stream,
    MessageClass) the results differ; on everything else they agree. */
module Variants {
  import opened Wrappers
  import opened Util
  import opened Mapi
  import opened Records
  import opened TnefObjects
  import Parse
  import LegacyParse

  // ----- Exact agreement -----

  /** A MAPI property both engines treat alike: neither a MIME tag, a tag
      nor a message class, nor a data object holding a nested stream. */
  predicate Shared(p: MapiProp)
  {
    && !p.Name.MAPIAttachMimeTag? && !p.Name.MAPIAttachTag? && !p.Name.MAPIMessageClass?
    && !(p.Name.MAPIAttachDataObj? && Parse.HasNestedSignature(p.Data))
  }

  predicate SharedList(ps: seq<MapiProp>)
  {
    forall k :: 0 <= k < |ps| ==> Shared(ps[k])
  }

  /** The property lists the engines decode from a record (those of
      ATTATTACHMENT and ATTMAPIPROPS records) hold only shared properties. */
  predicate SharedRecord(obj: TnefObject, env: Externals)
  {
    (obj.Name == Some(ATTATTACHMENT) || obj.Name == Some(ATTMAPIPROPS)) && env.decodeMapi(obj.Data).Some?
    ==> SharedList(env.decodeMapi(obj.Data).value)
  }

  lemma {:induction false} MergePropsAgree(a: AttachmentValue, ps: seq<MapiProp>, env: Externals)
    requires SharedList(ps)
    ensures Parse.MergeProps(a, ps, env) == LegacyParse.MergeProps(a, ps, env)
    decreases |ps|
  {
    if ps != [] {
      assert Parse.MergeProp(a, ps[0], env) == LegacyParse.MergeProp(a, ps[0], env);
      MergePropsAgree(Parse.MergeProp(a, ps[0], env), ps[1..], env);
    }
  }

  lemma {:induction false} MessagePropsAgree(m: MessageValue, ps: seq<MapiProp>, env: Externals)
    requires SharedList(ps)
    ensures Parse.MergeMessageProps(m, ps, env) == LegacyParse.MergeMessageProps(m, ps)
    decreases |ps|
  {
    if ps != [] {
      assert Parse.MergeMessageProp(m, ps[0], env) == LegacyParse.MergeMessageProp(m, ps[0]);
      MessagePropsAgree(Parse.MergeMessageProp(m, ps[0], env), ps[1..], env);
    }
  }

  /** A record with only shared properties has the same effect in both
      engines, a TypeError included. */
  lemma ApplyRecordAgree(m: MessageValue, obj: TnefObject, env: Externals)
    requires SharedRecord(obj, env)
    ensures Parse.ApplyRecord(m, obj, env) == LegacyParse.ApplyRecord(m, obj, env)
  {
    if obj.Name == Some(ATTATTACHMENT) && env.decodeMapi(obj.Data).Some? {
      var ps := env.decodeMapi(obj.Data).value;
      MergePropsAgree(if m.Attachments == [] then EmptyAttachment else m.Attachments[|m.Attachments| - 1], ps, env);
      assert forall k :: 0 <= k < |ps| ==> (Parse.Dereferences(ps[k].Name) <==> LegacyParse.Dereferences(ps[k].Name));
    } else if obj.Name == Some(ATTMAPIPROPS) && env.decodeMapi(obj.Data).Some? {
      MessagePropsAgree(m, env.decodeMapi(obj.Data).value, env);
    }
  }

  lemma {:induction false} AssembleAgree(rs: seq<TnefObject>, m: MessageValue, env: Externals)
    requires forall i :: 0 <= i < |rs| ==> SharedRecord(rs[i], env)
    ensures Parse.Assemble(rs, m, env) == LegacyParse.Assemble(rs, m, env)
    decreases |rs|
  {
    if rs != [] {
      ApplyRecordAgree(m, rs[0], env);
      var r := Parse.ApplyRecord(m, rs[0], env);
      if r.Ok? {
        AssembleAgree(rs[1..], r.value, env);
      }
    }
  }

  /** On a buffer whose records carry only shared properties the two
      engines give the same result: the same null, the same TypeError or
      the same message. */
  lemma VariantsAgree(data: seq<Cell>, env: Externals)
    requires forall i :: 0 <= i < |RecordsFrom(data, 6)| ==> SharedRecord(RecordsFrom(data, 6)[i], env)
    ensures Parse.DecodeSpec(data, env) == LegacyParse.DecodeSpec(data, env)
  {
    AssembleAgree(RecordsFrom(data, 6), EmptyMessage, env);
  }

  /** The signature gates are the same. */
  lemma SignatureGatesAgree(data: seq<Cell>, env: Externals)
    ensures Parse.DecodeSpec(data, env) == Ok(None) <==> LegacyParse.DecodeSpec(data, env) == Ok(None)
  {
    Parse.SignatureGate(data, env);
    LegacyParse.SignatureGate(data, env);
  }

  // ----- Agreement up to the fields where they differ -----

  /** An attachment without the fields only one engine sets its own way. */
  function EraseAttachment(a: AttachmentValue): AttachmentValue
  {
    a.(ContentType := None, Tag := None, Content := None)
  }

  /** A message without MessageClass, its attachments erased. */
  function Erase(m: MessageValue): (r: MessageValue)
    ensures |r.Attachments| == |m.Attachments|
    ensures forall i :: 0 <= i < |m.Attachments| ==> r.Attachments[i] == EraseAttachment(m.Attachments[i])
  {
    m.(MessageClass := None,
       Attachments := seq(|m.Attachments|, i requires 0 <= i < |m.Attachments| => EraseAttachment(m.Attachments[i])))
  }

  /** The attachment fields both engines set the same way. */
  predicate SameKeptAttachment(a1: AttachmentValue, a2: AttachmentValue)
  {
    && a1.Title == a2.Title && a1.Data == a2.Data && a1.Cid == a2.Cid
    && a1.LongFilename == a2.LongFilename && a1.Ext == a2.Ext
  }

  /** The message fields both engines set the same way, attachment by
      attachment. */
  predicate SameKept(m1: MessageValue, m2: MessageValue)
  {
    && m1.Subject == m2.Subject && m1.Body == m2.Body && m1.BodyHTML == m2.BodyHTML
    && m1.BodyPreview == m2.BodyPreview && m1.RtfCompressed == m2.RtfCompressed
    && |m1.Attachments| == |m2.Attachments|
    && forall i :: 0 <= i < |m1.Attachments| ==> SameKeptAttachment(m1.Attachments[i], m2.Attachments[i])
  }

  /** Erasing forgets exactly MessageClass, ContentType, Tag and Content:
      two messages erase alike if and only if they agree on every other
      field; erasing keeps those fields, empties the erased ones, and a
      second erasure changes nothing. */
  lemma EraseExactly(m1: MessageValue, m2: MessageValue)
    ensures Erase(m1) == Erase(m2) <==> SameKept(m1, m2)
    ensures SameKept(Erase(m1), m1)
    ensures Erase(m1).MessageClass.None?
    ensures forall i :: 0 <= i < |Erase(m1).Attachments| ==>
      var a := Erase(m1).Attachments[i];
      a.ContentType.None? && a.Tag.None? && a.Content.None?
    ensures Erase(Erase(m1)) == Erase(m1)
  {
    var e1, e2 := Erase(m1), Erase(m2);
    if SameKept(m1, m2) {
      assert forall i :: 0 <= i < |m1.Attachments| ==> e1.Attachments[i] == e2.Attachments[i];
      assert e1.Attachments == e2.Attachments;
    }
    if e1 == e2 {
      assert forall i :: 0 <= i < |m1.Attachments| ==>
        EraseAttachment(m1.Attachments[i]) == EraseAttachment(m2.Attachments[i]);
    }
    assert Erase(e1).Attachments == e1.Attachments;
  }

  lemma {:induction false} MergePropsCorrespond(a1: AttachmentValue, a2: AttachmentValue, ps: seq<MapiProp>, env: Externals)
    requires EraseAttachment(a1) == EraseAttachment(a2)
    ensures EraseAttachment(Parse.MergeProps(a1, ps, env)) == EraseAttachment(LegacyParse.MergeProps(a2, ps, env))
    decreases |ps|
  {
    if ps != [] {
      var b1 := Parse.MergeProp(a1, ps[0], env);
      var b2 := LegacyParse.MergeProp(a2, ps[0], env);
      assert EraseAttachment(b1) == EraseAttachment(b2);
      MergePropsCorrespond(b1, b2, ps[1..], env);
    }
  }

  lemma {:induction false} MessagePropsCorrespond(m1: MessageValue, m2: MessageValue, ps: seq<MapiProp>, env: Externals)
    requires Erase(m1) == Erase(m2)
    ensures Erase(Parse.MergeMessageProps(m1, ps, env)) == Erase(LegacyParse.MergeMessageProps(m2, ps))
    decreases |ps|
  {
    if ps != [] {
      var n1 := Parse.MergeMessageProp(m1, ps[0], env);
      var n2 := LegacyParse.MergeMessageProp(m2, ps[0]);
      assert Erase(n1).Attachments == Erase(m1).Attachments;
      assert Erase(n2).Attachments == Erase(m2).Attachments;
      MessagePropsCorrespond(n1, n2, ps[1..], env);
    }
  }

  /** The older engine throws only where the current one throws. */
  lemma ThrowsCorrespond(obj: TnefObject, env: Externals)
    ensures LegacyParse.ThrowsOnNull(obj, env) ==> Parse.ThrowsOnNull(obj, env)
  {
    if LegacyParse.ThrowsOnNull(obj, env) && obj.Name == Some(ATTATTACHMENT) {
      var ps := env.decodeMapi(obj.Data).value;
      var k :| 0 <= k < |ps| && LegacyParse.Dereferences(ps[k].Name);
      assert Parse.Dereferences(ps[k].Name);
    }
  }

  /** Updating the current attachment in both engines keeps the erased
      messages equal. */
  lemma UpdateLastCorrespond(m1: MessageValue, m2: MessageValue, x1: AttachmentValue, x2: AttachmentValue)
    requires Erase(m1) == Erase(m2) && m1.Attachments != []
    requires EraseAttachment(x1) == EraseAttachment(x2)
    ensures var last := |m1.Attachments| - 1;
      Erase(m1.(Attachments := m1.Attachments[last := x1])) == Erase(m2.(Attachments := m2.Attachments[last := x2]))
  {
    var last := |m1.Attachments| - 1;
    var e1 := Erase(m1.(Attachments := m1.Attachments[last := x1]));
    var e2 := Erase(m2.(Attachments := m2.Attachments[last := x2]));
    assert forall i :: 0 <= i < |e1.Attachments| ==> e1.Attachments[i] == e2.Attachments[i] by {
      forall i | 0 <= i < |e1.Attachments|
        ensures e1.Attachments[i] == e2.Attachments[i]
      {
        if i != last {
          assert Erase(m1).Attachments[i] == Erase(m2).Attachments[i];
        }
      }
    }
  }

  lemma OpenCorrespond(m1: MessageValue, m2: MessageValue)
    requires Erase(m1) == Erase(m2)
    ensures Erase(m1.(Attachments := m1.Attachments + [EmptyAttachment]))
         == Erase(m2.(Attachments := m2.Attachments + [EmptyAttachment]))
  {
    var e1 := Erase(m1.(Attachments := m1.Attachments + [EmptyAttachment]));
    var e2 := Erase(m2.(Attachments := m2.Attachments + [EmptyAttachment]));
    forall i | 0 <= i < |e1.Attachments|
      ensures e1.Attachments[i] == e2.Attachments[i]
    {
      if i < |m1.Attachments| {
        assert Erase(m1).Attachments[i] == Erase(m2).Attachments[i];
      }
    }
  }

  /** One record from messages that agree up to erasure: where the current
      engine goes on, the older one goes on too and the messages still
      agree; where the older one throws, so does the current one. */
  lemma ApplyRecordCorrespond(m1: MessageValue, m2: MessageValue, obj: TnefObject, env: Externals)
    requires Erase(m1) == Erase(m2)
    ensures LegacyParse.ApplyRecord(m2, obj, env).TypeError? ==> Parse.ApplyRecord(m1, obj, env).TypeError?
    ensures Parse.ApplyRecord(m1, obj, env).Ok? ==>
      && LegacyParse.ApplyRecord(m2, obj, env).Ok?
      && Erase(Parse.ApplyRecord(m1, obj, env).value) == Erase(LegacyParse.ApplyRecord(m2, obj, env).value)
  {
    assert |m1.Attachments| == |Erase(m1).Attachments| == |m2.Attachments|;
    if obj.Name == Some(ATTATTACHRENDDATA) {
      OpenCorrespond(m1, m2);
    } else if obj.Level == Some(LVL_ATTACHMENT) {
      if m1.Attachments == [] {
        ThrowsCorrespond(obj, env);
      } else {
        var last := |m1.Attachments| - 1;
        var a1 := m1.Attachments[last];
        var a2 := m2.Attachments[last];
        assert Erase(m1).Attachments[last] == Erase(m2).Attachments[last];
        if obj.Name == Some(ATTATTACHMENT) && env.decodeMapi(obj.Data).Some? {
          MergePropsCorrespond(a1, a2, env.decodeMapi(obj.Data).value, env);
        }
        UpdateLastCorrespond(m1, m2, Parse.AddAttachmentAttrSpec(a1, obj, env), LegacyParse.AddAttrSpec(a2, obj, env));
      }
    } else if obj.Name == Some(ATTSUBJECT) {
      assert Erase(m1.(Subject := Some(obj.Data))) == Erase(m1).(Subject := Some(obj.Data));
      assert Erase(m2.(Subject := Some(obj.Data))) == Erase(m2).(Subject := Some(obj.Data));
    } else if obj.Name == Some(ATTMAPIPROPS) && env.decodeMapi(obj.Data).Some? {
      MessagePropsCorrespond(m1, m2, env.decodeMapi(obj.Data).value, env);
    }
  }

  lemma {:induction false} AssembleCorrespond(rs: seq<TnefObject>, m1: MessageValue, m2: MessageValue, env: Externals)
    requires Erase(m1) == Erase(m2)
    ensures LegacyParse.Assemble(rs, m2, env).TypeError? ==> Parse.Assemble(rs, m1, env).TypeError?
    ensures Parse.Assemble(rs, m1, env).Ok? ==>
      && LegacyParse.Assemble(rs, m2, env).Ok?
      && Erase(Parse.Assemble(rs, m1, env).value) == Erase(LegacyParse.Assemble(rs, m2, env).value)
    decreases |rs|
  {
    if rs != [] {
      ApplyRecordCorrespond(m1, m2, rs[0], env);
      var r1 := Parse.ApplyRecord(m1, rs[0], env);
      var r2 := LegacyParse.ApplyRecord(m2, rs[0], env);
      if r1.Ok? {
        AssembleCorrespond(rs[1..], r1.value, r2.value, env);
      } else if r2.Ok? {
        assert Parse.Assemble(rs, m1, env) == TypeError;
      }
    }
  }

  /** On every buffer: when the current engine decodes a message, the older
      one decodes one too, equal to it but for content types, tags,
      contents and MessageClass; when the older one throws, so does the
      current one. */
  lemma DecodeCorrespond(data: seq<Cell>, env: Externals)
    ensures LegacyParse.DecodeSpec(data, env).TypeError? ==> Parse.DecodeSpec(data, env).TypeError?
    ensures Parse.DecodeSpec(data, env).Ok? ==> LegacyParse.DecodeSpec(data, env).Ok?
    ensures Parse.DecodeSpec(data, env).Ok? && Parse.DecodeSpec(data, env).value.Some? ==>
      && LegacyParse.DecodeSpec(data, env).value.Some?
      && Erase(Parse.DecodeSpec(data, env).value.value) == Erase(LegacyParse.DecodeSpec(data, env).value.value)
  {
    AssembleCorrespond(RecordsFrom(data, 6), EmptyMessage, EmptyMessage, env);
  }

  // ----- Where they differ -----

  /** MAPIAttachMimeTag: the current engine keeps a content type already
      set, the older one overwrites it. */
  lemma MimeTagDiffers(a: AttachmentValue, p: MapiProp, env: Externals)
    requires p.Name == MAPIAttachMimeTag
    ensures LegacyParse.MergeProp(a, p, env).ContentType == Some(CleanText(env, p.Data))
    ensures Parse.Truthy(a.ContentType) ==> Parse.MergeProp(a, p, env).ContentType == a.ContentType
    ensures Parse.Truthy(a.ContentType) && a.ContentType != Some(CleanText(env, p.Data)) ==>
      Parse.MergeProp(a, p, env) != LegacyParse.MergeProp(a, p, env)
  {
  }

  /** MAPIAttachDataObj holding a nested stream: the current engine keeps
      what follows byte 16 and types it application/ms-tnef, the older one
      keeps the whole property and leaves the type alone. */
  lemma NestedTnefDiffers(a: AttachmentValue, p: MapiProp, env: Externals)
    requires p.Name == MAPIAttachDataObj && IntegerAt(p.Data, 16, 4) == Some(TNEF_SIGNATURE)
    ensures |p.Data| >= 20
    ensures Parse.MergeProp(a, p, env) == a.(Content := Some(p.Data[16..]), ContentType := Some(Parse.NESTED_TNEF_TYPE))
    ensures LegacyParse.MergeProp(a, p, env) == a.(Content := Some(p.Data))
    ensures Parse.MergeProp(a, p, env).Content != LegacyParse.MergeProp(a, p, env).Content
  {
    Parse.DataObjContent(a, p, env);
    assert |p.Data[16..]| != |p.Data|;
  }

  /** MAPIAttachTag: only the current engine classifies it. */
  lemma TagOnlyCurrent(a: AttachmentValue, p: MapiProp, env: Externals)
    requires p.Name == MAPIAttachTag
    ensures LegacyParse.MergeProp(a, p, env) == a
    ensures Parse.MergeProp(a, p, env) == a.(Tag := Some(Parse.ClassifyTag(p.Data)))
  {
  }

  /** MAPIMessageClass: only the current engine stores it. */
  lemma MessageClassOnlyCurrent(m: MessageValue, p: MapiProp, env: Externals)
    requires p.Name == MAPIMessageClass
    ensures LegacyParse.MergeMessageProp(m, p) == m
    ensures Parse.MergeMessageProp(m, p, env) == m.(MessageClass := Some(CleanText(env, p.Data)))
  {
  }

  /** A stream whose first record is an attachment-level ATTATTACHMENT
      record, before any ATTATTACHRENDDATA, whose only property is a
      MAPIAttachTag: the current engine throws, the older one ignores it. */
  lemma OrphanTagDiffers(key: nat, f: RecordFields, p: MapiProp, env: Externals)
    requires key < 0x1_0000 && WellFormed(f)
    requires f.level == LVL_ATTACHMENT && f.name == ATTATTACHMENT
    requires p.Name == MAPIAttachTag && env.decodeMapi(Lift(f.payload)) == Some([p])
    ensures Parse.DecodeSpec(Lift(EncodeStream(key, [f])), env) == TypeError
    ensures LegacyParse.DecodeSpec(Lift(EncodeStream(key, [f])), env) == Ok(Some(EmptyMessage))
  {
    EncodedSignature(key, [f]);
    RecordsOfStream(key, [f]);
    var obj := Expected(f);
    assert ExpectedAll([f]) == [obj];
    assert Parse.Dereferences([p][0].Name);
    assert Parse.ApplyRecord(EmptyMessage, obj, env) == TypeError;
    assert !LegacyParse.ThrowsOnNull(obj, env);
    assert LegacyParse.ApplyRecord(EmptyMessage, obj, env) == Ok(EmptyMessage);
    assert [obj][1..] == [];
    assert LegacyParse.Assemble([obj], EmptyMessage, env) == LegacyParse.Assemble([], EmptyMessage, env);
  }
}
