/** The objects Decode builds: the attachment objects (`attachment = {}`)
    that addAttachmentAttr fills in place, and the message object `tnef`
    with its `Attachments` array. A field the source never assigned is
    `None` (JavaScript `undefined`). Both variants of the engine build the
    same shapes. */
module TnefObjects {
  import opened Wrappers
  import opened Util
  import opened Mapi

  /** The value of an attachment object at one moment. */
  datatype AttachmentValue = AttachmentValue(
    Title: Option<string>,
    Data: Option<seq<Cell>>,
    Cid: Option<string>,
    ContentType: Option<string>,
    Tag: Option<string>,
    LongFilename: Option<string>,
    Ext: Option<string>,
    Content: Option<seq<Cell>>)

  const EmptyAttachment := AttachmentValue(None, None, None, None, None, None, None, None)

  /** The value of the message object at one moment. */
  datatype MessageValue = MessageValue(
    Subject: Option<seq<Cell>>,
    Body: Option<seq<Cell>>,
    BodyHTML: Option<seq<Cell>>,
    BodyPreview: Option<seq<Cell>>,
    RtfCompressed: Option<seq<Cell>>,
    MessageClass: Option<string>,
    Attachments: seq<AttachmentValue>)

  const EmptyMessage := MessageValue(None, None, None, None, None, None, [])

  /** A call that either returns a value or throws the TypeError that
      reading or writing a property of `null` raises. */
  datatype Result<+T> = Ok(value: T) | TypeError

  class Attachment {
    var Title: Option<string>
    var Data: Option<seq<Cell>>
    var Cid: Option<string>
    var ContentType: Option<string>
    var Tag: Option<string>
    var LongFilename: Option<string>
    var Ext: Option<string>
    var Content: Option<seq<Cell>>

    /** `{}` */
    constructor ()
      ensures Value() == EmptyAttachment
    {
      Title, Data, Cid, ContentType := None, None, None, None;
      Tag, LongFilename, Ext, Content := None, None, None, None;
    }

    function Value(): AttachmentValue
      reads this
    {
      AttachmentValue(Title, Data, Cid, ContentType, Tag, LongFilename, Ext, Content)
    }
  }

  class Message {
    var Subject: Option<seq<Cell>>
    var Body: Option<seq<Cell>>
    var BodyHTML: Option<seq<Cell>>
    var BodyPreview: Option<seq<Cell>>
    var RtfCompressed: Option<seq<Cell>>
    var MessageClass: Option<string>
    var Attachments: seq<Attachment>

    /** `tnef = {}; tnef.Attachments = []` */
    constructor ()
      ensures Value() == EmptyMessage && Attachments == []
    {
      Subject, Body, BodyHTML, BodyPreview := None, None, None, None;
      RtfCompressed, MessageClass, Attachments := None, None, [];
    }

    /** No attachment object sits twice in the array. */
    ghost predicate Valid()
      reads this
    {
      forall i, j :: 0 <= i < j < |Attachments| ==> Attachments[i] != Attachments[j]
    }

    function Value(): (r: MessageValue)
      reads this, Attachments
      ensures |r.Attachments| == |Attachments|
      ensures forall i :: 0 <= i < |Attachments| ==> r.Attachments[i] == Attachments[i].Value()
    {
      var atts := Attachments;
      MessageValue(Subject, Body, BodyHTML, BodyPreview, RtfCompressed, MessageClass,
        seq(|atts|, i requires 0 <= i < |atts| reads atts => atts[i].Value()))
    }

    /** `attachment = {}; tnef.Attachments.push(attachment)`: a fresh empty
        attachment becomes the last one. */
    method OpenAttachment() returns (current: Attachment)
      requires Valid()
      modifies this
      ensures fresh(current)
      ensures Attachments == old(Attachments) + [current]
      ensures Valid()
      ensures Value() == old(Value()).(Attachments := old(Value()).Attachments + [EmptyAttachment])
    {
      ghost var before := Value();
      current := new Attachment();
      Attachments := Attachments + [current];
      assert Value().Attachments == before.Attachments + [EmptyAttachment];
    }
  }

  /** The raw message fields the message-property loop sets. */
  function RawField(m: MessageValue, n: MapiName): Option<seq<Cell>>
  {
    match n
    case MAPIBody => m.Body
    case MAPIBodyHTML => m.BodyHTML
    case MAPIBodyPreview => m.BodyPreview
    case MAPIRtfCompressed => m.RtfCompressed
    case _ => None
  }

  predicate IsRawField(n: MapiName)
  {
    n.MAPIBody? || n.MAPIBodyHTML? || n.MAPIBodyPreview? || n.MAPIRtfCompressed?
  }

  /** The text attachment fields the merger sets from one property each. */
  function TextField(a: AttachmentValue, n: MapiName): Option<string>
  {
    match n
    case MAPIAttachContentId => a.Cid
    case MAPIAttachLongFilename => a.LongFilename
    case MAPIAttachExtension => a.Ext
    case _ => None
  }

  predicate IsTextField(n: MapiName)
  {
    n.MAPIAttachContentId? || n.MAPIAttachLongFilename? || n.MAPIAttachExtension?
  }
}
