/** The collaborators the engine calls whose code is not part of this model:
    the MAPI property-list decoder `mapi.decodeMapi` with its identifier
    table `mapi.MAPITypes`, and `convertString.bytesToString`. They reach
    every decoding operation as one `Externals` value. */
module Mapi {
  import opened Wrappers
  import opened Util

  /** The members of `mapi.MAPITypes` that the engine switches on, as
      distinct abstract constants; every other identifier is `Other`. */
  datatype MapiName =
    | MAPIAttachContentId
    | MAPIAttachMimeTag
    | MAPIAttachTag
    | MAPIAttachLongFilename
    | MAPIAttachExtension
    | MAPIAttachDataObj
    | MAPIBody
    | MAPIBodyHTML
    | MAPIBodyPreview
    | MAPIRtfCompressed
    | MAPIMessageClass
    | Other(id: int)

  /** One decoded property: its identifier and its raw bytes. */
  datatype MapiProp = MapiProp(Name: MapiName, Data: seq<Cell>)

  /** `decodeMapi` maps the bytes of a record to a property list, `None`
      standing for a falsy result; `charOf` is the character bytesToString
      makes of one array slot. */
  datatype Externals = Externals(
    decodeMapi: seq<Cell> -> Option<seq<MapiProp>>,
    charOf: Cell -> char)

  /** `convertString.bytesToString(bytes)`: one character per slot. */
  function BytesToString(env: Externals, bytes: seq<Cell>): (s: string)
    ensures |s| == |bytes|
    ensures forall i :: 0 <= i < |bytes| ==> s[i] == env.charOf(bytes[i])
  {
    seq(|bytes|, i requires 0 <= i < |bytes| => env.charOf(bytes[i]))
  }

  /** bytesToString works slot by slot: converting a concatenation is
      concatenating the conversions, and equal slots give equal characters. */
  lemma BytesToStringAppend(env: Externals, a: seq<Cell>, b: seq<Cell>)
    ensures BytesToString(env, a + b) == BytesToString(env, a) + BytesToString(env, b)
    ensures a == b ==> BytesToString(env, a) == BytesToString(env, b)
  {
    var l, r := BytesToString(env, a), BytesToString(env, b);
    assert forall i :: |a| <= i < |a| + |b| ==> (l + r)[i] == r[i - |a|];
  }

  /** The text of a property: bytesToString, then every NUL removed. */
  function CleanText(env: Externals, bytes: seq<Cell>): string
  {
    StripNul(BytesToString(env, bytes))
  }

  /** The data of the last property named `n`, if there is one. */
  function LastData(ps: seq<MapiProp>, n: MapiName): Option<seq<Cell>>
  {
    if ps == [] then None
    else if ps[|ps| - 1].Name == n then Some(ps[|ps| - 1].Data)
    else LastData(ps[..|ps| - 1], n)
  }

  lemma {:induction false} LastDataCons(p: MapiProp, ps: seq<MapiProp>, n: MapiName)
    ensures LastData([p] + ps, n) ==
      if LastData(ps, n).Some? then LastData(ps, n)
      else if p.Name == n then Some(p.Data) else None
    decreases |ps|
  {
    var qs := [p] + ps;
    if ps != [] {
      assert qs[|qs| - 1] == ps[|ps| - 1];
      assert qs[..|qs| - 1] == [p] + ps[..|ps| - 1];
      LastDataCons(p, ps[..|ps| - 1], n);
    } else {
      assert qs[..|qs| - 1] == [];
    }
  }
}
