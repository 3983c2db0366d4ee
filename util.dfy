/** The byte helpers of src/util.js: little-endian integers, offset/length
    slices of JavaScript arrays, and the NUL-stripping `replaceAll`. */
module Util {
  import opened Wrappers

  /** A byte as it stands in the array made by spreading a Node.js Buffer. */
  type byte = x: int | 0 <= x < 256

  /** One slot of a JavaScript array of bytes: a byte, or `undefined` when it
      was read past the end of the array it was copied from. */
  type Cell = Option<byte>

  /** `a[i]` on a JavaScript array: `undefined` past the end. */
  function At(a: seq<Cell>, i: nat): Cell
  {
    if i < |a| then a[i] else None
  }

  /** The array `processBytes(a, offset, length)` builds. */
  function Slice(a: seq<Cell>, offset: nat, length: nat): (r: seq<Cell>)
    ensures |r| == length
    ensures forall i :: 0 <= i < length ==> r[i] == At(a, offset + i)
  {
    seq(length, i requires 0 <= i < length => At(a, offset + i))
  }

  /** `a.slice(start)`: the slots from `start` on, none when `a` is shorter. */
  function ArraySlice(a: seq<Cell>, start: nat): (r: seq<Cell>)
    ensures start <= |a| ==> r == a[start..]
    ensures start > |a| ==> r == []
  {
    if start <= |a| then a[start..] else []
  }

  /** The JavaScript array `[...buffer]` holding the bytes of a Buffer. */
  function Lift(s: seq<byte>): (r: seq<Cell>)
    ensures |r| == |s|
    ensures forall i :: 0 <= i < |s| ==> r[i] == Some(s[i])
  {
    seq(|s|, i requires 0 <= i < |s| => Some(s[i]))
  }

  /** Two consecutive processBytes slices make one: the bytes of
      `[offset, offset + n)` followed by those of `[offset + n, offset + n + m)`. */
  lemma SliceAppend(a: seq<Cell>, offset: nat, n: nat, m: nat)
    ensures Slice(a, offset, n + m) == Slice(a, offset, n) + Slice(a, offset + n, m)
  {
    var l, r := Slice(a, offset, n), Slice(a, offset + n, m);
    assert forall i :: n <= i < n + m ==> (l + r)[i] == r[i - n];
  }

  /** A slice inside the array is the array's own bytes; one that starts at
      or past the end holds only undefined slots. */
  lemma SliceInside(a: seq<Cell>, offset: nat, length: nat)
    ensures offset + length <= |a| ==> Slice(a, offset, length) == a[offset..offset + length]
    ensures offset >= |a| ==> forall i :: 0 <= i < length ==> Slice(a, offset, length)[i].None?
  {
  }

  /** Indexing `a.slice(start)` at `k` is indexing `a` at `start + k`, also
      past the end and when `start` itself lies past the end. */
  lemma ArraySliceAt(a: seq<Cell>, start: nat, k: nat)
    ensures At(ArraySlice(a, start), k) == At(a, start + k)
    ensures |ArraySlice(a, start)| == if start <= |a| then |a| - start else 0
  {
  }

  /** Spreading a concatenation of Buffers gives the concatenation of
      their spreads. */
  lemma LiftAppend(s: seq<byte>, t: seq<byte>)
    ensures Lift(s + t) == Lift(s) + Lift(t)
  {
  }

  function Pow256(k: nat): (p: nat)
    ensures p > 0
  {
    if k == 0 then 1 else 256 * Pow256(k - 1)
  }

  /** The value of `bytes` read as a little-endian base-256 number (byte 0 is
      the least significant); `None` (NaN) as soon as one slot is undefined. */
  function LittleEndian(bytes: seq<Cell>): Option<nat>
  {
    if bytes == [] then Some(0)
    else match (bytes[0], LittleEndian(bytes[1..]))
      case (Some(b), Some(v)) => Some(b + 256 * v)
      case _ => None
  }

  /** The `k` little-endian bytes of `n`: the inverse of LittleEndian. */
  function Encode(n: nat, k: nat): (r: seq<byte>)
    ensures |r| == k
  {
    if k == 0 then [] else [n % 256] + Encode(n / 256, k - 1)
  }

  /** Appending one slot adds that byte times 256 to the power of its index:
      the step `num += bytes[b] * n; n *= 256` of byteArrayToInt. */
  lemma {:induction false} LittleEndianSnoc(s: seq<Cell>, c: Cell)
    ensures LittleEndian(s + [c]) ==
      match (LittleEndian(s), c)
      case (Some(v), Some(b)) => Some(v + b * Pow256(|s|))
      case _ => None
  {
    if s == [] {
      assert s + [c] == [c];
      assert [c][1..] == [];
    } else {
      assert (s + [c])[1..] == s[1..] + [c];
      LittleEndianSnoc(s[1..], c);
    }
  }

  /** Any undefined slot makes the number NaN, and only then is it NaN. */
  lemma {:induction false} LittleEndianNaN(bytes: seq<Cell>)
    ensures LittleEndian(bytes).None? <==> exists i :: 0 <= i < |bytes| && bytes[i].None?
  {
    if bytes != [] {
      LittleEndianNaN(bytes[1..]);
      if LittleEndian(bytes[1..]).None? {
        var i :| 0 <= i < |bytes[1..]| && bytes[1..][i].None?;
        assert bytes[i + 1].None?;
      }
      if exists i :: 0 <= i < |bytes| && bytes[i].None? {
        var i :| 0 <= i < |bytes| && bytes[i].None?;
        if i > 0 { assert bytes[1..][i - 1].None?; }
      }
    }
  }

  /** A number read from `k` bytes is below 256^k. */
  lemma {:induction false} LittleEndianBound(bytes: seq<Cell>)
    ensures LittleEndian(bytes).Some? ==> LittleEndian(bytes).value < Pow256(|bytes|)
  {
    if bytes != [] {
      LittleEndianBound(bytes[1..]);
    }
  }

  /** Encoding `n < 256^k` as `k` little-endian bytes and reading them back
      gives `n`. */
  lemma {:induction false} LittleEndianOfEncode(n: nat, k: nat)
    requires n < Pow256(k)
    ensures LittleEndian(Lift(Encode(n, k))) == Some(n)
  {
    if k > 0 {
      var e := Lift(Encode(n, k));
      assert e[1..] == Lift(Encode(n / 256, k - 1));
      LittleEndianOfEncode(n / 256, k - 1);
    }
  }

  /** The other direction: encoding the value of a run of defined bytes
      gives those bytes back. */
  lemma {:induction false} EncodeOfLittleEndian(s: seq<byte>)
    ensures LittleEndian(Lift(s)).Some?
    ensures Encode(LittleEndian(Lift(s)).value, |s|) == s
  {
    if s != [] {
      assert Lift(s)[1..] == Lift(s[1..]);
      EncodeOfLittleEndian(s[1..]);
    }
  }

  /** The worked case: the bytes [0x2C, 0x01] read as 300, and back. */
  lemma ThreeHundred()
    ensures LittleEndian(Lift([0x2C, 0x01])) == Some(300)
    ensures Encode(300, 2) == [0x2C, 0x01]
  {
    LittleEndianOfEncode(300, 2);
  }

  /** byteArrayToInt: the loop accumulating `num` with the running power `n`. */
  method ByteArrayToInt(bytes: seq<Cell>) returns (num: Option<nat>)
    ensures num == LittleEndian(bytes)
  {
    num := Some(0);
    var n: nat := 1;
    var i := 0;
    while i < |bytes|
      invariant 0 <= i <= |bytes|
      invariant n == Pow256(i)
      invariant num == LittleEndian(bytes[..i])
    {
      assert bytes[..i + 1] == bytes[..i] + [bytes[i]];
      LittleEndianSnoc(bytes[..i], bytes[i]);
      num := match (num, bytes[i])
        case (Some(v), Some(b)) => Some(v + b * n)
        case _ => None;
      n := n * 256;
      i := i + 1;
    }
    assert bytes[..i] == bytes;
  }

  /** processBytes: `length` slots, slot `i` being `data[offset + i]`, or
      undefined past the end of `data`. */
  method ProcessBytes(data: seq<Cell>, offset: nat, length: nat) returns (r: seq<Cell>)
    ensures |r| == length
    ensures forall i :: 0 <= i < length ==>
      r[i] == (if offset + i < |data| then data[offset + i] else None)
    ensures r == Slice(data, offset, length)
  {
    r := [];
    var i := offset;
    while i < offset + length
      invariant offset <= i <= offset + length
      invariant |r| == i - offset
      invariant forall k :: 0 <= k < |r| ==> r[k] == At(data, offset + k)
    {
      r := r + [At(data, i)];
      i := i + 1;
    }
  }

  /** The number processBytesToInteger(data, offset, length) denotes: the
      little-endian value of `length` slots from `offset`, NaN when one of
      them lies past the end of `data` or is undefined. */
  function IntegerAt(data: seq<Cell>, offset: nat, length: nat): Option<nat>
    decreases length, |data|
  {
    if length == 0 then Some(0)
    else
      var b := At(data, offset);
      var v := IntegerAt(data, offset + 1, length - 1);
      if b.Some? && v.Some? then Some(b.value + 256 * v.value) else None
  }

  /** Reading in place is reading the slice processBytes takes. */
  lemma {:induction false} IntegerAtIsLittleEndian(data: seq<Cell>, offset: nat, length: nat)
    ensures IntegerAt(data, offset, length) == LittleEndian(Slice(data, offset, length))
    decreases length, |data|
  {
    if length > 0 {
      IntegerAtIsLittleEndian(data, offset + 1, length - 1);
      assert Slice(data, offset, length)[1..] == Slice(data, offset + 1, length - 1);
    }
  }

  /** A read that runs past the end of the array is NaN. */
  lemma {:induction false} IntegerAtPastEnd(data: seq<Cell>, offset: nat, length: nat)
    requires 0 < length && |data| < offset + length
    ensures IntegerAt(data, offset, length).None?
    decreases length
  {
    if offset < |data| {
      IntegerAtPastEnd(data, offset + 1, length - 1);
    }
  }

  /** Reading from `data.slice(start)` is reading `data` from `start` on,
      even when `start` lies past its end. */
  lemma {:induction false} IntegerAtOfArraySlice(data: seq<Cell>, start: nat, offset: nat, length: nat)
    ensures IntegerAt(ArraySlice(data, start), offset, length) == IntegerAt(data, start + offset, length)
    decreases length
  {
    if length > 0 {
      assert At(ArraySlice(data, start), offset) == At(data, start + offset);
      IntegerAtOfArraySlice(data, start, offset + 1, length - 1);
    }
  }

  /** processBytesToInteger: byteArrayToInt of the slice processBytes takes. */
  method ProcessBytesToInteger(data: seq<Cell>, offset: nat, length: nat) returns (r: Option<nat>)
    ensures r == IntegerAt(data, offset, length)
    ensures r.None? <==> exists i :: offset <= i < offset + length && At(data, i).None?
  {
    var bytesToProcess := [];
    var i := offset;
    while i < offset + length
      invariant offset <= i <= offset + length
      invariant bytesToProcess == Slice(data, offset, i - offset)
    {
      bytesToProcess := bytesToProcess + [At(data, i)];
      i := i + 1;
    }
    r := ByteArrayToInt(bytesToProcess);
    IntegerAtIsLittleEndian(data, offset, length);
    LittleEndianNaN(bytesToProcess);
    if r.None? {
      var k :| 0 <= k < |bytesToProcess| && bytesToProcess[k].None?;
      assert At(data, offset + k).None?;
    }
    if exists j :: offset <= j < offset + length && At(data, j).None? {
      var j :| offset <= j < offset + length && At(data, j).None?;
      assert bytesToProcess[j - offset].None?;
    }
  }

  /** `s.replaceAll('\x00', '')`: the text with every NUL removed. */
  function StripNul(s: string): (r: string)
    ensures '\0' !in r
    ensures |r| <= |s|
  {
    if s == [] then []
    else (if s[0] == '\0' then [] else [s[0]]) + StripNul(s[1..])
  }

  /** Stripping distributes over concatenation, so the characters that are
      kept stay in their order. */
  lemma {:induction false} StripNulAppend(a: string, b: string)
    ensures StripNul(a + b) == StripNul(a) + StripNul(b)
  {
    if a != [] {
      assert (a + b)[0] == a[0];
      assert (a + b)[1..] == a[1..] + b;
      StripNulAppend(a[1..], b);
      var h := if a[0] == '\0' then [] else [a[0]];
      assert StripNul(a + b) == h + (StripNul(a[1..]) + StripNul(b));
    } else {
      assert a + b == b;
    }
  }

  /** Text without a NUL is left as it is. */
  lemma {:induction false} StripNulKeepsClean(s: string)
    requires '\0' !in s
    ensures StripNul(s) == s
  {
    if s != [] {
      StripNulKeepsClean(s[1..]);
    }
  }

  /** Every character other than NUL keeps its number of occurrences. */
  lemma {:induction false} StripNulCounts(s: string, c: char)
    requires c != '\0'
    ensures multiset(StripNul(s))[c] == multiset(s)[c]
  {
    if s != [] {
      StripNulCounts(s[1..], c);
      assert s == [s[0]] + s[1..];
    }
  }

  /** Stripping twice is stripping once. */
  lemma StripNulIdempotent(s: string)
    ensures StripNul(StripNul(s)) == StripNul(s)
  {
    StripNulKeepsClean(StripNul(s));
  }
}
