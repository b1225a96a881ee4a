// The metadata inspector of tools/inspect: locating a stream in an ECMA-335
// metadata root, the little-endian readers, the heap-index width rules and
// the NestedClass ordering check.

module MetadataInspect {
  import opened JsValues
  import opened NodeBuffer

  /** "BSJB" read as a little-endian 32-bit value. */
  const Signature: nat := 0x424A5342

  /**
   * `(value + 3) & ~3`: clearing the two low bits of `v + 3` subtracts its
   * remainder by four, which rounds `v` up to a multiple of four.
   */
  function Align4(v: int): (r: int)
    ensures r % 4 == 0
    ensures v <= r < v + 4
  {
    (v + 3) - (v + 3) % 4
  }

  // ---------------------------------------------------------------------------
  // Little-endian readers.  The source indexes a span, which throws when the
  // read runs off either end; that is `None` here.

  function ReadUInt16(span: seq<Byte>, offset: int): (r: Option<nat>)
    ensures r.Some? <==> 0 <= offset && offset + 2 <= |span|
    ensures r.Some? ==> r.value == span[offset] as int + 256 * span[offset + 1] as int && r.value < 0x1_0000
  {
    if 0 <= offset && offset + 2 <= |span| then
      var w := span[offset..offset + 2];
      assert DecodeLE(w) == w[0] as int + 256 * DecodeLE(w[1..]);
      assert DecodeLE(w[1..]) == w[1] as int + 256 * DecodeLE(w[2..]);
      Some(DecodeLE(w))
    else
      None
  }

  function ReadUInt32(span: seq<Byte>, offset: int): (r: Option<nat>)
    ensures r.Some? <==> 0 <= offset && offset + 4 <= |span|
    ensures r.Some? ==> r.value == DecodeLE(span[offset..offset + 4]) && r.value < 0x1_0000_0000
  {
    if 0 <= offset && offset + 4 <= |span| then
      Pow256Four();
      Some(DecodeLE(span[offset..offset + 4]))
    else
      None
  }

  lemma Pow256Four()
    ensures Pow256(4) == 0x1_0000_0000
  {
    assert Pow256(1) == 256 * Pow256(0);
    assert Pow256(2) == 256 * Pow256(1);
    assert Pow256(3) == 256 * Pow256(2);
    assert Pow256(4) == 256 * Pow256(3);
  }

  /** The `ref offset` reader: the value read and the offset moved past it. */
  method ReadUInt32At(span: seq<Byte>, offset: int) returns (r: Option<nat>, next: int)
    ensures next == offset + 4
    ensures r == ReadUInt32(span, offset)
  {
    r := ReadUInt32(span, offset);
    next := offset + 4;
  }

  /** Eight little-endian bytes are the low four plus 2^32 times the high four. */
  lemma DecodeLE8(w: seq<Byte>)
    requires |w| == 8
    ensures DecodeLE(w) == DecodeLE(w[..4]) + 0x1_0000_0000 * DecodeLE(w[4..])
  {
    DecodeLE4(w[..4]);
    DecodeLE4(w[4..]);
    assert DecodeLE(w) == w[0] as int + 256 * DecodeLE(w[1..]);
    assert DecodeLE(w[1..]) == w[1] as int + 256 * DecodeLE(w[2..]);
    assert DecodeLE(w[2..]) == w[2] as int + 256 * DecodeLE(w[3..]);
    assert DecodeLE(w[3..]) == w[3] as int + 256 * DecodeLE(w[4..]);
  }

  /**
   * `lo | (hi << 32)`: the low word is below 2^32, so the two halves do not
   * overlap and the result is the 8-byte little-endian value.
   */
  method ReadUInt64At(span: seq<Byte>, offset: int) returns (r: Option<nat>, next: int)
    ensures r.Some? <==> 0 <= offset && offset + 8 <= |span|
    ensures r.Some? ==> next == offset + 8 && r.value == DecodeLE(span[offset..offset + 8])
  {
    var lo, mid := ReadUInt32At(span, offset);
    if lo.None? {
      return None, mid;
    }
    var hi;
    hi, next := ReadUInt32At(span, mid);
    if hi.None? {
      return None, next;
    }
    var w := span[offset..offset + 8];
    DecodeLE8(w);
    assert w[..4] == span[offset..offset + 4];
    assert w[4..] == span[offset + 4..offset + 8];
    r := Some(lo.value + 0x1_0000_0000 * hi.value);
  }

  // ---------------------------------------------------------------------------
  // Strings heap.

  datatype HeapString = Bytes(bytes: seq<Byte>) | BadIndex(index: nat)

  /**
   * The NUL-terminated entry of the strings heap at `index`; the empty heap
   * and index 0 read as the empty string, an index past the heap as the
   * `<bad-string-index:N>` marker.  The result is the entry's raw bytes:
   * the UTF-8 decoding that follows in the reader is not part of this model.
   */
  method ReadString(heap: seq<Byte>, index: nat) returns (r: HeapString)
    ensures heap == [] || index == 0 ==> r == Bytes([])
    ensures heap != [] && index != 0 && index >= |heap| ==> r == BadIndex(index)
    ensures heap != [] && 0 < index < |heap| ==>
      r.Bytes? && index + |r.bytes| <= |heap| && r.bytes == heap[index..index + |r.bytes|]
      && (forall k :: 0 <= k < |r.bytes| ==> r.bytes[k] != 0)
      && (index + |r.bytes| == |heap| || heap[index + |r.bytes|] == 0)
  {
    if heap == [] || index == 0 {
      return Bytes([]);
    }
    if index >= |heap| {
      return BadIndex(index);
    }
    var end := index;
    while end < |heap| && heap[end] != 0
      invariant index <= end <= |heap|
      invariant forall k :: index <= k < end ==> heap[k] != 0
    {
      end := end + 1;
    }
    r := Bytes(heap[index..end]);
  }

  // ---------------------------------------------------------------------------
  // Index widths.

  function Pow2(n: nat): (r: nat)
    ensures r >= 1
  {
    if n == 0 then 1 else 2 * Pow2(n - 1)
  }

  /** A simple table index is two bytes while the table has fewer than 2^16 rows. */
  function SimpleIndexSize(rows: nat): (r: nat)
    ensures r == 2 || r == 4
    ensures r == 2 <==> rows < 0x1_0000
  {
    if rows < 0x1_0000 then 2 else 4
  }

  /**
   * A coded index tagging `tagBits` bits is two bytes exactly when every
   * table it may point into has fewer than 2^(16 - tagBits) rows.
   */
  method CodedIndexSize(tagBits: nat, rowCounts: seq<nat>) returns (size: nat)
    requires tagBits <= 16
    ensures size == 2 || size == 4
    ensures size == 2 <==> forall k :: 0 <= k < |rowCounts| ==> rowCounts[k] < Pow2(16 - tagBits)
  {
    var max := 0;
    for i := 0 to |rowCounts|
      invariant forall k :: 0 <= k < i ==> rowCounts[k] <= max
      invariant max == 0 || exists k :: 0 <= k < i && rowCounts[k] == max
    {
      max := Max(max, rowCounts[i]);
    }
    size := if max < Pow2(16 - tagBits) then 2 else 4;
  }

  // ---------------------------------------------------------------------------
  // NestedClass ordering.

  /** The end of row `i` of a table of two-column rows at `start`. */
  function RowEnd(start: nat, indexSize: nat, i: nat): nat
  {
    start + (i + 1) * (2 * indexSize)
  }

  /** The nested-type column of row `i` of a NestedClass table at `start`. */
  function NestedAt(tables: seq<Byte>, start: nat, indexSize: nat, i: nat): nat
    requires indexSize == 2 || indexSize == 4
    requires RowEnd(start, indexSize, i) <= |tables|
  {
    var off := start + i * (2 * indexSize);
    DecodeLE(tables[off..off + indexSize])
  }

  /**
   * Rows are read only once the whole table fits in the stream; the table is
   * reported sorted when no row's nested index is below its predecessor's.
   */
  method NestedClassSorted(tables: seq<Byte>, start: nat, count: nat, indexSize: nat)
    returns (r: Option<bool>)
    requires indexSize == 2 || indexSize == 4
    ensures r.None? <==> start + count * (2 * indexSize) > |tables|
    ensures r.Some? ==> (r.value <==>
      forall i, j :: 0 <= i < j < count ==>
        NestedAt(tables, start, indexSize, i) <= NestedAt(tables, start, indexSize, j))
  {
    var rowSize := 2 * indexSize;
    if start + count * rowSize > |tables| {
      return None;
    }
    RowsFit(tables, start, count, indexSize);
    var lastNested := 0;
    var sorted := true;
    for i := 0 to count
      invariant i > 0 ==> lastNested == NestedAt(tables, start, indexSize, i - 1)
      invariant sorted ==> forall a, b :: 0 <= a < b < i ==>
        NestedAt(tables, start, indexSize, a) <= NestedAt(tables, start, indexSize, b)
      invariant !sorted ==> exists a :: (0 <= a && a + 1 < i &&
        NestedAt(tables, start, indexSize, a) > NestedAt(tables, start, indexSize, a + 1))
    {
      var nested := NestedRow(tables, start, indexSize, i);
      if i > 0 && nested < lastNested {
        sorted := false;
      }
      lastNested := nested;
    }
    r := Some(sorted);
  }

  /** Every row of a table that fits lies inside the stream. */
  lemma RowsFit(tables: seq<Byte>, start: nat, count: nat, indexSize: nat)
    requires start + count * (2 * indexSize) <= |tables|
    ensures forall i :: 0 <= i < count ==> RowEnd(start, indexSize, i) <= |tables|
  {
    forall i | 0 <= i < count
      ensures RowEnd(start, indexSize, i) <= |tables|
    {
      MulLeq(i + 1, count, 2 * indexSize);
    }
  }

  lemma MulLeq(a: nat, b: nat, c: nat)
    requires a <= b
    ensures a * c <= b * c
  {
  }

  /** One read of the nested column, through the two- or four-byte reader. */
  method NestedRow(tables: seq<Byte>, start: nat, indexSize: nat, i: nat) returns (nested: nat)
    requires indexSize == 2 || indexSize == 4
    requires RowEnd(start, indexSize, i) <= |tables|
    ensures nested == NestedAt(tables, start, indexSize, i)
  {
    var off := start + i * (2 * indexSize);
    if indexSize == 2 {
      var v := ReadUInt16(tables, off);
      var w := tables[off..off + 2];
      assert DecodeLE(w) == w[0] as int + 256 * DecodeLE(w[1..]);
      assert DecodeLE(w[1..]) == w[1] as int + 256 * DecodeLE(w[2..]);
      nested := v.value;
    } else {
      var v := ReadUInt32(tables, off);
      nested := v.value;
    }
  }

  // ---------------------------------------------------------------------------
  // Metadata root and stream headers.

  /** Outcome of a stream lookup: not there, found, or an exception. */
  datatype StreamLookup = NotFound | Found(offset: nat, size: nat) | Throws

  /** The first NUL at or after `from`, or the end of the root. */
  function NulFrom(root: seq<Byte>, from: nat): (r: nat)
    requires from <= |root|
    ensures from <= r <= |root|
    ensures forall k :: from <= k < r ==> root[k] != 0
    ensures r < |root| ==> root[r] == 0
    decreases |root| - from
  {
    if from == |root| || root[from] == 0 then from else NulFrom(root, from + 1)
  }

  /** `Encoding.ASCII.GetString`: bytes above 0x7F become '?'. */
  function AsciiChars(bytes: seq<Byte>): (r: string)
    ensures |r| == |bytes|
    ensures forall k :: 0 <= k < |bytes| && bytes[k] < 0x80 ==> r[k] as int == bytes[k]
  {
    if bytes == [] then ""
    else [if bytes[0] < 0x80 then bytes[0] as char else '?'] + AsciiChars(bytes[1..])
  }

  /** A 32-bit count cast to int under `checked`: above Int32Max it throws. */
  predicate FitsInt32(v: nat) { v <= Int32Max }

  /**
   * The stream headers from `offset` on, `remaining` of them: each is a
   * 4-byte offset, a 4-byte size and a NUL-terminated name padded to four
   * bytes.  An unterminated name ends the search without a result.
   */
  function StreamsFrom(root: seq<Byte>, name: string, offset: int, remaining: nat): StreamLookup
    decreases remaining
  {
    if remaining == 0 then NotFound
    else
      match HeaderAt(root, name, offset)
      case Stop(result) => result
      case Next(next) => StreamsFrom(root, name, next, remaining - 1)
  }

  datatype HeaderStep = Stop(result: StreamLookup) | Next(offset: int)

  /**
   * One stream header at `offset`: a read past the end or a count above
   * Int32Max throws, an unterminated name ends the search, the requested
   * name gives the stream, and any other name moves on to the next header,
   * past the name's NUL padded to four bytes.
   */
  function HeaderAt(root: seq<Byte>, name: string, offset: int): (r: HeaderStep)
    ensures r.Next? ==> r.offset > offset + 8
  {
    var so := ReadUInt32(root, offset);
    if so.None? || !FitsInt32(so.value) then Stop(Throws)
    else
      var ss := ReadUInt32(root, offset + 4);
      if ss.None? || !FitsInt32(ss.value) then Stop(Throws)
      else
        var nameEnd := NulFrom(root, offset + 8);
        if nameEnd >= |root| then Stop(NotFound)
        else if AsciiChars(root[offset + 8..nameEnd]) == name then Stop(Found(so.value, ss.value))
        else Next(Align4(nameEnd + 1))
  }

  /**
   * The metadata root: signature, versions, reserved word, version string
   * padded to four bytes, flags, stream count, then the stream headers.
   * A version length so large that `offset` overflows int leaves the reads
   * out of range, which is the `Throws` the unbounded offset gives here.
   */
  function MetadataStream(root: seq<Byte>, name: string): StreamLookup
  {
    if |root| < 16 then NotFound
    else if ReadUInt32(root, 0).value != Signature then NotFound
    else
      var versionLen := ReadUInt32(root, 12).value;
      if !FitsInt32(versionLen) then Throws
      else
        var flagsAt := Align4(16 + versionLen);
        var streams := ReadUInt16(root, flagsAt + 2);
        if streams.None? then Throws
        else StreamsFrom(root, name, flagsAt + 4, streams.value)
  }

  /** The lookup walks the headers in a loop; the result is MetadataStream's. */
  method TryGetMetadataStream(root: seq<Byte>, name: string) returns (r: StreamLookup)
    ensures r == MetadataStream(root, name)
  {
    if |root| < 16 {
      return NotFound;
    }
    var sig := ReadUInt32(root, 0);
    if sig.value != Signature {
      return NotFound;
    }
    var versionLen := ReadUInt32(root, 12);
    if !FitsInt32(versionLen.value) {
      return Throws;
    }
    var offset := Align4(16 + versionLen.value) + 2;
    var streams := ReadUInt16(root, offset);
    if streams.None? {
      return Throws;
    }
    offset := offset + 2;
    ghost var flagsAt := Align4(16 + versionLen.value);
    assert offset == flagsAt + 4 && streams == ReadUInt16(root, flagsAt + 2);
    r := WalkHeaders(root, name, offset, streams.value);
  }

  /** The `for` loop over the stream headers. */
  method WalkHeaders(root: seq<Byte>, name: string, first: int, streams: nat) returns (r: StreamLookup)
    ensures r == StreamsFrom(root, name, first, streams)
  {
    var offset := first;
    var i := 0;
    while i < streams
      invariant 0 <= i <= streams
      invariant StreamsFrom(root, name, offset, streams - i) == StreamsFrom(root, name, first, streams)
    {
      var header := StreamHeader(root, name, offset);
      if header.Stop? {
        assert header.result == StreamsFrom(root, name, first, streams) by {
          StreamsFromStep(root, name, offset, streams - i);
        }
        return header.result;
      }
      assert StreamsFrom(root, name, header.offset, streams - (i + 1)) == StreamsFrom(root, name, first, streams) by {
        StreamsFromStep(root, name, offset, streams - i);
        assert streams - (i + 1) == streams - i - 1;
      }
      offset := header.offset;
      i := i + 1;
    }
    return NotFound;
  }

  /** A header that yields a stream carries the requested name, and its
      offset and size fit an int. */
  lemma HeaderAtFound(root: seq<Byte>, name: string, offset: int)
    requires HeaderAt(root, name, offset).Stop? && HeaderAt(root, name, offset).result.Found?
    ensures var r := HeaderAt(root, name, offset).result;
      && HeaderNamed(root, name, offset, r.offset, r.size)
      && FitsInt32(r.offset) && FitsInt32(r.size)
  {
  }

  /** With headers left, the lookup is decided by the first header or goes on after it. */
  lemma StreamsFromStep(root: seq<Byte>, name: string, offset: int, left: nat)
    requires left >= 1
    ensures HeaderAt(root, name, offset).Stop? ==> StreamsFrom(root, name, offset, left) == HeaderAt(root, name, offset).result
    ensures HeaderAt(root, name, offset).Next? ==>
      StreamsFrom(root, name, offset, left) == StreamsFrom(root, name, HeaderAt(root, name, offset).offset, left - 1)
  {
  }

  /** One stream header, read field by field. */
  method StreamHeader(root: seq<Byte>, name: string, offset: int) returns (step: HeaderStep)
    ensures step == HeaderAt(root, name, offset)
  {
    var so, at := ReadUInt32At(root, offset);
    if so.None? || !FitsInt32(so.value) {
      return Stop(Throws);
    }
    var ss;
    ss, at := ReadUInt32At(root, at);
    if ss.None? || !FitsInt32(ss.value) {
      return Stop(Throws);
    }
    var nameEnd := FindNul(root, at);
    if nameEnd >= |root| {
      return Stop(NotFound);
    }
    if AsciiChars(root[at..nameEnd]) == name {
      return Stop(Found(so.value, ss.value));
    }
    return Next(Align4(nameEnd + 1));
  }

  /** The loop over a name's bytes: the index of its NUL terminator, or
      the end of the root. */
  method FindNul(root: seq<Byte>, from: nat) returns (nameEnd: nat)
    requires from <= |root|
    ensures nameEnd == NulFrom(root, from)
  {
    nameEnd := from;
    while nameEnd < |root| && root[nameEnd] != 0
      invariant from <= nameEnd <= |root|
      invariant forall k :: from <= k < nameEnd ==> root[k] != 0
      decreases |root| - nameEnd
    {
      nameEnd := nameEnd + 1;
    }
    NulFromIsFirst(root, from, nameEnd);
  }

  lemma {:induction false} NulFromIsFirst(root: seq<Byte>, from: nat, at: nat)
    requires from <= at <= |root|
    requires forall k :: from <= k < at ==> root[k] != 0
    requires at == |root| || root[at] == 0
    ensures NulFrom(root, from) == at
    decreases at - from
  {
    if from < at {
      NulFromIsFirst(root, from + 1, at);
    }
  }

  // ---------------------------------------------------------------------------
  // Properties of the lookup.

  /** A root shorter than the fixed header, or not starting with "BSJB", has no streams. */
  lemma NoStreamWithoutSignature(root: seq<Byte>, name: string)
    requires |root| < 16 || root[..4] != [0x42, 0x53, 0x4A, 0x42]
    ensures MetadataStream(root, name) == NotFound
  {
    if |root| >= 16 {
      var bsjb: seq<Byte> := [0x42, 0x53, 0x4A, 0x42];
      DecodeLE4(bsjb);
      DecodeLEInjective(root[0..4], bsjb);
      assert root[..4] == root[0..4];
    }
  }

  /** Equal-length byte strings with the same little-endian value are equal. */
  lemma {:induction false} DecodeLEInjective(a: seq<Byte>, b: seq<Byte>)
    requires |a| == |b|
    ensures DecodeLE(a) == DecodeLE(b) ==> a == b
    decreases |a|
  {
    if a != [] && DecodeLE(a) == DecodeLE(b) {
      var x, y := DecodeLE(a[1..]), DecodeLE(b[1..]);
      assert a[0] as int - b[0] as int == 256 * (y - x);
      MulSmall(256, y - x, a[0] as int - b[0] as int);
      DecodeLEInjective(a[1..], b[1..]);
      assert a == [a[0]] + a[1..];
      assert b == [b[0]] + b[1..];
    }
  }

  /** The header whose name matched: a found stream's offset and size are that header's. */
  predicate HeaderNamed(root: seq<Byte>, name: string, at: int, offset: nat, size: nat)
  {
    0 <= at && at + 8 <= |root|
    && ReadUInt32(root, at) == Some(offset) && ReadUInt32(root, at + 4) == Some(size)
    && NulFrom(root, at + 8) < |root|
    && AsciiChars(root[at + 8..NulFrom(root, at + 8)]) == name
  }

  lemma {:induction false} FoundComesFromHeader(root: seq<Byte>, name: string, offset: int, remaining: nat)
    requires StreamsFrom(root, name, offset, remaining).Found?
    ensures exists at :: offset <= at && HeaderNamed(root, name, at,
      StreamsFrom(root, name, offset, remaining).offset, StreamsFrom(root, name, offset, remaining).size)
    decreases remaining
  {
    var r := StreamsFrom(root, name, offset, remaining);
    var h := HeaderAt(root, name, offset);
    if h.Stop? {
      assert r == h.result;
      HeaderAtFound(root, name, offset);
    } else {
      assert r == StreamsFrom(root, name, h.offset, remaining - 1);
      FoundComesFromHeader(root, name, h.offset, remaining - 1);
    }
  }

  /** A found stream names a header whose name is the requested one. */
  lemma FoundNamesAHeader(root: seq<Byte>, name: string)
    requires MetadataStream(root, name).Found?
    ensures exists at :: HeaderNamed(root, name, at,
      MetadataStream(root, name).offset, MetadataStream(root, name).size)
  {
    var versionLen := ReadUInt32(root, 12).value;
    var flagsAt := Align4(16 + versionLen);
    FoundComesFromHeader(root, name, flagsAt + 4, ReadUInt16(root, flagsAt + 2).value);
  }

  /** The lookup never reports an offset or size that does not fit an int. */
  lemma {:induction false} FoundFitsInt32(root: seq<Byte>, name: string, offset: int, remaining: nat)
    requires StreamsFrom(root, name, offset, remaining).Found?
    ensures StreamsFrom(root, name, offset, remaining).offset <= Int32Max
    ensures StreamsFrom(root, name, offset, remaining).size <= Int32Max
    decreases remaining
  {
    var r := StreamsFrom(root, name, offset, remaining);
    var h := HeaderAt(root, name, offset);
    if h.Stop? {
      assert r == h.result;
      HeaderAtFound(root, name, offset);
    } else {
      assert r == StreamsFrom(root, name, h.offset, remaining - 1);
      FoundFitsInt32(root, name, h.offset, remaining - 1);
    }
  }

  /** A root with a four-byte version string and one stream header at offset 24. */
  lemma OneHeaderPreamble(root: seq<Byte>, name: string)
    requires |root| >= 24
    requires root[0] == 0x42 && root[1] == 0x53 && root[2] == 0x4A && root[3] == 0x42
    requires root[12] == 4 && root[13] == 0 && root[14] == 0 && root[15] == 0
    requires root[22] == 1 && root[23] == 0
    ensures MetadataStream(root, name) == StreamsFrom(root, name, 24, 1)
  {
    assert ReadUInt32(root, 0).value == Signature by {
      ReadUInt32Bytes(root, 0);
    }
    assert ReadUInt32(root, 12).value == 4 by {
      ReadUInt32Bytes(root, 12);
    }
    assert Align4(16 + 4) == 20;
    assert ReadUInt16(root, 22) == Some(1);
  }

  /** A first header naming "#~" with offset 0x6C and size 0x10. */
  lemma TildeHeader(root: seq<Byte>, name: string)
    requires |root| >= 36
    requires root[24] == 0x6C && root[25] == 0 && root[26] == 0 && root[27] == 0
    requires root[28] == 0x10 && root[29] == 0 && root[30] == 0 && root[31] == 0
    requires root[32] == 0x23 && root[33] == 0x7E && root[34] == 0
    ensures StreamsFrom(root, name, 24, 1) == if name == "#~" then Found(0x6C, 0x10) else NotFound
  {
    ReadUInt32Bytes(root, 24);
    ReadUInt32Bytes(root, 28);
    NulFromIsFirst(root, 32, 34);
    assert root[32..34] == [0x23, 0x7E];
    assert AsciiChars(root[32..34]) == "#~";
  }

  /**
   * A root with a four-byte version string and one stream header, "#~" at
   * offset 0x6C with size 0x10: the lookup finds that stream and no other.
   */
  lemma FindsSingleStream(root: seq<Byte>, name: string)
    requires |root| >= 36
    requires root[0] == 0x42 && root[1] == 0x53 && root[2] == 0x4A && root[3] == 0x42
    requires root[12] == 4 && root[13] == 0 && root[14] == 0 && root[15] == 0
    requires root[22] == 1 && root[23] == 0
    requires root[24] == 0x6C && root[25] == 0 && root[26] == 0 && root[27] == 0
    requires root[28] == 0x10 && root[29] == 0 && root[30] == 0 && root[31] == 0
    requires root[32] == 0x23 && root[33] == 0x7E && root[34] == 0
    ensures MetadataStream(root, name) == if name == "#~" then Found(0x6C, 0x10) else NotFound
  {
    OneHeaderPreamble(root, name);
    TildeHeader(root, name);
  }

  lemma DecodeLE4(w: seq<Byte>)
    requires |w| == 4
    ensures DecodeLE(w) == w[0] as int + 256 * w[1] as int + 65536 * w[2] as int + 16777216 * w[3] as int
  {
    assert DecodeLE(w) == w[0] as int + 256 * DecodeLE(w[1..]);
    assert DecodeLE(w[1..]) == w[1] as int + 256 * DecodeLE(w[2..]);
    assert DecodeLE(w[2..]) == w[2] as int + 256 * DecodeLE(w[3..]);
    assert DecodeLE(w[3..]) == w[3] as int + 256 * DecodeLE(w[4..]);
  }

  lemma ReadUInt32Bytes(span: seq<Byte>, offset: nat)
    requires offset + 4 <= |span|
    ensures ReadUInt32(span, offset).value ==
      span[offset] as int + 256 * span[offset + 1] as int + 65536 * span[offset + 2] as int + 16777216 * span[offset + 3] as int
  {
    DecodeLE4(span[offset..offset + 4]);
  }
}
