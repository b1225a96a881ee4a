/** `JavaScriptRuntime.Node.Buffer`: a Node.js-style buffer over a fixed
    byte array, with fixed-width big- and little-endian accessors, `alloc`,
    `compare`, `concat`, `slice`, `copy`, the byte indexer and the hex text
    codec of RFC 4648 section 8 (Base16). */
module NodeBuffer {
  import opened JsValues

  type Byte = x: int | 0 <= x < 256

  /** Widths of the fixed-width accessors, in bytes. */
  type Width = w: nat | w == 1 || w == 2 || w == 4 witness 1

  datatype ByteOrder = LittleEndian | BigEndian

  function Pow256(w: nat): (r: nat)
    ensures r >= 1
  {
    if w == 0 then 1 else 256 * Pow256(w - 1)
  }

  /** `ToNumber` of an offset-like argument, for values that have one here:
      undefined and non-numeric values have none (NaN). */
  function NumberOf(v: Value): Option<int>
  {
    match v
    case Num(n) => Some(n)
    case Bool(b) => Some(if b then 1 else 0)
    case Null => Some(0)
    case _ => None
  }

  /** `CoerceToIndex(value, default, length)`: undefined and null give the
      default; a negative index counts back from `length`; the result is
      clamped to at most `length`. */
  function CoerceToIndex(v: Value, dflt: int, length: nat): (r: int)
    ensures v == Undefined || v == Null ==> r == dflt
    ensures v.Num? ==> 0 <= r <= length
    ensures v.Num? && 0 <= v.n <= length ==> r == v.n
    ensures v.Num? && v.n < 0 && length + v.n >= 0 ==> r == length + v.n
    ensures 0 <= dflt <= length ==> 0 <= r <= length
  {
    if v == Undefined || v == Null then dflt
    else
      match NumberOf(v)
      case None => dflt
      case Some(n) =>
        var index := if n < 0 then Max(0, length + n) else n;
        Min(index, length)
  }

  /** `ToLength`: NaN and non-positive numbers give 0, large ones 2^31-1. */
  function ToLength(v: Value): (r: nat)
    ensures r <= Int32Max
    ensures v.Num? && 0 <= v.n <= Int32Max ==> r == v.n
    ensures v.Num? && v.n < 0 ==> r == 0
  {
    match NumberOf(v)
    case None => 0
    case Some(n) => if n <= 0 then 0 else if n >= Int32Max then Int32Max else n
  }

  /** `ToUint8` of an integer: its low 8 bits. */
  function ToUint8(n: int): (r: Byte)
    ensures (r - n) % 256 == 0
  {
    n % 256
  }

  /** Little-endian bytes of `v`, wrapped to `w` bytes. */
  function EncodeLE(v: int, w: nat): (r: seq<Byte>)
    ensures |r| == w
    decreases w
  {
    if w == 0 then [] else [v % 256] + EncodeLE(v / 256, w - 1)
  }

  /** Big-endian bytes of `v`, wrapped to `w` bytes. */
  function EncodeBE(v: int, w: nat): (r: seq<Byte>)
    ensures |r| == w
    decreases w
  {
    if w == 0 then [] else EncodeBE(v / 256, w - 1) + [v % 256]
  }

  function DecodeLE(s: seq<Byte>): (r: nat)
    ensures r < Pow256(|s|)
  {
    if s == [] then 0 else s[0] + 256 * DecodeLE(s[1..])
  }

  function DecodeBE(s: seq<Byte>): (r: nat)
    ensures r < Pow256(|s|)
  {
    if s == [] then 0 else DecodeBE(s[..|s| - 1]) * 256 + s[|s| - 1]
  }

  function Encode(v: int, w: nat, order: ByteOrder): (r: seq<Byte>)
    ensures |r| == w
  {
    if order == LittleEndian then EncodeLE(v, w) else EncodeBE(v, w)
  }

  function Decode(s: seq<Byte>, order: ByteOrder): (r: nat)
    ensures r < Pow256(|s|)
  {
    if order == LittleEndian then DecodeLE(s) else DecodeBE(s)
  }

  /** The two's-complement reading of a `w`-byte unsigned value. */
  function ToSigned(u: nat, w: nat): (r: int)
    requires w >= 1 && u < Pow256(w)
    ensures -(Pow256(w) / 2) <= r < Pow256(w) / 2
    ensures (r - u) % Pow256(w) == 0
  {
    Pow256Even(w);
    SignedOf(u, Pow256(w));
    if u >= Pow256(w) / 2 then u - Pow256(w) else u
  }

  /** The two's-complement reading modulo an even `p`. */
  lemma SignedOf(u: int, p: int)
    requires p >= 2 && p % 2 == 0 && 0 <= u < p
    ensures var r := if u >= p / 2 then u - p else u;
      -(p / 2) <= r < p / 2 && (r - u) % p == 0
  {
    var h := p / 2;
    assert p == 2 * h;
    if u >= h {
      ModUnique(-p, p, -1, 0);
    }
  }

  lemma Pow256Even(w: nat)
    requires w >= 1
    ensures Pow256(w) % 2 == 0 && Pow256(w) >= 256
  {
    if w > 1 { Pow256Even(w - 1); }
  }

  /** Division by 256 splits a residue modulo 256 * p. */
  lemma ModSplit(v: int, p: nat)
    requires p >= 1
    ensures v % (256 * p) == v % 256 + 256 * ((v / 256) % p)
  {
    var q, r := v / 256, v % 256;
    var a, b := q / p, q % p;
    assert v == 256 * q + r;
    assert q == p * a + b;
    assert v == (256 * p) * a + (256 * b + r);
    assert 0 <= 256 * b + r < 256 * p;
    ModUnique(v, 256 * p, a, 256 * b + r);
  }

  lemma {:induction false} DecodeEncodeLE(v: int, w: nat)
    ensures DecodeLE(EncodeLE(v, w)) == v % Pow256(w)
    decreases w
  {
    if w > 0 {
      var s := EncodeLE(v, w);
      assert s[1..] == EncodeLE(v / 256, w - 1);
      DecodeEncodeLE(v / 256, w - 1);
      ModSplit(v, Pow256(w - 1));
    }
  }

  lemma {:induction false} DecodeEncodeBE(v: int, w: nat)
    ensures DecodeBE(EncodeBE(v, w)) == v % Pow256(w)
    decreases w
  {
    if w > 0 {
      var s := EncodeBE(v, w);
      assert s[..w - 1] == EncodeBE(v / 256, w - 1);
      DecodeEncodeBE(v / 256, w - 1);
      ModSplit(v, Pow256(w - 1));
    }
  }

  /** A fixed-width write followed by a read of the same width and order at
      the same offset gives the value modulo 2^(8w). */
  lemma DecodeEncode(v: int, w: nat, order: ByteOrder)
    ensures Decode(Encode(v, w, order), order) == v % Pow256(w)
  {
    if order == LittleEndian { DecodeEncodeLE(v, w); } else { DecodeEncodeBE(v, w); }
  }

  /** A signed write of an in-range value reads back as that value. */
  lemma SignedRoundTrip(v: int, w: Width, order: ByteOrder)
    requires -(Pow256(w) / 2) <= v < Pow256(w) / 2
    ensures ToSigned(Decode(Encode(v, w, order), order), w) == v
  {
    DecodeEncode(v, w, order);
    Pow256Even(w);
    var u := v % Pow256(w);
    if v < 0 {
      ModUnique(v, Pow256(w), -1, v + Pow256(w));
    } else {
      ModUnique(v, Pow256(w), 0, v);
    }
  }

  /** Lexicographic byte order with -1/0/1 results; a proper prefix is less. */
  function LexCompare(a: seq<Byte>, b: seq<Byte>): (r: int)
    ensures r == -1 || r == 0 || r == 1
  {
    if a == [] && b == [] then 0
    else if a == [] then -1
    else if b == [] then 1
    else if a[0] != b[0] then (if a[0] < b[0] then -1 else 1)
    else LexCompare(a[1..], b[1..])
  }

  lemma {:induction false} LexCompareZeroIffEqual(a: seq<Byte>, b: seq<Byte>)
    ensures LexCompare(a, b) == 0 <==> a == b
  {
    if a != [] && b != [] && a[0] == b[0] {
      LexCompareZeroIffEqual(a[1..], b[1..]);
      assert a == [a[0]] + a[1..] && b == [b[0]] + b[1..];
    }
  }

  lemma {:induction false} LexCompareAntisymmetric(a: seq<Byte>, b: seq<Byte>)
    ensures LexCompare(a, b) == -LexCompare(b, a)
  {
    if a != [] && b != [] && a[0] == b[0] {
      LexCompareAntisymmetric(a[1..], b[1..]);
    }
  }

  lemma {:induction false} LexComparePrefix(a: seq<Byte>, b: seq<Byte>)
    requires |a| < |b| && a == b[..|a|]
    ensures LexCompare(a, b) == -1
  {
    if a != [] {
      assert a[1..] == b[1..][..|a| - 1];
      LexComparePrefix(a[1..], b[1..]);
    }
  }

  /** `LexCompare` unfolded to its first difference. */
  lemma {:induction false} LexCompareAt(a: seq<Byte>, b: seq<Byte>, i: nat)
    requires i <= |a| && i <= |b| && a[..i] == b[..i]
    ensures LexCompare(a, b) == LexCompare(a[i..], b[i..])
  {
    if i > 0 {
      assert a[1..][..i - 1] == a[..i][1..] && b[1..][..i - 1] == b[..i][1..];
      LexCompareAt(a[1..], b[1..], i - 1);
      assert a[1..][i - 1..] == a[i..] && b[1..][i - 1..] == b[i..];
    }
  }

  /** The fill argument of `alloc`: none, a byte sequence (a buffer, a byte
      array, or an encoded string), or a number used as one byte. */
  datatype FillArg = NoFill | FillBytes(pattern: seq<Byte>) | FillNumber(n: int)

  function FillPattern(fill: FillArg): seq<Byte>
  {
    match fill
    case NoFill => []
    case FillBytes(p) => p
    case FillNumber(n) => [ToUint8(n)]
  }

  /** `alloc(size, fill)`: the bytes repeat the fill pattern; without a fill
      or with an empty pattern every byte is 0. */
  method Alloc(size: Value, fill: FillArg) returns (r: seq<Byte>)
    ensures |r| == ToLength(size)
    ensures var p := FillPattern(fill);
      forall i :: 0 <= i < |r| ==> r[i] == if p == [] then 0 else p[i % |p|]
  {
    var length := ToLength(size);
    var bytes := new Byte[length](_ => 0);
    if length == 0 {
      return bytes[..];
    }
    var fillBytes := FillPattern(fill);
    if fillBytes == [] {
      return bytes[..];
    }
    for i := 0 to bytes.Length
      invariant forall j :: 0 <= j < i ==> bytes[j] == fillBytes[j % |fillBytes|]
      invariant forall j :: i <= j < bytes.Length ==> bytes[j] == 0
    {
      bytes[i] := fillBytes[i % |fillBytes|];
    }
    return bytes[..];
  }

  /** The chunks of `concat` one after another. */
  function Joined(chunks: seq<seq<Byte>>): (r: seq<Byte>)
  {
    if chunks == [] then [] else Joined(chunks[..|chunks| - 1]) + chunks[|chunks| - 1]
  }

  /** `total` bytes of `s`, zero-padded or truncated. */
  function FitTo(s: seq<Byte>, total: nat): (r: seq<Byte>)
    ensures |r| == total
    ensures forall i :: 0 <= i < total && i < |s| ==> r[i] == s[i]
    ensures forall i :: |s| <= i < total ==> r[i] == 0
  {
    if total <= |s| then s[..total] else s + seq(total - |s|, _ => 0)
  }

  /** `Buffer.concat(list, totalLength)`: the output has the sum of the chunk
      lengths, or the given total; its bytes are the chunks in order,
      truncated to that length, with any remainder zero. */
  method Concat(chunks: seq<seq<Byte>>, totalLength: Value) returns (r: seq<Byte>)
    ensures |r| == if totalLength == Undefined || totalLength == Null then |Joined(chunks)| else ToLength(totalLength)
    ensures r == FitTo(Joined(chunks), |r|)
  {
    var total := TotalLength(chunks);
    var outputLength := if totalLength == Undefined || totalLength == Null then total else ToLength(totalLength);
    r := CopyChunks(chunks, outputLength);
  }

  /** The first loop of `concat`: the sum of the chunk lengths. */
  method TotalLength(chunks: seq<seq<Byte>>) returns (total: nat)
    ensures total == |Joined(chunks)|
  {
    total := 0;
    for i := 0 to |chunks|
      invariant total == |Joined(chunks[..i])|
    {
      assert chunks[..i + 1][..i] == chunks[..i];
      total := total + |chunks[i]|;
    }
    assert chunks[..|chunks|] == chunks;
  }

  /** The copying loop of `concat` into a zeroed array of `outputLength`
      bytes; it stops once the array is full. */
  method CopyChunks(chunks: seq<seq<Byte>>, outputLength: nat) returns (r: seq<Byte>)
    ensures r == FitTo(Joined(chunks), outputLength)
  {
    var result := new Byte[outputLength](_ => 0);
    var offset := 0;
    var i := 0;
    while i < |chunks|
      invariant 0 <= i <= |chunks|
      invariant offset == Min(|Joined(chunks[..i])|, outputLength)
      invariant forall j :: 0 <= j < offset ==> result[j] == Joined(chunks[..i])[j]
      invariant forall j :: offset <= j < outputLength ==> result[j] == 0
    {
      assert chunks[..i + 1][..i] == chunks[..i];
      ghost var joinedBefore := Joined(chunks[..i]);
      assert Joined(chunks[..i + 1]) == joinedBefore + chunks[i];
      if offset >= result.Length {
        break;
      }
      var chunk := chunks[i];
      var copyLength := Min(|chunk|, result.Length - offset);
      forall k | 0 <= k < copyLength {
        result[offset + k] := chunk[k];
      }
      offset := offset + copyLength;
      i := i + 1;
    }
    assert offset < outputLength ==> i == |chunks|;
    assert chunks[..|chunks|] == chunks;
    JoinedPrefix(chunks, i);
    r := result[..];
  }

  lemma {:induction false} JoinedPrefix(chunks: seq<seq<Byte>>, i: nat)
    requires i <= |chunks|
    ensures |Joined(chunks[..i])| <= |Joined(chunks)|
    ensures Joined(chunks[..i]) == Joined(chunks)[..|Joined(chunks[..i])|]
    decreases |chunks| - i
  {
    if i < |chunks| {
      JoinedPrefix(chunks, i + 1);
      assert chunks[..i + 1][..i] == chunks[..i];
    } else {
      assert chunks[..i] == chunks;
    }
  }

  /** Hex digits as RFC 4648 section 8 writes them (lowercase on output). */
  function HexDigit(n: int): (c: char)
    requires 0 <= n < 16
    ensures IsHexDigit(c) && HexValue(c) == n
  {
    if n < 10 then (48 + n) as char else (87 + n) as char
  }

  predicate IsHexDigit(c: char)
  {
    ('0' <= c <= '9') || ('a' <= c <= 'f') || ('A' <= c <= 'F')
  }

  function HexValue(c: char): (n: nat)
    requires IsHexDigit(c)
    ensures n < 16
  {
    if '0' <= c <= '9' then c as int - '0' as int
    else if 'a' <= c <= 'f' then c as int - 'a' as int + 10
    else c as int - 'A' as int + 10
  }

  /** The white space the hex number parser skips before or after the digits. */
  predicate IsNumberWhite(c: char)
  {
    c == ' ' || ('\t' <= c <= '\r')
  }

  /** `byte.TryParse(pair, NumberStyles.HexNumber)` on a two-character string:
      two hex digits, or one hex digit with white space before or after it. */
  function ParseHexPair(a: char, b: char): (r: Option<Byte>)
    ensures IsHexDigit(a) && IsHexDigit(b) ==> r == Some(16 * HexValue(a) + HexValue(b))
    ensures !IsHexDigit(a) && !IsHexDigit(b) ==> r == None
  {
    if IsHexDigit(a) && IsHexDigit(b) then Some(16 * HexValue(a) + HexValue(b))
    else if IsNumberWhite(a) && IsHexDigit(b) then Some(HexValue(b))
    else if IsHexDigit(a) && IsNumberWhite(b) then Some(HexValue(a))
    else None
  }

  /** `GetChars` of the hex encoding: two lowercase digits per byte. */
  function HexEncode(bytes: seq<Byte>): (r: string)
    ensures |r| == 2 * |bytes|
  {
    if bytes == [] then []
    else [HexDigit(bytes[0] / 16), HexDigit(bytes[0] % 16)] + HexEncode(bytes[1..])
  }

  /** The encoding holds lower-case hexadecimal digits only. */
  lemma {:induction false} HexEncodeDigits(bytes: seq<Byte>)
    ensures forall i :: 0 <= i < |HexEncode(bytes)| ==>
      IsHexDigit(HexEncode(bytes)[i]) && !('A' <= HexEncode(bytes)[i] <= 'F')
  {
    if bytes != [] {
      HexEncodeDigits(bytes[1..]);
      var r := HexEncode(bytes);
      assert forall i :: 2 <= i < |r| ==> r[i] == HexEncode(bytes[1..])[i - 2];
    }
  }

  /** Decoding pair by pair: up to the first invalid pair (a single
      character left over ends it too). */
  function HexDecodePairs(text: string): (r: seq<Byte>)
    ensures 2 * |r| <= |text|
  {
    if |text| < 2 then []
    else match ParseHexPair(text[0], text[1])
      case None => []
      case Some(b) => [b] + HexDecodePairs(text[2..])
  }

  /** `GetBytes` of the hex encoding: an odd trailing character is dropped,
      and decoding stops at the first invalid pair. */
  function HexDecode(text: string): (r: seq<Byte>)
    ensures 2 * |r| <= |text|
  {
    if |text| % 2 != 0 then HexDecodePairs(text[..|text| - 1]) else HexDecodePairs(text)
  }

  lemma {:induction false} HexRoundTrip(bytes: seq<Byte>)
    ensures HexDecode(HexEncode(bytes)) == bytes
  {
    if bytes != [] {
      var t := HexEncode(bytes);
      assert t[2..] == HexEncode(bytes[1..]);
      HexRoundTrip(bytes[1..]);
      assert bytes == [bytes[0]] + bytes[1..];
    }
  }

  lemma {:induction false} HexDecodeDropsOddTail(text: string, c: char)
    requires |text| % 2 == 0
    ensures HexDecode(text + [c]) == HexDecode(text)
  {
    assert (text + [c])[..|text|] == text;
  }

  /** Decoding stops at an invalid pair: nothing after it is decoded. */
  lemma {:induction false} HexDecodeStopsAtInvalid(good: string, a: char, b: char, rest: string)
    requires |good| % 2 == 0 && |rest| % 2 == 0 && ParseHexPair(a, b) == None
    ensures HexDecodePairs(good + [a, b] + rest) == HexDecodePairs(good)
    decreases |good|
  {
    var t := good + [a, b] + rest;
    if good == [] {
      assert t[0] == a && t[1] == b;
    } else {
      assert t[0] == good[0] && t[1] == good[1];
      assert t[2..] == good[2..] + [a, b] + rest;
      HexDecodeStopsAtInvalid(good[2..], a, b, rest);
    }
  }

  /** `HexPassthroughEncoding.GetChars`: writes two digits per byte of
      bytes[byteIndex, byteIndex + byteCount) into chars from charIndex. */
  method HexGetChars(bytes: array<Byte>, byteIndex: nat, byteCount: nat, chars: array<char>, charIndex: nat)
    returns (written: nat)
    requires byteIndex + byteCount <= bytes.Length
    requires charIndex + 2 * byteCount <= chars.Length
    modifies chars
    ensures written == 2 * byteCount
    ensures chars[charIndex..charIndex + written] == HexEncode(bytes[byteIndex..byteIndex + byteCount])
    ensures forall j :: 0 <= j < chars.Length && !(charIndex <= j < charIndex + written) ==> chars[j] == old(chars[j])
  {
    written := 0;
    ghost var src := bytes[byteIndex..byteIndex + byteCount];
    ghost var hex := HexEncode(src);
    ghost var o := chars[..];
    for i := 0 to byteCount
      invariant written == 2 * i
      invariant HexWritten(chars[..], o, charIndex, hex, written)
    {
      var b := bytes[byteIndex + i];
      assert hex[2 * i] == HexDigit(b / 16) && hex[2 * i + 1] == HexDigit(b % 16) by {
        HexEncodeAt(src, i);
      }
      PutHexDigits(chars, charIndex, written, b, o, hex);
      written := written + 2;
    }
    assert forall k :: 0 <= k < written ==> chars[charIndex + k] == hex[k];
    assert chars[charIndex..charIndex + written] == hex;
  }

  /** The first `n` digits of `hex` are written from `at` over the
      original characters `o`, which every other position keeps. */
  ghost predicate HexWritten(now: seq<char>, o: seq<char>, at: nat, hex: string, n: nat)
  {
    && |now| == |o| && n <= |hex| && at + |hex| <= |o|
    && forall j :: 0 <= j < |now| ==> now[j] == if at <= j < at + n then hex[j - at] else o[j]
  }

  /** Writes the two digits of `b`, the next two of `hex`. */
  method PutHexDigits(chars: array<char>, at: nat, n: nat, b: Byte, ghost o: seq<char>, ghost hex: string)
    requires HexWritten(chars[..], o, at, hex, n)
    requires n + 2 <= |hex| && hex[n] == HexDigit(b / 16) && hex[n + 1] == HexDigit(b % 16)
    modifies chars
    ensures HexWritten(chars[..], o, at, hex, n + 2)
  {
    chars[at + n] := HexDigit(b / 16);
    chars[at + n + 1] := HexDigit(b % 16);
  }

  /** The two digits of byte `k` sit at positions 2k and 2k + 1. */
  lemma {:induction false} HexEncodeAt(s: seq<Byte>, k: nat)
    requires k < |s|
    ensures HexEncode(s)[2 * k] == HexDigit(s[k] / 16)
    ensures HexEncode(s)[2 * k + 1] == HexDigit(s[k] % 16)
  {
    if k > 0 {
      HexEncodeAt(s[1..], k - 1);
      assert HexEncode(s)[2 * k] == HexEncode(s[1..])[2 * k - 2];
      assert HexEncode(s)[2 * k + 1] == HexEncode(s[1..])[2 * k - 1];
    }
  }

  lemma {:induction false} HexEncodeAppend(s: seq<Byte>, b: Byte)
    ensures HexEncode(s + [b]) == HexEncode(s) + [HexDigit(b / 16), HexDigit(b % 16)]
  {
    if s != [] {
      assert (s + [b])[1..] == s[1..] + [b];
      HexEncodeAppend(s[1..], b);
    } else {
      assert HexEncode([b]) == [HexDigit(b / 16), HexDigit(b % 16)] + HexEncode([]);
    }
  }

  /** `HexPassthroughEncoding.GetBytes`: decodes into `bytes` from
      `byteIndex`.  An empty `bytes` array only counts the decoded bytes; a
      non-empty one stops when it is full. */
  method HexGetBytes(text: string, bytes: array<Byte>, byteIndex: nat) returns (written: nat)
    modifies bytes
    ensures bytes.Length == 0 ==> written == |HexDecode(text)|
    ensures bytes.Length > 0 ==> written == Min(|HexDecode(text)|, Max(bytes.Length - byteIndex, 0))
    ensures 0 < bytes.Length && byteIndex <= bytes.Length ==>
      bytes[..] == Overwritten(old(bytes[..]), byteIndex, HexDecode(text)[..written])
    ensures bytes.Length == 0 || byteIndex > bytes.Length ==> bytes[..] == old(bytes[..])
  {
    if |text| == 0 {
      return 0;
    }
    var t := text;
    if |t| % 2 != 0 {
      t := t[..|t| - 1];
    }
    written := DecodePairsInto(t, bytes, byteIndex);
  }

  /** The loop of `GetBytes` over an even-length text.  Whether `bytes` is
      empty does not change during the loop, so the loop is written once
      for each case. */
  method DecodePairsInto(t: string, bytes: array<Byte>, byteIndex: nat) returns (written: nat)
    requires |t| % 2 == 0
    modifies bytes
    ensures bytes.Length == 0 ==> written == |HexDecodePairs(t)|
    ensures bytes.Length > 0 ==> written == Min(|HexDecodePairs(t)|, Max(bytes.Length - byteIndex, 0))
    ensures 0 < bytes.Length && byteIndex <= bytes.Length ==>
      bytes[..] == Overwritten(old(bytes[..]), byteIndex, HexDecodePairs(t)[..written])
    ensures bytes.Length == 0 || byteIndex > bytes.Length ==> bytes[..] == old(bytes[..])
  {
    if bytes.Length == 0 {
      written := CountPairs(t);
    } else {
      written := WritePairs(t, bytes, byteIndex);
    }
  }

  /** The loop when `bytes` is empty: it only counts the decoded bytes. */
  method CountPairs(t: string) returns (written: nat)
    requires |t| % 2 == 0
    ensures written == |HexDecodePairs(t)|
  {
    DecodeFromIsPairs(t, 0);
    assert t[0..] == t;
    ghost var half := |t| / 2;
    assert |t| == 2 * half;
    written := 0;
    var i := 0;
    while i < |t|
      invariant i == 2 * written && written <= half
      invariant written + |DecodeFrom(t, i)| == |HexDecodePairs(t)|
    {
      var parsed := ParseHexPair(t[i], t[i + 1]);
      if parsed.None? {
        assert DecodeFrom(t, i) == [] by {
          DecodeFromStep(t, i);
        }
        return;
      }
      assert |DecodeFrom(t, i)| == 1 + |DecodeFrom(t, i + 2)| by {
        DecodeFromStep(t, i);
      }
      written := written + 1;
      i := i + 2;
    }
  }

  /** The loop when `bytes` is not empty: it stops at the first pair that
      is not hexadecimal or when `bytes` is full. */
  method WritePairs(t: string, bytes: array<Byte>, byteIndex: nat) returns (written: nat)
    requires |t| % 2 == 0 && bytes.Length > 0
    modifies bytes
    ensures written == Min(|HexDecodePairs(t)|, Max(bytes.Length - byteIndex, 0))
    ensures byteIndex <= bytes.Length ==>
      bytes[..] == Overwritten(old(bytes[..]), byteIndex, HexDecodePairs(t)[..written])
    ensures byteIndex > bytes.Length ==> bytes[..] == old(bytes[..])
  {
    ghost var o := bytes[..];
    DecodeFromIsPairs(t, 0);
    assert t[0..] == t;
    written := 0;
    var i := 0;
    while i < |t|
      invariant PairsWritten(t, bytes[..], o, byteIndex, i, written)
      decreases |t| - i
    {
      var stop := WritePair(t, bytes, byteIndex, i, written, o);
      if stop {
        break;
      }
      written := written + 1;
      i := i + 2;
    }
    assert i >= |t| ==> DecodeFrom(t, i) == [];
    if written == 0 && byteIndex <= bytes.Length {
      OverwrittenNothing(o, byteIndex);
    }
  }

  /** The state of the loop of `WritePairs` after `written` pairs: they were
      read from the first `i` characters and are written from `at` over
      the original contents `o`. */
  ghost predicate PairsWritten(t: string, now: seq<Byte>, o: seq<Byte>, at: nat, i: nat, written: nat)
  {
    && i == 2 * written && i <= |t| && |now| == |o|
    && written <= |HexDecodePairs(t)|
    && DecodeFrom(t, i) == HexDecodePairs(t)[written..]
    && (written == 0 ==> now == o)
    && (written > 0 ==> at + written <= |o| && now == Overwritten(o, at, HexDecodePairs(t)[..written]))
  }

  /** One turn of the loop of `WritePairs`: the pair at `i` is written
      unless it is not hexadecimal or `bytes` is full, in which case the
      loop stops with everything decoded so far written. */
  method WritePair(t: string, bytes: array<Byte>, byteIndex: nat, i: nat, written: nat, ghost o: seq<Byte>)
    returns (stop: bool)
    requires |t| % 2 == 0 && i < |t|
    requires PairsWritten(t, bytes[..], o, byteIndex, i, written)
    modifies bytes
    ensures stop ==> bytes[..] == old(bytes[..])
    ensures stop ==> written == |HexDecodePairs(t)| || byteIndex + written >= bytes.Length
    ensures !stop ==> PairsWritten(t, bytes[..], o, byteIndex, i + 2, written + 1)
  {
    ghost var decoded := HexDecodePairs(t);
    assert i + 2 <= |t| by {
      assert |t| == 2 * (|t| / 2);
    }
    var parsed := ParseHexPair(t[i], t[i + 1]);
    if parsed.None? {
      DecodeFromStep(t, i);
      return true;
    }
    if byteIndex + written >= bytes.Length {
      return true;
    }
    assert decoded[written] == parsed.value && DecodeFrom(t, i + 2) == decoded[written + 1..] by {
      DecodeFromStep(t, i);
    }
    if written == 0 {
      OverwrittenNothing(o, byteIndex);
    }
    assert decoded[..written + 1] == decoded[..written] + [parsed.value];
    PutAfter(bytes, o, byteIndex, written, decoded[..written], parsed.value);
    return false;
  }

  /** Writes `b` just after the range of `o` already overwritten with
      `src`, extending that range by one byte. */
  method PutAfter(bytes: array<Byte>, ghost o: seq<Byte>, at: nat, n: nat, ghost src: seq<Byte>, b: Byte)
    requires n == |src| && at + n < |o| == bytes.Length
    requires bytes[..] == Overwritten(o, at, src)
    modifies bytes
    ensures bytes[..] == Overwritten(o, at, src + [b])
  {
    bytes[at + n] := b;
    OverwrittenPointwise(o, at, src);
    OverwrittenPointwise(o, at, src + [b]);
    assert bytes[..] == Overwritten(o, at, src + [b]);
  }



  /** The decoding from position `i` on, as the loops of `GetBytes` read it. */
  function DecodeFrom(t: string, i: nat): (r: seq<Byte>)
    decreases |t| - i
  {
    if i + 2 > |t| then []
    else match ParseHexPair(t[i], t[i + 1])
      case None => []
      case Some(b) => [b] + DecodeFrom(t, i + 2)
  }

  /** One pair of the decoding: nothing from an invalid pair, otherwise
      its byte followed by the rest. */
  lemma DecodeFromStep(t: string, i: nat)
    requires i + 2 <= |t|
    ensures ParseHexPair(t[i], t[i + 1]).None? ==> DecodeFrom(t, i) == []
    ensures ParseHexPair(t[i], t[i + 1]).Some? ==>
      DecodeFrom(t, i) == [ParseHexPair(t[i], t[i + 1]).value] + DecodeFrom(t, i + 2)
  {
  }

  lemma {:induction false} DecodeFromIsPairs(t: string, i: nat)
    requires i <= |t|
    ensures DecodeFrom(t, i) == HexDecodePairs(t[i..])
    decreases |t| - i
  {
    if i + 2 <= |t| {
      DecodeFromIsPairs(t, i + 2);
      assert t[i..][0] == t[i] && t[i..][1] == t[i + 1] && t[i..][2..] == t[i + 2..];
    }
  }

  class Buffer {
    const bytes: array<Byte>

    constructor (init: seq<Byte>)
      ensures bytes[..] == init && fresh(bytes)
    {
      bytes := new Byte[|init|](i requires 0 <= i < |init| => init[i]);
    }

    function Length(): nat
      reads this
    {
      bytes.Length
    }

    /** `readUInt8`, `readInt8`, `readUInt16LE/BE`, `readInt16LE/BE`,
        `readUInt32LE/BE` and `readInt32LE/BE`: out of range (an
        `ArgumentOutOfRangeException`) when offset + width exceeds the
        length, otherwise the bytes at the offset read in the given order,
        as two's complement when `signed`. */
    function Read(offset: Value, w: Width, order: ByteOrder, signed: bool): (r: Result<int>)
      reads this, bytes
      ensures var idx := CoerceToIndex(offset, 0, bytes.Length);
        && (r.Err? <==> !(0 <= idx && idx + w <= bytes.Length))
        && (r.Err? ==> r.error == ArgumentOutOfRange)
        && (r.Ok? && !signed ==> 0 <= r.value < Pow256(w) && r.value == Decode(bytes[idx..idx + w], order))
        && (r.Ok? && signed ==> -(Pow256(w) / 2) <= r.value < Pow256(w) / 2)
        && (r.Ok? && signed ==> (r.value - Decode(bytes[idx..idx + w], order)) % Pow256(w) == 0)
    {
      var idx := CoerceToIndex(offset, 0, bytes.Length);
      if idx < 0 || idx + (w - 1) >= bytes.Length then Err(ArgumentOutOfRange)
      else
        var u := Decode(bytes[idx..idx + w], order);
        Ok(if signed then ToSigned(u, w) else u)
    }

    /** `writeUInt8` ... `writeInt32BE`: the value is stored as its low
        8w bits in the given order and the offset past it is returned; an
        out-of-range write changes nothing. */
    method Write(value: int, offset: Value, w: Width, order: ByteOrder) returns (r: Result<nat>)
      modifies bytes
      ensures var idx := CoerceToIndex(offset, 0, bytes.Length);
        && (r.Err? <==> !(0 <= idx && idx + w <= bytes.Length))
        && (r.Err? ==> r.error == ArgumentOutOfRange && bytes[..] == old(bytes[..]))
        && (r.Ok? ==> r.value == idx + w)
        && (r.Ok? ==> bytes[..] == Overwritten(old(bytes[..]), idx, Encode(value, w, order)))
    {
      var idx := CoerceToIndex(offset, 0, bytes.Length);
      if idx < 0 || idx + (w - 1) >= bytes.Length {
        return Err(ArgumentOutOfRange);
      }
      Overwrite(bytes, idx, Encode(value, w, order));
      return Ok(idx + w);
    }

    /** Indexer read: undefined out of range, otherwise the byte. */
    function GetItem(index: int): (r: Value)
      reads this, bytes
      ensures 0 <= index < bytes.Length ==> r == Num(bytes[index])
      ensures !(0 <= index < bytes.Length) ==> r == Undefined
    {
      if index < 0 || index >= bytes.Length then Undefined else Num(bytes[index])
    }

    /** Indexer write: in range it stores the low 8 bits, otherwise nothing. */
    method SetItem(index: int, value: int)
      modifies bytes
      ensures 0 <= index < bytes.Length ==> bytes[..] == old(bytes[..])[index := ToUint8(value)]
      ensures !(0 <= index < bytes.Length) ==> bytes[..] == old(bytes[..])
    {
      if 0 <= index < bytes.Length {
        bytes[index] := ToUint8(value);
      }
    }

    /** `slice(start, end)`: a copy of [start, end), empty when start >= end. */
    function Slice(start: Value, end: Value): (r: seq<Byte>)
      reads this, bytes
      ensures var s, e := CoerceToIndex(start, 0, bytes.Length), CoerceToIndex(end, bytes.Length, bytes.Length);
        r == if s < e then bytes[s..e] else []
    {
      var len := bytes.Length;
      var startIdx := CoerceToIndex(start, 0, len);
      var endIdx := CoerceToIndex(end, len, len);
      if startIdx >= endIdx || startIdx >= len then [] else bytes[startIdx..endIdx]
    }

    /** `copy(target, targetStart, sourceStart, sourceEnd)`: copies
        n = min(sourceEnd - sourceStart, targetLength - targetStart) bytes,
        clamped at 0, into target[targetStart, targetStart + n) and changes
        nothing else; the source is read before anything is written, so a
        copy within one buffer behaves like a copy from a snapshot. */
    method Copy(target: Buffer?, targetStart: Value, sourceStart: Value, sourceEnd: Value) returns (r: Result<nat>)
      modifies if target == null then {} else {target.bytes}
      ensures target == null ==> r == Err(ArgumentError)
      ensures target != null ==>
        var ti := CoerceToIndex(targetStart, 0, target.bytes.Length);
        var ss := CoerceToIndex(sourceStart, 0, bytes.Length);
        var se := CoerceToIndex(sourceEnd, bytes.Length, bytes.Length);
        var n := CopyCount(target.bytes.Length, bytes.Length, ti, ss, se);
        && r == Ok(n)
        && target.bytes[..] == Overwritten(old(target.bytes[..]), ti, old(bytes[..])[ss..ss + n])
    {
      if target == null {
        return Err(ArgumentError);
      }
      var targetIdx := CoerceToIndex(targetStart, 0, target.bytes.Length);
      var sourceStartIdx := CoerceToIndex(sourceStart, 0, bytes.Length);
      var sourceEndIdx := CoerceToIndex(sourceEnd, bytes.Length, bytes.Length);
      var bytesToCopy := CopyPlan(target.bytes.Length, bytes.Length, targetIdx, sourceStartIdx, sourceEndIdx);
      if bytesToCopy == 0 {
        OverwrittenNothing(target.bytes[..], targetIdx);
        assert bytes[..][sourceStartIdx..sourceStartIdx] == [];
        return Ok(0);
      }
      var src := bytes[sourceStartIdx..sourceStartIdx + bytesToCopy];
      Overwrite(target.bytes, targetIdx, src);
      return Ok(bytesToCopy);
    }
  }

  /** The number of bytes `copy` moves for the coerced indices: sourceEnd -
      sourceStart, at most the room left in the target, and 0 when that is
      not positive. */
  function CopyCount(targetLength: nat, sourceLength: nat, ti: nat, ss: nat, se: nat): (n: nat)
    requires ti <= targetLength && ss <= sourceLength && se <= sourceLength
    ensures ti + n <= targetLength && ss + n <= sourceLength
    ensures n > 0 <==> ss < se && ti < targetLength
    ensures n > 0 ==> n == se - ss || n == targetLength - ti
  {
    if ss >= se then 0 else Max(0, Min(se - ss, targetLength - ti))
  }

  /** The branches of `copy` that decide how many bytes move: none when the
      source range is empty or starts at the end, or the target has no
      room. */
  method CopyPlan(targetLength: nat, sourceLength: nat, targetIdx: nat, sourceStartIdx: nat, sourceEndIdx: nat)
    returns (bytesToCopy: nat)
    requires targetIdx <= targetLength && sourceStartIdx <= sourceLength && sourceEndIdx <= sourceLength
    ensures bytesToCopy == CopyCount(targetLength, sourceLength, targetIdx, sourceStartIdx, sourceEndIdx)
  {
    if sourceStartIdx >= sourceEndIdx || sourceStartIdx >= sourceLength {
      return 0;
    }
    var n := Min(sourceEndIdx - sourceStartIdx, targetLength - targetIdx);
    if n <= 0 {
      return 0;
    }
    bytesToCopy := n;
  }

  lemma OverwrittenNothing(dst: seq<Byte>, at: nat)
    requires at <= |dst|
    ensures Overwritten(dst, at, []) == dst
  {
    assert dst[..at] + [] + dst[at..] == dst;
  }

  /** `dst` with `src` written over it from position `at`. */
  function Overwritten(dst: seq<Byte>, at: int, src: seq<Byte>): (r: seq<Byte>)
    requires 0 <= at && at + |src| <= |dst|
    ensures |r| == |dst|
  {
    dst[..at] + src + dst[at + |src|..]
  }

  /** The overwritten range holds `src`; every other position keeps its byte. */
  lemma OverwrittenPointwise(dst: seq<Byte>, at: int, src: seq<Byte>)
    requires 0 <= at && at + |src| <= |dst|
    ensures forall i :: at <= i < at + |src| ==> Overwritten(dst, at, src)[i] == src[i - at]
    ensures forall i :: 0 <= i < |dst| && !(at <= i < at + |src|) ==> Overwritten(dst, at, src)[i] == dst[i]
  {
  }

  /** `Buffer.BlockCopy` of a snapshot `src` into `dst` at `at`. */
  method Overwrite(dst: array<Byte>, at: nat, src: seq<Byte>)
    requires at + |src| <= dst.Length
    modifies dst
    ensures dst[..] == Overwritten(old(dst[..]), at, src)
  {
    forall k | 0 <= k < |src| {
      dst[at + k] := src[k];
    }
    OverwrittenPointwise(old(dst[..]), at, src);
    assert dst[..] == Overwritten(old(dst[..]), at, src);
  }

  /** `Buffer.compare(a, b)`: lexicographic on bytes; 0 exactly when both
      buffers hold the same bytes. */
  method Compare(a: Buffer, b: Buffer) returns (r: int)
    ensures r == LexCompare(a.bytes[..], b.bytes[..])
    ensures r == -1 || r == 0 || r == 1
    ensures r == 0 <==> a.bytes[..] == b.bytes[..]
  {
    LexCompareZeroIffEqual(a.bytes[..], b.bytes[..]);
    var len := Min(a.bytes.Length, b.bytes.Length);
    for i := 0 to len
      invariant a.bytes[..i] == b.bytes[..i]
    {
      if a.bytes[i] != b.bytes[i] {
        LexCompareAt(a.bytes[..], b.bytes[..], i);
        assert a.bytes[..][i..][0] == a.bytes[i] && b.bytes[..][i..][0] == b.bytes[i];
        return if a.bytes[i] < b.bytes[i] then -1 else 1;
      }
      assert a.bytes[..i + 1] == a.bytes[..i] + [a.bytes[i]];
      assert b.bytes[..i + 1] == b.bytes[..i] + [b.bytes[i]];
    }
    LexCompareAt(a.bytes[..], b.bytes[..], len);
    if a.bytes.Length < b.bytes.Length {
      assert a.bytes[..][len..] == [];
      return -1;
    }
    if a.bytes.Length > b.bytes.Length {
      assert b.bytes[..][len..] == [];
      return 1;
    }
    assert a.bytes[..][len..] == [] && b.bytes[..][len..] == [];
    return 0;
  }

  /** A fixed-width write followed by a read at the same offset returns the
      value modulo 2^(8w) (two's complement for a signed read). */
  method WriteThenRead(buf: Buffer, value: int, offset: Value, w: Width, order: ByteOrder)
    returns (written: Result<nat>, read: Result<int>)
    modifies buf.bytes
    ensures written.Ok? <==> read.Ok?
    ensures written.Ok? ==> read.value == value % Pow256(w)
  {
    written := buf.Write(value, offset, w, order);
    read := buf.Read(offset, w, order, false);
    if written.Ok? {
      var idx := CoerceToIndex(offset, 0, buf.bytes.Length);
      assert buf.bytes[idx..idx + w] == Encode(value, w, order);
      DecodeEncode(value, w, order);
    }
  }
}
