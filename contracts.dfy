/** The byte-level and naming helpers of the exports-contract emitter:
    the compressed unsigned integers of ECMA-335 Partition II section 23.2,
    the custom-attribute value blob of Partition II section 23.3 holding one
    string argument, PascalCase conversion, the namespace and interface
    name of a module's exports contract, and the CLR type mapping of
    contract members. */
module ExportsContract {
  import opened JsValues
  import opened Text
  import NodeBuffer
  import NodeModuleResolution

  type Byte = NodeBuffer.Byte

  const UInt32Limit: nat := 0x1_0000_0000

  /** The largest value the compressed form can hold. */
  const MaxCompressed: nat := 0x1FFF_FFFF

  // ---------------------------------------------------------------------
  // Compressed unsigned integers (ModuleExportsContractEmitter.cs:981-1006)
  // ---------------------------------------------------------------------

  /** The compressed bytes of `v`: one byte up to 0x7F; two bytes whose
      first has its top bits 10 up to 0x3FFF; four bytes whose first has
      its top bits 110 up to 0x1FFFFFFF.  Big-endian in every form. */
  function Compressed(v: nat): (r: seq<Byte>)
    requires v <= MaxCompressed
    ensures |r| == 1 <==> v <= 0x7F
    ensures |r| == 2 <==> 0x7F < v <= 0x3FFF
    ensures |r| == 4 <==> 0x3FFF < v
    ensures |r| == 1 ==> r[0] < 0x80
    ensures |r| == 2 ==> 0x80 <= r[0] < 0xC0
    ensures |r| == 4 ==> 0xC0 <= r[0] < 0xE0
  {
    if v <= 0x7F then [v]
    else if v <= 0x3FFF then [v / 0x100 + 0x80, v % 0x100]
    else [v / 0x100_0000 + 0xC0, (v / 0x1_0000) % 0x100, (v / 0x100) % 0x100, v % 0x100]
  }

  /** The reader of Partition II section 23.2: the value and the number of
      bytes it took, or `None` for a bad lead byte or too few bytes. */
  function Decompress(b: seq<Byte>): (r: Option<(nat, nat)>)
    ensures r.Some? ==> 1 <= r.value.1 <= |b| && r.value.0 <= MaxCompressed
  {
    if |b| == 0 then None
    else
      var lead := b[0] as int;
      if lead < 0x80 then Some((lead, 1))
      else if lead < 0xC0 then
        if |b| < 2 then None else Some(((lead - 0x80) * 0x100 + b[1] as int, 2))
      else if lead < 0xE0 then
        if |b| < 4 then None
        else Some(((lead - 0xC0) * 0x100_0000 + b[1] as int * 0x1_0000 + b[2] as int * 0x100 + b[3] as int, 4))
      else None
  }

  /** Reading back the compressed form gives the value and its length,
      whatever bytes follow it. */
  lemma CompressedRoundTrip(v: nat, rest: seq<Byte>)
    requires v <= MaxCompressed
    ensures Decompress(Compressed(v) + rest) == Some((v, |Compressed(v)|))
  {
    var c := Compressed(v);
    var b := c + rest;
    assert b[..|c|] == c;
    if v <= 0x7F {
    } else if v <= 0x3FFF {
      assert v == (v / 0x100) * 0x100 + v % 0x100;
      assert b[0] == c[0] && b[1] == c[1];
    } else {
      var q1, q2, q3 := v / 0x100, v / 0x1_0000, v / 0x100_0000;
      assert v == q1 * 0x100 + v % 0x100;
      assert q1 == q2 * 0x100 + q1 % 0x100;
      assert q2 == q3 * 0x100 + q2 % 0x100;
      assert q1 / 0x100 == q2 && q2 / 0x100 == q3;
      assert b[0] == c[0] && b[1] == c[1] && b[2] == c[2] && b[3] == c[3];
    }
  }

  /** The shortest form is always chosen: no value that fits a shorter
      form is written in a longer one. */
  lemma CompressedIsShortest(v: nat)
    requires v <= MaxCompressed
    ensures |Compressed(v)| == (if v < 0x80 then 1 else if v < 0x4000 then 2 else 4)
  {
  }

  /** The append-only byte list of a `BlobBuilder`. */
  class BlobBuilder {
    var bytes: seq<Byte>

    constructor ()
      ensures bytes == []
    {
      bytes := [];
    }

    method WriteByte(b: Byte)
      modifies this
      ensures bytes == old(bytes) + [b]
    {
      bytes := bytes + [b];
    }

    /** `WriteUInt16`: two bytes, little-endian. */
    method WriteUInt16(v: nat)
      requires v < 0x1_0000
      modifies this
      ensures bytes == old(bytes) + [v % 0x100, v / 0x100]
    {
      bytes := bytes + [v % 0x100, v / 0x100];
    }

    method WriteBytes(b: seq<Byte>)
      modifies this
      ensures bytes == old(bytes) + b
    {
      bytes := bytes + b;
    }
  }

  /** `WriteCompressedUInt32`: appends the compressed form, or throws
      `ArgumentOutOfRangeException` for a value above 0x1FFFFFFF before
      writing anything. */
  method WriteCompressedUInt32(blob: BlobBuilder, value: nat) returns (ok: bool)
    requires value < UInt32Limit
    modifies blob
    ensures ok <==> value <= MaxCompressed
    ensures ok ==> blob.bytes == old(blob.bytes) + Compressed(value)
    ensures !ok ==> blob.bytes == old(blob.bytes)
  {
    if value <= 0x7F {
      blob.WriteByte(value);
      return true;
    }
    if value <= 0x3FFF {
      blob.WriteByte(value / 0x100 + 0x80);
      blob.WriteByte(value % 0x100);
      return true;
    }
    if value <= MaxCompressed {
      blob.WriteByte(value / 0x100_0000 + 0xC0);
      blob.WriteByte((value / 0x1_0000) % 0x100);
      blob.WriteByte((value / 0x100) % 0x100);
      blob.WriteByte(value % 0x100);
      return true;
    }
    return false;
  }

  // ---------------------------------------------------------------------
  // SerString and the custom-attribute blob (ModuleExportsContractEmitter.cs:965-979)
  // ---------------------------------------------------------------------

  /** The SerString of a string: its compressed UTF-8 length, then the
      UTF-8 bytes; `None` when the length does not fit the compressed form. */
  function SerString(value: string): (r: Option<seq<Byte>>)
  {
    var utf8 := NodeModuleResolution.Utf8Encode(value);
    if |utf8| <= MaxCompressed then Some(Compressed(|utf8|) + utf8) else None
  }

  /** `WriteSerString`. */
  method WriteSerString(blob: BlobBuilder, value: string) returns (ok: bool)
    modifies blob
    ensures ok <==> SerString(value).Some?
    ensures ok ==> blob.bytes == old(blob.bytes) + SerString(value).value
    ensures !ok ==> blob.bytes == old(blob.bytes)
  {
    var utf8 := NodeModuleResolution.Utf8Encode(value);
    if |utf8| >= UInt32Limit {
      return false;
    }
    ok := WriteCompressedUInt32(blob, |utf8|);
    if ok {
      blob.WriteBytes(utf8);
    }
  }

  /** The value blob of a custom attribute whose constructor takes one
      string: prolog 0x0001, the SerString, and a zero count of named
      arguments, each 16-bit number little-endian. */
  function SingleStringAttributeBlob(value: string): (r: Option<seq<Byte>>)
    ensures r.Some? ==> |r.value| >= 5 && r.value[..2] == [0x01, 0x00] && r.value[|r.value| - 2..] == [0x00, 0x00]
  {
    match SerString(value)
    case None => None
    case Some(s) => Some([0x01, 0x00] + s + [0x00, 0x00])
  }

  /** `CreateSingleStringCustomAttributeValue`: builds the blob (adding it
      to the metadata blob heap is not part of this model). */
  method CreateSingleStringCustomAttributeValue(value: string) returns (r: Option<seq<Byte>>)
    ensures r == SingleStringAttributeBlob(value)
  {
    var blob := new BlobBuilder();
    blob.WriteUInt16(0x0001);
    var ok := WriteSerString(blob, value);
    if !ok {
      return None;
    }
    blob.WriteUInt16(0);
    assert blob.bytes == [0x01, 0x00] + SerString(value).value + [0x00, 0x00];
    r := Some(blob.bytes);
  }

  /** A reader of such a blob: the prolog, a SerString whose bytes are
      well-formed UTF-8, a zero named-argument count and nothing after. */
  function ParseSingleStringAttribute(b: seq<Byte>): Option<string>
  {
    if |b| < 2 || b[..2] != [0x01, 0x00] then None
    else match Decompress(b[2..])
      case None => None
      case Some(p) =>
        var start := 2 + p.1;
        if start + p.0 + 2 != |b| || b[start + p.0..] != [0x00, 0x00] then None
        else NodeModuleResolution.Utf8Decode(b[start..start + p.0])
  }

  /** The blob reads back as the string it was made from. */
  lemma SingleStringAttributeRoundTrip(value: string)
    requires SingleStringAttributeBlob(value).Some?
    ensures ParseSingleStringAttribute(SingleStringAttributeBlob(value).value) == Some(value)
  {
    var utf8 := NodeModuleResolution.Utf8Encode(value);
    var c := Compressed(|utf8|);
    var b := SingleStringAttributeBlob(value).value;
    assert b == [0x01, 0x00] + c + utf8 + [0x00, 0x00];
    assert b[2..] == c + (utf8 + [0x00, 0x00]);
    CompressedRoundTrip(|utf8|, utf8 + [0x00, 0x00]);
    var start := 2 + |c|;
    assert b[start..start + |utf8|] == utf8;
    assert b[start + |utf8|..] == [0x00, 0x00];
    NodeModuleResolution.Utf8RoundTrip(value);
  }

  // ---------------------------------------------------------------------
  // ToPascalCase (ModuleExportsContractEmitter.cs:1008-1057)
  // ---------------------------------------------------------------------

  /** The runs of letters and digits, left to right, given the run `cur`
      collected so far: what the first loop of `ToPascalCase` adds to
      `parts`. */
  function Runs(s: string, cur: string): (r: seq<string>)
    decreases |s|
  {
    if s == [] then (if cur == [] then [] else [cur])
    else if IsAsciiLetterOrDigit(s[0]) then Runs(s[1..], cur + [s[0]])
    else (if cur == [] then [] else [cur]) + Runs(s[1..], [])
  }

  /** The letters and digits of `s`, in order. */
  function AlnumOnly(s: string): (r: string)
    ensures |r| <= |s|
    ensures forall i :: 0 <= i < |r| ==> IsAsciiLetterOrDigit(r[i])
  {
    if s == [] then [] else (if IsAsciiLetterOrDigit(s[0]) then [s[0]] else []) + AlnumOnly(s[1..])
  }

  function Concat(parts: seq<string>): string
  {
    if parts == [] then [] else parts[0] + Concat(parts[1..])
  }

  predicate AllAlnum(s: string)
  {
    forall i :: 0 <= i < |s| ==> IsAsciiLetterOrDigit(s[i])
  }

  lemma ConcatAppend(a: seq<string>, b: seq<string>)
    ensures Concat(a + b) == Concat(a) + Concat(b)
  {
    if a != [] {
      assert (a + b)[1..] == a[1..] + b;
      ConcatAppend(a[1..], b);
    } else {
      assert a + b == b;
    }
  }

  /** The runs are non-empty, made of letters and digits only, and
      together they are exactly the letters and digits of the input. */
  lemma {:induction false} RunsSpec(s: string, cur: string)
    requires AllAlnum(cur)
    ensures forall k :: 0 <= k < |Runs(s, cur)| ==> Runs(s, cur)[k] != [] && AllAlnum(Runs(s, cur)[k])
    ensures Concat(Runs(s, cur)) == cur + AlnumOnly(s)
    ensures Runs(s, cur) == [] <==> cur == [] && AlnumOnly(s) == []
    decreases |s|
  {
    if s == [] {
      assert cur + [] == cur;
    } else if IsAsciiLetterOrDigit(s[0]) {
      RunsSpec(s[1..], cur + [s[0]]);
      assert cur + [s[0]] + AlnumOnly(s[1..]) == cur + AlnumOnly(s);
    } else {
      RunsSpec(s[1..], []);
      var head: seq<string> := if cur == [] then [] else [cur];
      ConcatAppend(head, Runs(s[1..], []));
      assert Concat(head) == cur by {
        if cur != [] { assert Concat([cur]) == cur + Concat([]); }
      }
    }
  }

  /** A string of letters and digits is one run. */
  lemma {:induction false} RunsOfAlnum(s: string, cur: string)
    requires AllAlnum(s) && cur + s != []
    ensures Runs(s, cur) == [cur + s]
    decreases |s|
  {
    if s != [] {
      RunsOfAlnum(s[1..], cur + [s[0]]);
      assert cur + [s[0]] + s[1..] == cur + s;
    } else {
      assert cur + s == cur;
    }
  }

  /** A part with its first character upper-cased. */
  function Capitalize(part: string): (r: string)
    ensures |r| == |part|
  {
    if part == [] then [] else [UpperChar(part[0])] + part[1..]
  }

  function CapitalizeAll(parts: seq<string>): string
  {
    if parts == [] then [] else Capitalize(parts[0]) + CapitalizeAll(parts[1..])
  }

  /** The PascalCase form: "" for blank input, the input itself when it
      has no letters or digits, and otherwise its runs of letters and
      digits, each with an upper-case first character, joined. */
  function PascalCase(value: string): string
  {
    if IsBlank(value) then ""
    else
      var parts := Runs(value, []);
      if parts == [] then value else CapitalizeAll(parts)
  }

  /** `ToPascalCase`: the first loop collects the runs into `parts`; the
      second appends each part with its first character upper-cased. */
  method ToPascalCase(value: string) returns (r: string)
    ensures r == PascalCase(value)
  {
    if IsBlank(value) {
      return "";
    }
    var parts := CollectRuns(value);
    if |parts| == 0 {
      return value;
    }
    r := AppendCapitalized(parts);
  }

  /** The first loop of `ToPascalCase`. */
  method CollectRuns(value: string) returns (parts: seq<string>)
    ensures parts == Runs(value, [])
  {
    parts := [];
    var sb: string := [];
    for i := 0 to |value|
      invariant parts + Runs(value[i..], sb) == Runs(value, [])
    {
      assert value[i..][1..] == value[i + 1..];
      if IsAsciiLetterOrDigit(value[i]) {
        sb := sb + [value[i]];
      } else {
        if |sb| > 0 {
          parts := parts + [sb];
        }
        sb := [];
      }
    }
    assert value[|value|..] == [];
    if |sb| > 0 {
      parts := parts + [sb];
    }
  }

  /** The second loop of `ToPascalCase`; empty parts are skipped. */
  method AppendCapitalized(parts: seq<string>) returns (result: string)
    ensures result == CapitalizeAll(parts)
  {
    result := [];
    for k := 0 to |parts|
      invariant result == CapitalizeAll(parts[..k])
    {
      var part := parts[k];
      ghost var prev := result;
      if |part| != 0 {
        result := result + [UpperChar(part[0])];
        if |part| > 1 {
          result := result + part[1..];
        }
      }
      assert result == prev + Capitalize(part) by {
        if |part| == 1 {
          assert part[1..] == [];
        }
      }
      CapitalizeAllStep(parts, k);
    }
    assert parts[..|parts|] == parts;
  }

  lemma CapitalizeAllStep(parts: seq<string>, k: nat)
    requires k < |parts|
    ensures CapitalizeAll(parts[..k + 1]) == CapitalizeAll(parts[..k]) + Capitalize(parts[k])
  {
    CapitalizeAllAppend(parts[..k], parts[k]);
    assert parts[..k + 1] == parts[..k] + [parts[k]];
  }

  lemma {:induction false} CapitalizeAllAppend(parts: seq<string>, p: string)
    ensures CapitalizeAll(parts + [p]) == CapitalizeAll(parts) + Capitalize(p)
  {
    if parts != [] {
      assert (parts + [p])[1..] == parts[1..] + [p];
      CapitalizeAllAppend(parts[1..], p);
    } else {
      assert CapitalizeAll([p]) == Capitalize(p) + CapitalizeAll([]);
    }
  }

  /** Capitalising changes letter case only. */
  lemma {:induction false} CapitalizeAllLower(parts: seq<string>)
    ensures Lower(CapitalizeAll(parts)) == Lower(Concat(parts))
  {
    if parts != [] {
      CapitalizeAllLower(parts[1..]);
      var p := parts[0];
      if p != [] {
        assert LowerChar(UpperChar(p[0])) == LowerChar(p[0]);
        assert Lower(Capitalize(p)) == Lower(p);
      }
      LowerAppend(Capitalize(p), CapitalizeAll(parts[1..]));
      LowerAppend(p, Concat(parts[1..]));
    }
  }

  lemma LowerAppend(a: string, b: string)
    ensures Lower(a + b) == Lower(a) + Lower(b)
  {
  }

  /** For a value with letters or digits, the PascalCase form has exactly
      its letters and digits, in order and up to letter case, and starts
      with no lower-case letter. */
  lemma PascalCaseKeepsLettersAndDigits(value: string)
    requires AlnumOnly(value) != []
    ensures Lower(PascalCase(value)) == Lower(AlnumOnly(value))
    ensures PascalCase(value) != [] && !IsAsciiLower(PascalCase(value)[0])
  {
    RunsSpec(value, []);
    assert [] + AlnumOnly(value) == AlnumOnly(value);
    var parts := Runs(value, []);
    AlnumNotWhite(value);
    assert PascalCase(value) == CapitalizeAll(parts);
    CapitalizeAllLower(parts);
    assert parts[0] != [];
    assert CapitalizeAll(parts) == Capitalize(parts[0]) + CapitalizeAll(parts[1..]);
    assert CapitalizeAll(parts)[0] == UpperChar(parts[0][0]);
  }

  /** A value with a letter or digit is not blank. */
  lemma {:induction false} AlnumNotWhite(s: string)
    requires AlnumOnly(s) != []
    ensures !IsBlank(s)
  {
    if !IsAsciiLetterOrDigit(s[0]) {
      AlnumNotWhite(s[1..]);
      assert !IsBlank(s[1..]);
      var i :| 0 <= i < |s[1..]| && !IsWhiteSpace(s[1..][i]);
      assert !IsWhiteSpace(s[i + 1]);
    }
  }

  /** Blank input gives "", and input without letters or digits is kept. */
  lemma PascalCaseDegenerate(value: string)
    ensures IsBlank(value) ==> PascalCase(value) == ""
    ensures !IsBlank(value) && AlnumOnly(value) == [] ==> PascalCase(value) == value
  {
    RunsSpec(value, []);
  }

  lemma {:induction false} CapitalizeAllAlnum(parts: seq<string>)
    requires forall k :: 0 <= k < |parts| ==> AllAlnum(parts[k])
    ensures AllAlnum(CapitalizeAll(parts))
  {
    if parts != [] {
      CapitalizeAllAlnum(parts[1..]);
      var c := Capitalize(parts[0]);
      assert AllAlnum(c) by {
        if parts[0] != [] {
          assert IsAsciiLetterOrDigit(parts[0][0]);
        }
      }
    }
  }

  /** Converting twice gives the same name as converting once. */
  lemma PascalCaseIdempotent(value: string)
    ensures PascalCase(PascalCase(value)) == PascalCase(value)
  {
    RunsSpec(value, []);
    var parts := Runs(value, []);
    if !IsBlank(value) && parts != [] {
      var p := PascalCase(value);
      assert [] + AlnumOnly(value) == AlnumOnly(value);
      PascalCaseKeepsLettersAndDigits(value);
      CapitalizeAllAlnum(parts);
      assert AllAlnum(p);
      assert p != [] && UpperChar(p[0]) == p[0];
      PascalOfPascal(p);
    }
  }

  /** Letters and digits that start with no lower-case letter are their
      own PascalCase form. */
  lemma PascalOfPascal(p: string)
    requires p != [] && AllAlnum(p) && UpperChar(p[0]) == p[0]
    ensures PascalCase(p) == p
  {
    assert !IsBlank(p) by {
      assert IsAsciiLetterOrDigit(p[0]);
    }
    assert [] + p == p;
    RunsOfAlnum(p, []);
    assert CapitalizeAll([p]) == Capitalize(p) + CapitalizeAll([]);
    assert Capitalize(p) == p by {
      assert [p[0]] + p[1..] == p;
    }
  }

  // ---------------------------------------------------------------------
  // GetExportsContractName (ModuleExportsContractEmitter.cs:484-515)
  // ---------------------------------------------------------------------

  datatype ContractName = ContractName(namespace: string, interfaceName: string)

  /** `Split('/', RemoveEmptyEntries)`. */
  function NonEmptySegments(moduleId: string): (r: seq<string>)
    ensures forall k :: 0 <= k < |r| ==> r[k] != [] && forall i :: 0 <= i < |r[k]| ==> r[k][i] != '/'
  {
    DropEmpty(SplitOn(moduleId, '/'))
  }

  function DropEmpty(parts: seq<string>): (r: seq<string>)
    ensures forall k :: 0 <= k < |r| ==> r[k] != [] && r[k] in parts
  {
    if parts == [] then []
    else if parts[0] == [] then DropEmpty(parts[1..])
    else [parts[0]] + DropEmpty(parts[1..])
  }

  function MapPascal(parts: seq<string>): (r: seq<string>)
    ensures |r| == |parts| && forall k :: 0 <= k < |parts| ==> r[k] == PascalCase(parts[k])
  {
    if parts == [] then [] else [PascalCase(parts[0])] + MapPascal(parts[1..])
  }

  /** The contract name for the segments of a non-root module id. */
  function ContractNameOfSegments(assemblyName: string, segments: seq<string>): ContractName
  {
    var rootNamespace := "Js2IL." + assemblyName;
    if segments == [] then ContractName(rootNamespace, "IExports")
    else
      var dirs := segments[..|segments| - 1];
      var ns := if dirs == [] then rootNamespace else rootNamespace + "." + JoinWith(MapPascal(dirs), '.');
      var last := segments[|segments| - 1];
      var display := if EqualsIgnoreCase(last, "index") && |segments| > 1 then segments[|segments| - 2] else last;
      ContractName(ns, "I" + PascalCase(display) + "Exports")
  }

  /** `GetExportsContractName`. */
  function GetExportsContractName(assemblyName: string, moduleId: string, isRootModule: bool): (r: ContractName)
    ensures IsPrefix("Js2IL." + assemblyName, r.namespace)
    ensures IsPrefix("I", r.interfaceName) && IsSuffix("Exports", r.interfaceName)
  {
    if isRootModule then ContractName("Js2IL." + assemblyName, "I" + PascalCase(assemblyName) + "Exports")
    else
      var r := ContractNameOfSegments(assemblyName, NonEmptySegments(moduleId));
      assert IsPrefix("Js2IL." + assemblyName, r.namespace) by {
        var p := "Js2IL." + assemblyName;
        assert forall t :: (p + t)[..|p|] == p;
      }
      assert IsSuffix("Exports", r.interfaceName) by {
        var n := r.interfaceName;
        assert n[|n| - 7..] == "Exports";
      }
      r
  }

  /** A nested module "dir/.../name" lives in the namespace of its
      PascalCased directories, and "dir/index" is named after "dir". */
  lemma ContractNameOfNestedModule(assemblyName: string, dirs: seq<string>, last: string)
    ensures var r := ContractNameOfSegments(assemblyName, dirs + [last]);
            && r.namespace == (if dirs == [] then "Js2IL." + assemblyName
                               else "Js2IL." + assemblyName + "." + JoinWith(MapPascal(dirs), '.'))
            && r.interfaceName == "I" + PascalCase(if EqualsIgnoreCase(last, "index") && dirs != [] then dirs[|dirs| - 1] else last) + "Exports"
  {
    var segments := dirs + [last];
    assert segments[..|segments| - 1] == dirs;
    assert segments[|segments| - 1] == last;
    if dirs != [] {
      assert segments[|segments| - 2] == dirs[|dirs| - 1];
    }
  }

  /** A module id of non-empty '/'-free segments splits back into them. */
  lemma {:induction false} SegmentsOfJoinedId(segments: seq<string>)
    requires segments != []
    requires forall k :: 0 <= k < |segments| ==> segments[k] != [] && forall i :: 0 <= i < |segments[k]| ==> segments[k][i] != '/'
    ensures NonEmptySegments(JoinWith(segments, '/')) == segments
  {
    SplitJoined(segments);
    DropEmptyOfNonEmpty(segments);
  }

  lemma {:induction false} SplitJoined(segments: seq<string>)
    requires segments != []
    requires forall k :: 0 <= k < |segments| ==> forall i :: 0 <= i < |segments[k]| ==> segments[k][i] != '/'
    ensures SplitOn(JoinWith(segments, '/'), '/') == segments
  {
    var s := JoinWith(segments, '/');
    var head := segments[0];
    if |segments| == 1 {
      assert IndexOfChar(s, '/', 0) == -1;
    } else {
      var rest := JoinWith(segments[1..], '/');
      assert s == head + ['/'] + rest;
      assert s[|head|] == '/';
      assert forall i :: 0 <= i < |head| ==> s[i] == head[i];
      IndexOfCharAt(s, '/', 0, |head|);
      assert s[..|head|] == head;
      assert s[|head| + 1..] == rest;
      SplitJoined(segments[1..]);
      assert segments == [head] + segments[1..];
    }
  }

  lemma {:induction false} DropEmptyOfNonEmpty(parts: seq<string>)
    requires forall k :: 0 <= k < |parts| ==> parts[k] != []
    ensures DropEmpty(parts) == parts
  {
    if parts != [] {
      DropEmptyOfNonEmpty(parts[1..]);
      assert parts == [parts[0]] + parts[1..];
    }
  }

  /** The root module's contract is named after the assembly. */
  lemma RootContractName(assemblyName: string, moduleId: string)
    ensures GetExportsContractName(assemblyName, moduleId, true) ==
              ContractName("Js2IL." + assemblyName, "I" + PascalCase(assemblyName) + "Exports")
  {
  }

  // ---------------------------------------------------------------------
  // MapClrType (ModuleExportsContractEmitter.cs:791-799)
  // ---------------------------------------------------------------------

  /** The CLR types a contract member can be declared with: the three the
      contract keeps, `object`, and any other type by name. */
  datatype ClrType = ClrDouble | ClrBool | ClrString | ClrObject | ClrNamed(name: string)

  predicate IsContractType(t: ClrType)
  {
    t.ClrDouble? || t.ClrBool? || t.ClrString? || t.ClrObject?
  }

  /** `MapClrType`: double, bool and string are kept and every other type
      becomes object. */
  function MapClrType(t: ClrType): (r: ClrType)
    ensures IsContractType(r)
    ensures r == t || r == ClrObject
    ensures r == t <==> IsContractType(t)
  {
    if t == ClrDouble || t == ClrBool || t == ClrString then t else ClrObject
  }
}
