/** The pure parts of `NodeModuleResolver`: the reversible encoding of
    module ids into CLR identifiers, bare-specifier parsing, and the
    evaluation of a package.json `exports` value (subpath maps, single-'*'
    patterns and conditional exports in require/node/default order).
    The package.json text is taken as an already parsed `Json` tree. */
module NodeModuleResolution {
  import opened JsValues
  import opened Text
  import NodeBuffer

  type Byte = NodeBuffer.Byte

  // ---------------------------------------------------------------------
  // UTF-8 (RFC 3629 section 3), as `Encoding.UTF8.GetBytes` produces it
  // ---------------------------------------------------------------------

  /** A Unicode scalar value: what a Dafny `char` holds. */
  predicate IsScalar(n: int)
  {
    (0 <= n < 0xD800) || (0xE000 <= n < 0x11_0000)
  }

  /** The sequence length a lead byte announces. */
  function Utf8SequenceLength(lead: Byte): (k: nat)
    ensures 1 <= k <= 4
  {
    if lead < 0x80 then 1 else if lead < 0xE0 then 2 else if lead < 0xF0 then 3 else 4
  }

  /** The UTF-8 bytes of one scalar value: 1 to 4 bytes, the lead byte
      announcing the length and every other byte a continuation byte. */
  function Utf8Char(c: char): (r: seq<Byte>)
    ensures 1 <= |r| <= 4 && |r| == Utf8SequenceLength(r[0])
    ensures forall i :: 1 <= i < |r| ==> 0x80 <= r[i] < 0xC0
  {
    var n := c as int;
    if n < 0x80 then [n]
    else if n < 0x800 then [0xC0 + n / 64, 0x80 + n % 64]
    else if n < 0x1_0000 then [0xE0 + n / 4096, 0x80 + (n / 64) % 64, 0x80 + n % 64]
    else [0xF0 + n / 262144, 0x80 + (n / 4096) % 64, 0x80 + (n / 64) % 64, 0x80 + n % 64]
  }

  /** The code point that a lead byte and its continuation bytes carry. */
  function Utf8Value(b: seq<Byte>): int
    requires 1 <= |b| <= 4
  {
    var b0 := b[0] as int;
    if |b| == 1 then b0
    else if |b| == 2 then (b0 - 0xC0) * 64 + (b[1] as int - 0x80)
    else if |b| == 3 then (b0 - 0xE0) * 4096 + (b[1] as int - 0x80) * 64 + (b[2] as int - 0x80)
    else (b0 - 0xF0) * 262144 + (b[1] as int - 0x80) * 4096 + (b[2] as int - 0x80) * 64 + (b[3] as int - 0x80)
  }

  lemma Utf8CharValue(c: char)
    ensures Utf8Value(Utf8Char(c)) == c as int
  {
    var n := c as int;
    assert n == (n / 64) * 64 + n % 64;
    assert n / 64 == (n / 4096) * 64 + (n / 64) % 64;
    assert n / 4096 == (n / 262144) * 64 + (n / 4096) % 64;
  }

  function Utf8Encode(s: string): (r: seq<Byte>)
    ensures |s| <= |r| <= 4 * |s|
  {
    if s == [] then [] else Utf8Char(s[0]) + Utf8Encode(s[1..])
  }

  /** A decoder for well-formed UTF-8; `None` for a truncated sequence or a
      value that is not a scalar value. */
  function Utf8Decode(b: seq<Byte>): (r: Option<string>)
    decreases |b|
  {
    if b == [] then Some([])
    else
      var k := Utf8SequenceLength(b[0]);
      if k > |b| then None
      else
        var v := Utf8Value(b[..k]);
        if !IsScalar(v) then None
        else match Utf8Decode(b[k..])
          case None => None
          case Some(rest) => Some([v as char] + rest)
  }

  lemma {:induction false} Utf8RoundTrip(s: string)
    ensures Utf8Decode(Utf8Encode(s)) == Some(s)
  {
    if s != [] {
      var head := Utf8Char(s[0]);
      var b := Utf8Encode(s);
      assert b == head + Utf8Encode(s[1..]);
      assert b[0] == head[0];
      assert b[..|head|] == head;
      assert b[|head|..] == Utf8Encode(s[1..]);
      Utf8CharValue(s[0]);
      Utf8RoundTrip(s[1..]);
      assert [s[0]] + s[1..] == s;
    }
  }

  // ---------------------------------------------------------------------
  // EncodeModuleIdToClrIdentifier (NodeModuleResolver.cs:60-83)
  // ---------------------------------------------------------------------

  predicate IsIdentifierChar(c: char)
  {
    ('a' <= c <= 'z') || ('0' <= c <= '9') || c == '_'
  }

  /** The identifier a module id is encoded to: "_" for a blank id,
      otherwise "m_" followed by two lowercase hex digits per UTF-8 byte. */
  function ClrIdentifierOf(moduleId: string): (r: string)
    ensures forall i :: 0 <= i < |r| ==> IsIdentifierChar(r[i])
    ensures |r| >= 1 && !IsAsciiDigit(r[0])
    ensures IsBlank(moduleId) <==> r == "_"
  {
    if IsBlank(moduleId) then "_"
    else
      var hex := NodeBuffer.HexEncode(Utf8Encode(moduleId));
      NodeBuffer.HexEncodeDigits(Utf8Encode(moduleId));
      assert forall i :: 2 <= i < 2 + |hex| ==> ("m_" + hex)[i] == hex[i - 2];
      "m_" + hex
  }

  /** The inverse of the encoding, for identifiers that start with "m_". */
  function DecodeClrIdentifier(id: string): (r: Option<string>)
  {
    if |id| >= 2 && id[..2] == "m_" then Utf8Decode(NodeBuffer.HexDecode(id[2..])) else None
  }

  lemma ClrIdentifierRoundTrip(moduleId: string)
    requires !IsBlank(moduleId)
    ensures DecodeClrIdentifier(ClrIdentifierOf(moduleId)) == Some(moduleId)
  {
    var bytes := Utf8Encode(moduleId);
    var r := ClrIdentifierOf(moduleId);
    assert r[2..] == NodeBuffer.HexEncode(bytes);
    NodeBuffer.HexRoundTrip(bytes);
    Utf8RoundTrip(moduleId);
  }

  /** Two module ids get the same identifier exactly when they are equal
      or both blank. */
  lemma ClrIdentifierInjective(a: string, b: string)
    ensures ClrIdentifierOf(a) == ClrIdentifierOf(b) <==> (a == b || (IsBlank(a) && IsBlank(b)))
  {
    if ClrIdentifierOf(a) == ClrIdentifierOf(b) && !IsBlank(a) && !IsBlank(b) {
      ClrIdentifierRoundTrip(a);
      ClrIdentifierRoundTrip(b);
    }
  }

  /** `EncodeModuleIdToClrIdentifier`: fills a character array with "m_" and
      the hex digits of each UTF-8 byte, high nibble first. */
  method EncodeModuleIdToClrIdentifier(moduleId: string) returns (r: string)
    ensures r == ClrIdentifierOf(moduleId)
  {
    if IsBlank(moduleId) {
      return "_";
    }
    r := PrefixedHex(Utf8Encode(moduleId));
  }

  /** The character-array loop of the encoder: "m_" and then two digits
      per byte, high nibble first. */
  method PrefixedHex(bytes: seq<Byte>) returns (r: string)
    ensures r == "m_" + NodeBuffer.HexEncode(bytes)
  {
    var chars := new char[2 + |bytes| * 2];
    chars[0] := 'm';
    chars[1] := '_';
    var i := 2;
    for k := 0 to |bytes|
      invariant i == 2 + 2 * k
      invariant chars[..i] == "m_" + NodeBuffer.HexEncode(bytes[..k])
    {
      var b := bytes[k];
      var hi := b / 16;
      var lo := b % 16;
      ghost var done := chars[..i];
      chars[i] := HexChar(hi);
      chars[i + 1] := HexChar(lo);
      assert chars[..i] == done;
      AppendPair(done, bytes[..k], b, chars[..i + 2]);
      assert bytes[..k + 1] == bytes[..k] + [b];
      i := i + 2;
    }
    assert bytes[..|bytes|] == bytes;
    assert chars[..] == chars[..i];
    r := chars[..];
  }

  /** One lowercase hex digit, computed as the encoder writes it. */
  function HexChar(n: int): (c: char)
    requires 0 <= n < 16
    ensures c == NodeBuffer.HexDigit(n)
  {
    if n < 10 then ('0' as int + n) as char else ('a' as int + (n - 10)) as char
  }

  lemma AppendPair(done: string, bytes: seq<Byte>, b: Byte, next: string)
    requires done == "m_" + NodeBuffer.HexEncode(bytes)
    requires |next| == |done| + 2 && next[..|done|] == done
    requires next[|done|] == NodeBuffer.HexDigit(b / 16) && next[|done| + 1] == NodeBuffer.HexDigit(b % 16)
    ensures next == "m_" + NodeBuffer.HexEncode(bytes + [b])
  {
    NodeBuffer.HexEncodeAppend(bytes, b);
    assert next == done + [next[|done|], next[|done| + 1]];
  }

  // ---------------------------------------------------------------------
  // Specifiers (NodeModuleResolver.cs:452-457, 492-536)
  // ---------------------------------------------------------------------

  /** `NormalizeSpecifier`: trimmed, with back slashes turned into slashes. */
  function NormalizeSpecifier(specifier: string): (r: string)
    ensures |r| == |Trim(specifier)|
    ensures forall i :: 0 <= i < |r| ==> r[i] != '\\'
    ensures forall i :: 0 <= i < |r| && Trim(specifier)[i] != '\\' ==> r[i] == Trim(specifier)[i]
  {
    ReplaceChar(Trim(specifier), '\\', '/')
  }

  lemma NormalizeSpecifierIdempotent(specifier: string)
    ensures NormalizeSpecifier(NormalizeSpecifier(specifier)) == NormalizeSpecifier(specifier)
  {
    var r := NormalizeSpecifier(specifier);
    var t := Trim(specifier);
    assert r == [] || (!IsWhiteSpace(r[0]) && !IsWhiteSpace(r[|r| - 1])) by {
      if r != [] {
        assert r[0] == t[0] || r[0] == '/';
        assert r[|r| - 1] == t[|t| - 1] || r[|r| - 1] == '/';
      }
    }
    TrimKeepsTrimmed(r);
    assert ReplaceChar(r, '\\', '/') == r;
  }

  /** The specifier with one leading "node:" (in any letter case) removed. */
  function WithoutNodePrefix(specifier: string): (s: string)
    ensures s == specifier || (|specifier| >= 5 && s == specifier[5..])
  {
    if StartsWithIgnoreCase(specifier, "node:") then specifier[5..] else specifier
  }

  /** `ParseBareSpecifier`: splits into package name and subpath. A scoped
      name "@scope/name" keeps its first slash; the subpath is what follows
      the next slash, or "" when there is none. */
  function ParseBareSpecifier(specifier: string): (r: (string, string))
    ensures (r.0 == WithoutNodePrefix(specifier) && r.1 == []) || r.0 + "/" + r.1 == WithoutNodePrefix(specifier)
  {
    SplitPackage(WithoutNodePrefix(specifier))
  }

  /** The split itself, once "node:" is gone. */
  function SplitPackage(s: string): (r: (string, string))
    ensures (r.0 == s && r.1 == []) || r.0 + "/" + r.1 == s
  {
    if |s| > 0 && s[0] == '@' then
      var first := IndexOfChar(s, '/', 1);
      if first < 0 then (s, "")
      else
        var second := IndexOfChar(s, '/', first + 1);
        if second < 0 then (s, "")
        else
          assert s[..second] + "/" + s[second + 1..] == s;
          (s[..second], s[second + 1..])
    else
      var slash := IndexOfChar(s, '/', 0);
      if slash < 0 then (s, "")
      else
        assert s[..slash] + "/" + s[slash + 1..] == s;
        (s[..slash], s[slash + 1..])
  }

  predicate NoSlash(s: string)
  {
    forall i :: 0 <= i < |s| ==> s[i] != '/'
  }

  lemma NotNodePrefixed(s: string)
    requires |s| > 0 && Lower(s)[0] != 'n'
    ensures !StartsWithIgnoreCase(s, "node:")
  {
    if |s| >= 5 {
      assert Lower(s[..5])[0] == Lower(s)[0];
      assert Lower("node:")[0] == 'n';
    }
  }

  /** "@scope/name/rest" is package "@scope/name" with subpath "rest". */
  lemma ParseScopedSpecifier(scope: string, name: string, rest: string)
    requires NoSlash(scope) && NoSlash(name)
    ensures ParseBareSpecifier("@" + scope + "/" + name + "/" + rest) == ("@" + scope + "/" + name, rest)
  {
    var s := "@" + scope + "/" + name + "/" + rest;
    assert s[0] == '@';
    NotNodePrefixed(s);
    assert WithoutNodePrefix(s) == s;
    SplitScoped(scope, name, rest);
  }

  lemma SplitScoped(scope: string, name: string, rest: string)
    requires NoSlash(scope) && NoSlash(name)
    ensures SplitPackage("@" + scope + "/" + name + "/" + rest) == ("@" + scope + "/" + name, rest)
  {
    var s := "@" + scope + "/" + name + "/" + rest;
    var first := 1 + |scope|;
    var second := first + 1 + |name|;
    assert s[first] == '/' && s[second] == '/';
    assert forall i :: 1 <= i < first ==> s[i] == scope[i - 1];
    assert forall i :: first + 1 <= i < second ==> s[i] == name[i - first - 1];
    IndexOfCharAt(s, '/', 1, first);
    IndexOfCharAt(s, '/', first + 1, second);
    assert s[..second] == "@" + scope + "/" + name;
    assert s[second + 1..] == rest;
  }

  /** "name/rest" is package "name" with subpath "rest". */
  lemma ParseUnscopedSpecifier(name: string, rest: string)
    requires NoSlash(name) && (name == [] || name[0] != '@')
    requires !StartsWithIgnoreCase(name + "/" + rest, "node:")
    ensures ParseBareSpecifier(name + "/" + rest) == (name, rest)
  {
    var s := name + "/" + rest;
    assert s[|name|] == '/';
    assert forall i :: 0 <= i < |name| ==> s[i] == name[i];
    assert IndexOfChar(s, '/', 0) == |name|;
    assert s[..|name|] == name;
    assert s[|name| + 1..] == rest;
  }

  /** A leading "node:" in any letter case is stripped before parsing. */
  lemma ParseStripsNodePrefix(prefix: string, s: string)
    requires |prefix| == 5 && EqualsIgnoreCase(prefix, "node:")
    requires !StartsWithIgnoreCase(s, "node:")
    ensures ParseBareSpecifier(prefix + s) == ParseBareSpecifier(s)
  {
    var t := prefix + s;
    assert t[..5] == prefix;
    assert t[5..] == s;
  }

  // ---------------------------------------------------------------------
  // package.json exports (NodeModuleResolver.cs:253-426)
  // ---------------------------------------------------------------------

  /** A parsed JSON value; numbers, booleans and null are `JOther`, since
      no exports rule looks into them. Object members keep document order. */
  datatype Json = JString(s: string) | JArray(items: seq<Json>) | JObject(members: seq<Member>) | JOther
  datatype Member = Member(name: string, value: Json)

  /** `JsonElement.TryGetProperty`: the index of the LAST member with the
      name (a repeated property is matched by its last definition), or -1. */
  function PropertyIndex(members: seq<Member>, name: string): (r: int)
    ensures -1 <= r < |members|
    ensures r >= 0 ==> members[r].name == name && forall j :: r < j < |members| ==> members[j].name != name
    ensures r < 0 ==> forall j :: 0 <= j < |members| ==> members[j].name != name
  {
    if members == [] then -1
    else if members[|members| - 1].name == name then |members| - 1
    else PropertyIndex(members[..|members| - 1], name)
  }

  /** The condition names `TryResolveConditionalExports` honours, in order. */
  const Priorities: seq<string> := ["require", "node", "default"]

  /** How many alternatives a value offers: array entries or priorities. */
  function Breadth(e: Json): nat
  {
    if e.JArray? then |e.items| else |Priorities|
  }

  /** `TryResolveConditionalExports`: a non-blank string is the target; an
      array tries its entries in order; an object tries "require", "node"
      and "default" in that order; anything else fails. */
  function Conditional(e: Json): (r: Option<string>)
    ensures r.Some? ==> !IsBlank(r.value)
    decreases e, Breadth(e) + 1
  {
    match e
    case JString(s) => if IsBlank(s) then None else Some(s)
    case JArray(_) => ConditionalFrom(e, 0)
    case JObject(_) => ConditionalByPriority(e, 0)
    case JOther => None
  }

  /** The first array entry, from `i` on, that resolves. */
  function ConditionalFrom(e: Json, i: nat): (r: Option<string>)
    requires e.JArray? && i <= |e.items|
    ensures r.Some? ==> !IsBlank(r.value)
    decreases e, |e.items| - i
  {
    if i == |e.items| then None
    else match Conditional(e.items[i])
      case Some(t) => Some(t)
      case None => ConditionalFrom(e, i + 1)
  }

  /** The first condition, from `Priorities[k]` on, present and resolving. */
  function ConditionalByPriority(e: Json, k: nat): (r: Option<string>)
    requires e.JObject? && k <= |Priorities|
    ensures r.Some? ==> !IsBlank(r.value)
    decreases e, |Priorities| - k
  {
    if k == |Priorities| then None
    else
      var i := PropertyIndex(e.members, Priorities[k]);
      if i < 0 then ConditionalByPriority(e, k + 1)
      else match Conditional(e.members[i].value)
        case Some(t) => Some(t)
        case None => ConditionalByPriority(e, k + 1)
  }

  /** The outcome of the condition `name` of an object on its own. */
  function ConditionOf(members: seq<Member>, name: string): Option<string>
  {
    var i := PropertyIndex(members, name);
    if i < 0 then None else Conditional(members[i].value)
  }

  lemma {:induction false} ConditionalFromFirstSuccess(e: Json, i: nat, j: nat)
    requires e.JArray? && i <= j < |e.items|
    requires Conditional(e.items[j]).Some?
    requires forall m :: i <= m < j ==> Conditional(e.items[m]).None?
    ensures ConditionalFrom(e, i) == Conditional(e.items[j])
    decreases j - i
  {
    if i < j {
      ConditionalFromFirstSuccess(e, i + 1, j);
    }
  }

  lemma {:induction false} ConditionalFromSound(e: Json, i: nat)
    requires e.JArray? && i <= |e.items|
    requires ConditionalFrom(e, i).Some?
    ensures exists j :: i <= j < |e.items| && Conditional(e.items[j]) == ConditionalFrom(e, i)
                        && forall m :: i <= m < j ==> Conditional(e.items[m]).None?
    decreases |e.items| - i
  {
    if Conditional(e.items[i]).None? {
      ConditionalFromSound(e, i + 1);
    }
  }

  /** Conditional array entries: the first entry that resolves wins, and a
      resolved array always comes from such an entry. */
  lemma ConditionalArrayFirstSuccess(items: seq<Json>, j: nat)
    requires j < |items| && Conditional(items[j]).Some?
    requires forall m :: 0 <= m < j ==> Conditional(items[m]).None?
    ensures Conditional(JArray(items)) == Conditional(items[j])
  {
    ConditionalFromFirstSuccess(JArray(items), 0, j);
  }

  lemma ConditionalArraySound(items: seq<Json>)
    requires Conditional(JArray(items)).Some?
    ensures exists j :: 0 <= j < |items| && Conditional(items[j]) == Conditional(JArray(items))
                        && forall m :: 0 <= m < j ==> Conditional(items[m]).None?
  {
    ConditionalFromSound(JArray(items), 0);
  }

  /** A resolving "require" condition wins over everything else. */
  lemma RequireConditionWins(members: seq<Member>)
    requires ConditionOf(members, "require").Some?
    ensures Conditional(JObject(members)) == ConditionOf(members, "require")
  {
    assert Priorities[0] == "require";
    assert Conditional(JObject(members)) == ConditionalByPriority(JObject(members), 0);
  }

  /** "node" is consulted only when "require" does not resolve, and wins
      over "default". */
  lemma NodeConditionBeforeDefault(members: seq<Member>)
    requires ConditionOf(members, "require").None?
    requires ConditionOf(members, "node").Some?
    ensures Conditional(JObject(members)) == ConditionOf(members, "node")
  {
    var e := JObject(members);
    assert Priorities[0] == "require" && Priorities[1] == "node";
    assert Conditional(e) == ConditionalByPriority(e, 0);
    assert ConditionalByPriority(e, 0) == ConditionalByPriority(e, 1);
  }

  /** "default" is the last resort; nothing else is consulted. */
  lemma DefaultConditionLast(members: seq<Member>)
    requires ConditionOf(members, "require").None? && ConditionOf(members, "node").None?
    ensures Conditional(JObject(members)) == ConditionOf(members, "default")
  {
    var e := JObject(members);
    assert Priorities[0] == "require" && Priorities[1] == "node" && Priorities[2] == "default";
    assert Conditional(e) == ConditionalByPriority(e, 0);
    assert ConditionalByPriority(e, 0) == ConditionalByPriority(e, 1);
    assert ConditionalByPriority(e, 1) == ConditionalByPriority(e, 2);
    assert ConditionalByPriority(e, 3) == None;
  }

  /** Members named other than the three conditions (such as "import")
      never change the outcome. */
  lemma OtherConditionsIgnored(members: seq<Member>, extra: Member)
    requires extra.name !in Priorities
    ensures Conditional(JObject(members + [extra])) == Conditional(JObject(members))
  {
    ByPriorityIgnoresExtra(members, extra, 0);
  }

  lemma {:induction false} ByPriorityIgnoresExtra(members: seq<Member>, extra: Member, k: nat)
    requires extra.name !in Priorities && k <= |Priorities|
    ensures ConditionalByPriority(JObject(members + [extra]), k) == ConditionalByPriority(JObject(members), k)
    decreases |Priorities| - k
  {
    if k < |Priorities| {
      var m := members + [extra];
      assert m[..|m| - 1] == members;
      assert m[|m| - 1].name != Priorities[k];
      var i := PropertyIndex(members, Priorities[k]);
      assert PropertyIndex(m, Priorities[k]) == i;
      if i >= 0 {
        assert m[i] == members[i];
      }
      ByPriorityIgnoresExtra(members, extra, k + 1);
    }
  }

  /** An object is a subpath map when some member name starts with '.'. */
  predicate LooksLikeSubpathMap(members: seq<Member>)
  {
    exists i :: 0 <= i < |members| && IsPrefix(".", members[i].name)
  }

  /** A pattern member that matched: its name, its value and the text the
      '*' stands for. */
  datatype PatternMatch = PatternMatch(key: string, entry: Json, wildcard: string)

  /** The name with its first '*' replaced by `w`. */
  function ReplaceFirstStar(key: string, w: string): string
  {
    var star := IndexOfChar(key, '*', 0);
    if star < 0 then key else key[..star] + w + key[star + 1..]
  }

  /** Whether a pattern name matches a subpath key: its text before the
      first '*' is a prefix and its text after is a suffix of the key, and
      the two do not overlap. */
  predicate PatternMatches(key: string, subpathKey: string)
  {
    var star := IndexOfChar(key, '*', 0);
    star >= 0 && IsPrefix(key[..star], subpathKey) && IsSuffix(key[star + 1..], subpathKey)
    && star + (|key| - star - 1) <= |subpathKey|
  }

  /** `TryResolveSubpathPattern` from member `i` on: the first member whose
      name has a '*' and matches; a name whose prefix and suffix would
      overlap in the key is skipped. */
  function SubpathPatternFrom(members: seq<Member>, subpathKey: string, i: nat): (r: Option<PatternMatch>)
    requires i <= |members|
    decreases |members| - i
  {
    if i == |members| then None
    else
      var key := members[i].name;
      if PatternMatches(key, subpathKey) then
        var star := IndexOfChar(key, '*', 0);
        Some(PatternMatch(key, members[i].value, subpathKey[star..|subpathKey| - (|key| - star - 1)]))
      else SubpathPatternFrom(members, subpathKey, i + 1)
  }

  function SubpathPattern(members: seq<Member>, subpathKey: string): Option<PatternMatch>
  {
    SubpathPatternFrom(members, subpathKey, 0)
  }

  lemma SubpathPatternFromSpec(members: seq<Member>, subpathKey: string, i: nat)
    requires i <= |members|
    ensures SubpathPatternFrom(members, subpathKey, i).Some? ==>
              exists j :: i <= j < |members|
                && members[j] == Member(SubpathPatternFrom(members, subpathKey, i).value.key, SubpathPatternFrom(members, subpathKey, i).value.entry)
                && PatternMatches(members[j].name, subpathKey)
                && forall m :: i <= m < j ==> !PatternMatches(members[m].name, subpathKey)
    ensures SubpathPatternFrom(members, subpathKey, i).None? ==>
              forall j :: i <= j < |members| ==> !PatternMatches(members[j].name, subpathKey)
    ensures SubpathPatternFrom(members, subpathKey, i).Some? ==>
              ReplaceFirstStar(SubpathPatternFrom(members, subpathKey, i).value.key,
                               SubpathPatternFrom(members, subpathKey, i).value.wildcard) == subpathKey
  {
    SubpathPatternFromFirst(members, subpathKey, i);
    SubpathPatternFromReinserts(members, subpathKey, i);
  }

  /** The member found is the first whose name matches. */
  lemma {:induction false} SubpathPatternFromFirst(members: seq<Member>, subpathKey: string, i: nat)
    requires i <= |members|
    ensures SubpathPatternFrom(members, subpathKey, i).Some? ==>
              exists j :: i <= j < |members|
                && members[j] == Member(SubpathPatternFrom(members, subpathKey, i).value.key, SubpathPatternFrom(members, subpathKey, i).value.entry)
                && PatternMatches(members[j].name, subpathKey)
                && forall m :: i <= m < j ==> !PatternMatches(members[m].name, subpathKey)
    ensures SubpathPatternFrom(members, subpathKey, i).None? ==>
              forall j :: i <= j < |members| ==> !PatternMatches(members[j].name, subpathKey)
    decreases |members| - i
  {
    if i < |members| {
      if PatternMatches(members[i].name, subpathKey) {
        assert members[i] == Member(members[i].name, members[i].value);
      } else {
        SubpathPatternFromFirst(members, subpathKey, i + 1);
      }
    }
  }

  /** The wildcard found, put back in place of the '*', gives the key. */
  lemma {:induction false} SubpathPatternFromReinserts(members: seq<Member>, subpathKey: string, i: nat)
    requires i <= |members|
    ensures SubpathPatternFrom(members, subpathKey, i).Some? ==>
              ReplaceFirstStar(SubpathPatternFrom(members, subpathKey, i).value.key,
                               SubpathPatternFrom(members, subpathKey, i).value.wildcard) == subpathKey
    decreases |members| - i
  {
    if i < |members| {
      if PatternMatches(members[i].name, subpathKey) {
        MatchReinserts(members[i].name, subpathKey);
      } else {
        SubpathPatternFromReinserts(members, subpathKey, i + 1);
      }
    }
  }

  /** The text a matching key's '*' stands for, put back in its place,
      gives the subpath key. */
  lemma MatchReinserts(key: string, subpathKey: string)
    requires PatternMatches(key, subpathKey)
    ensures var star := IndexOfChar(key, '*', 0);
      ReplaceFirstStar(key, subpathKey[star..|subpathKey| - (|key| - star - 1)]) == subpathKey
  {
    var star := IndexOfChar(key, '*', 0);
    var pre := key[..star];
    var suf := key[star + 1..];
    PrefixMiddleSuffix(pre, suf, subpathKey);
    assert |suf| == |key| - star - 1;
  }

  /** A key with a given prefix and suffix that do not overlap is the
      prefix, the text between, and the suffix. */
  lemma PrefixMiddleSuffix(pre: string, suf: string, k: string)
    requires IsPrefix(pre, k) && IsSuffix(suf, k) && |pre| + |suf| <= |k|
    ensures pre + k[|pre|..|k| - |suf|] + suf == k
  {
    assert k == k[..|pre|] + k[|pre|..|k| - |suf|] + k[|k| - |suf|..];
  }

  /** The wildcard pattern found is the first matching '*' member, and
      putting the wildcard value back in place of its '*' gives the
      requested key; no match means no '*' member matches. */
  lemma SubpathPatternReinserts(members: seq<Member>, subpathKey: string)
    ensures SubpathPattern(members, subpathKey).Some? ==>
              ReplaceFirstStar(SubpathPattern(members, subpathKey).value.key,
                               SubpathPattern(members, subpathKey).value.wildcard) == subpathKey
    ensures SubpathPattern(members, subpathKey).Some? ==>
              exists j :: 0 <= j < |members|
                && members[j] == Member(SubpathPattern(members, subpathKey).value.key, SubpathPattern(members, subpathKey).value.entry)
                && forall m :: 0 <= m < j ==> !PatternMatches(members[m].name, subpathKey)
    ensures SubpathPattern(members, subpathKey).None? ==>
              forall j :: 0 <= j < |members| ==> !PatternMatches(members[j].name, subpathKey)
  {
    SubpathPatternFromSpec(members, subpathKey, 0);
  }

  /** What `TryResolveSubpathPattern` does as written: it does not test the
      overlap, so `Substring` is given a negative length and throws. */
  datatype PatternOutcome = NoPattern | Found(m: PatternMatch) | Throws

  function SubpathPatternAsWrittenFrom(members: seq<Member>, subpathKey: string, i: nat): (r: PatternOutcome)
    requires i <= |members|
    decreases |members| - i
  {
    if i == |members| then NoPattern
    else
      var key := members[i].name;
      var star := IndexOfChar(key, '*', 0);
      if star < 0 || !IsPrefix(key[..star], subpathKey) || !IsSuffix(key[star + 1..], subpathKey) then
        SubpathPatternAsWrittenFrom(members, subpathKey, i + 1)
      else if star + (|key| - star - 1) > |subpathKey| then Throws
      else Found(PatternMatch(key, members[i].value, subpathKey[star..|subpathKey| - (|key| - star - 1)]))
  }

  /** Without overlapping names the code as written and the corrected
      search agree. */
  lemma {:induction false} AsWrittenAgreesWithoutOverlap(members: seq<Member>, subpathKey: string, i: nat)
    requires i <= |members|
    requires SubpathPatternAsWrittenFrom(members, subpathKey, i) != Throws
    ensures SubpathPatternAsWrittenFrom(members, subpathKey, i) ==
              (if SubpathPatternFrom(members, subpathKey, i).Some?
               then Found(SubpathPatternFrom(members, subpathKey, i).value) else NoPattern)
    decreases |members| - i
  {
    if i < |members| && !PatternMatches(members[i].name, subpathKey) {
      AsWrittenAgreesWithoutOverlap(members, subpathKey, i + 1);
    }
  }

  // The names "./a*a" and then "./" followed by '*', requested as "./a":
  // "./a" starts with "./a" and ends with "a", so the code as written throws
  // on the first member and never tries the second, which does match.
  lemma OverlappingPatternThrows(members: seq<Member>, key: string)
    requires members == [Member("./a*a", JString("./x.js")), Member("./*", JString("./lib/*.js"))]
    requires key == "./a"
    ensures SubpathPatternAsWrittenFrom(members, key, 0) == Throws
    ensures SubpathPattern(members, key) == Some(PatternMatch("./*", JString("./lib/*.js"), "a"))
  {
    assert IndexOfChar(members[0].name, '*', 0) == 3;
    assert IndexOfChar(members[1].name, '*', 0) == 2;
    assert !PatternMatches(members[0].name, key);
    assert PatternMatches(members[1].name, key);
    assert key[2..|key| - 0] == "a";
    assert SubpathPatternFrom(members, key, 0) == SubpathPatternFrom(members, key, 1);
  }

  /** `string.Replace("*", w)`: every '*' replaced by `w`. */
  function ReplaceStars(t: string, w: string): (r: string)
    ensures (forall i :: 0 <= i < |t| ==> t[i] != '*') ==> r == t
  {
    if t == [] then [] else (if t[0] == '*' then w else [t[0]]) + ReplaceStars(t[1..], w)
  }

  /** How many alternatives an exports value offers to the array walk. */
  function Width(e: Json): nat
  {
    if e.JArray? then |e.items| else 0
  }

  /** `TryResolveExportsTarget`: the target an exports value gives for the
      subpath key ("." for the package root, "./sub" otherwise). */
  function ExportsTarget(e: Json, subpathKey: string): (r: Option<string>)
    ensures r.Some? ==> !IsBlank(r.value)
    decreases e, Width(e) + 1
  {
    match e
    case JString(s) => if subpathKey == "." && !IsBlank(s) then Some(s) else None
    case JArray(_) => ExportsTargetFrom(e, subpathKey, 0)
    case JObject(members) =>
      if LooksLikeSubpathMap(members) then
        var i := PropertyIndex(members, subpathKey);
        if i >= 0 then Conditional(members[i].value)
        else match SubpathPattern(members, subpathKey)
          case None => None
          case Some(p) => match Conditional(p.entry)
            case None => None
            case Some(t) => if IsBlank(ReplaceStars(t, p.wildcard)) then None else Some(ReplaceStars(t, p.wildcard))
      else if subpathKey == "." then Conditional(e)
      else None
    case JOther => None
  }

  function ExportsTargetFrom(e: Json, subpathKey: string, i: nat): (r: Option<string>)
    requires e.JArray? && i <= |e.items|
    ensures r.Some? ==> !IsBlank(r.value)
    decreases e, |e.items| - i
  {
    if i == |e.items| then None
    else match ExportsTarget(e.items[i], subpathKey)
      case Some(t) => Some(t)
      case None => ExportsTargetFrom(e, subpathKey, i + 1)
  }

  /** A string exports value is the shorthand for "." alone. */
  lemma StringExportsMatchOnlyRoot(s: string, subpathKey: string)
    ensures ExportsTarget(JString(s), subpathKey).Some? <==> subpathKey == "." && !IsBlank(s)
    ensures ExportsTarget(JString(s), subpathKey).Some? ==> ExportsTarget(JString(s), subpathKey).value == s
  {
  }

  /** An exact subpath entry is used as it is, and patterns are then not
      consulted even when the entry does not resolve. */
  lemma ExactSubpathEntryWins(members: seq<Member>, subpathKey: string, j: nat)
    requires LooksLikeSubpathMap(members)
    requires j < |members| && members[j].name == subpathKey
    requires forall m :: j < m < |members| ==> members[m].name != subpathKey
    ensures ExportsTarget(JObject(members), subpathKey) == Conditional(members[j].value)
  {
    assert PropertyIndex(members, subpathKey) == j;
  }

  /** A conditional (non-subpath) object answers only for ".". */
  lemma ConditionalObjectOnlyForRoot(members: seq<Member>, subpathKey: string)
    requires !LooksLikeSubpathMap(members)
    ensures subpathKey != "." ==> ExportsTarget(JObject(members), subpathKey) == None
    ensures subpathKey == "." ==> ExportsTarget(JObject(members), subpathKey) == Conditional(JObject(members))
  {
  }

  lemma {:induction false} ExportsTargetFromFirstSuccess(e: Json, subpathKey: string, i: nat, j: nat)
    requires e.JArray? && i <= j < |e.items|
    requires ExportsTarget(e.items[j], subpathKey).Some?
    requires forall m :: i <= m < j ==> ExportsTarget(e.items[m], subpathKey).None?
    ensures ExportsTargetFrom(e, subpathKey, i) == ExportsTarget(e.items[j], subpathKey)
    decreases j - i
  {
    if i < j {
      ExportsTargetFromFirstSuccess(e, subpathKey, i + 1, j);
    }
  }

  /** Exports arrays: entries are tried in order and the first success wins. */
  lemma ExportsArrayFirstSuccess(items: seq<Json>, subpathKey: string, j: nat)
    requires j < |items| && ExportsTarget(items[j], subpathKey).Some?
    requires forall m :: 0 <= m < j ==> ExportsTarget(items[m], subpathKey).None?
    ensures ExportsTarget(JArray(items), subpathKey) == ExportsTarget(items[j], subpathKey)
  {
    ExportsTargetFromFirstSuccess(JArray(items), subpathKey, 0, j);
  }

  /** The key `TryResolvePackageExports` looks up: "./" and the subpath
      without its leading slashes. */
  function ExportsKey(packageSubpath: string): (r: string)
    ensures IsPrefix("./", r) && |r| <= |packageSubpath| + 2
    ensures |r| > 2 ==> r[2] != '/'
    decreases |packageSubpath|
  {
    if |packageSubpath| > 0 && packageSubpath[0] == '/' then ExportsKey(packageSubpath[1..])
    else "./" + packageSubpath
  }

  /** What `TryResolveExportsTargetPath` decides before probing the file
      system: no target, a rejected target, or the path below the package
      root that is then probed. */
  datatype TargetPath = NoTarget | Rejected(error: string) | PackageRelative(rel: string)

  function ExportsTargetPath(targetRel: string): (r: TargetPath)
    ensures r.NoTarget? <==> IsBlank(targetRel)
    ensures r.Rejected? <==> !IsBlank(targetRel) && !IsPrefix("./", Trim(targetRel))
    ensures r.PackageRelative? ==> "./" + r.rel == Trim(targetRel)
  {
    if IsBlank(targetRel) then NoTarget
    else
      var trimmed := Trim(targetRel);
      if !IsPrefix("./", trimmed) then
        Rejected("Unsupported package.json exports target '" + targetRel + "' (expected relative path starting with './').")
      else
        assert "./" + trimmed[2..] == trimmed;
        PackageRelative(trimmed[2..])
  }
}
