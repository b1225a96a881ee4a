/** The string and path helpers of the module loader: escaping a module id
    into a JavaScript string literal, the alias list of a loaded module,
    bare-alias normalisation, the package identity of a file below
    `node_modules`, the canonical id of a package module, and CLR
    identifier sanitising.

    Paths are taken as already made absolute (`Path.GetFullPath` is left to
    the caller) and both '/' and '\' separate directories. */
module ModuleLoading {
  import opened JsValues
  import opened Text

  // ---------------------------------------------------------------------
  // EscapeJsString (ModuleLoader.cs:753-760)
  // ---------------------------------------------------------------------

  /** `Replace(c, rep)` with a one-character pattern: every `c` becomes `rep`. */
  function ReplaceWith(s: string, c: char, rep: string): (r: string)
    ensures (forall i :: 0 <= i < |s| ==> s[i] != c) ==> r == s
  {
    if s == [] then [] else (if s[0] == c then rep else [s[0]]) + ReplaceWith(s[1..], c, rep)
  }

  lemma {:induction false} ReplaceWithAppend(a: string, b: string, c: char, rep: string)
    ensures ReplaceWith(a + b, c, rep) == ReplaceWith(a, c, rep) + ReplaceWith(b, c, rep)
  {
    if a != [] {
      assert (a + b)[1..] == a[1..] + b;
      ReplaceWithAppend(a[1..], b, c, rep);
    } else {
      assert a + b == b;
    }
  }

  /** `EscapeJsString`: back slashes first, then double quotes, carriage
      returns and line feeds, each by its own `Replace`. */
  function EscapeJsString(value: string): (r: string)
  {
    ReplaceWith(ReplaceWith(ReplaceWith(ReplaceWith(value, '\\', "\\\\"), '"', "\\\""), '\r', "\\r"), '\n', "\\n")
  }

  /** The escape of one character, as a string literal needs it. */
  function EscapeChar(c: char): (r: string)
    ensures 1 <= |r| <= 2 && (|r| == 2 <==> r[0] == '\\')
  {
    if c == '\\' then "\\\\"
    else if c == '"' then "\\\""
    else if c == '\r' then "\\r"
    else if c == '\n' then "\\n"
    else [c]
  }

  /** The reference definition: every character escaped on its own. */
  function EscapeEach(s: string): (r: string)
    ensures forall i :: 0 <= i < |r| ==> r[i] != '\r' && r[i] != '\n'
  {
    if s == [] then [] else EscapeChar(s[0]) + EscapeEach(s[1..])
  }

  lemma EscapeJsStringAppend(a: string, b: string)
    ensures EscapeJsString(a + b) == EscapeJsString(a) + EscapeJsString(b)
  {
    var s1a, s1b := ReplaceWith(a, '\\', "\\\\"), ReplaceWith(b, '\\', "\\\\");
    ReplaceWithAppend(a, b, '\\', "\\\\");
    var s2a, s2b := ReplaceWith(s1a, '"', "\\\""), ReplaceWith(s1b, '"', "\\\"");
    ReplaceWithAppend(s1a, s1b, '"', "\\\"");
    var s3a, s3b := ReplaceWith(s2a, '\r', "\\r"), ReplaceWith(s2b, '\r', "\\r");
    ReplaceWithAppend(s2a, s2b, '\r', "\\r");
    ReplaceWithAppend(s3a, s3b, '\n', "\\n");
  }

  lemma ReplaceWithOne(c: char, d: char, rep: string)
    ensures ReplaceWith([c], d, rep) == if c == d then rep else [c]
  {
    assert [c][1..] == [];
  }

  lemma ReplaceWithPair(a: char, b: char, d: char, rep: string)
    requires a != d && b != d
    ensures ReplaceWith([a, b], d, rep) == [a, b]
  {
  }

  lemma EscapeJsStringChar(c: char)
    ensures EscapeJsString([c]) == EscapeChar(c)
  {
    ReplaceWithOne(c, '\\', "\\\\");
    if c == '\\' {
      ReplaceWithPair('\\', '\\', '"', "\\\"");
      ReplaceWithPair('\\', '\\', '\r', "\\r");
      ReplaceWithPair('\\', '\\', '\n', "\\n");
    } else {
      ReplaceWithOne(c, '"', "\\\"");
      if c == '"' {
        ReplaceWithPair('\\', '"', '\r', "\\r");
        ReplaceWithPair('\\', '"', '\n', "\\n");
      } else {
        ReplaceWithOne(c, '\r', "\\r");
        if c == '\r' {
          ReplaceWithPair('\\', 'r', '\n', "\\n");
        } else {
          ReplaceWithOne(c, '\n', "\\n");
        }
      }
    }
  }

  /** Because back slashes are replaced first, the chain of replacements
      escapes every character on its own: no escape is escaped again. */
  lemma {:induction false} EscapeJsStringIsPerCharacter(s: string)
    ensures EscapeJsString(s) == EscapeEach(s)
  {
    if s == [] {
    } else {
      assert s == [s[0]] + s[1..];
      EscapeJsStringAppend([s[0]], s[1..]);
      EscapeJsStringChar(s[0]);
      EscapeJsStringIsPerCharacter(s[1..]);
    }
  }

  /** What a JavaScript parser reads back from the literal's body. */
  function Unescape(t: string): string
  {
    if t == [] then []
    else if t[0] == '\\' && |t| >= 2 then
      [if t[1] == 'r' then '\r' else if t[1] == 'n' then '\n' else t[1]] + Unescape(t[2..])
    else [t[0]] + Unescape(t[1..])
  }

  lemma {:induction false} UnescapeEscapeEach(s: string)
    ensures Unescape(EscapeEach(s)) == s
  {
    if s != [] {
      var e := EscapeChar(s[0]);
      var t := EscapeEach(s);
      assert t == e + EscapeEach(s[1..]);
      if |e| == 2 {
        assert t[2..] == EscapeEach(s[1..]);
      } else {
        assert t[1..] == EscapeEach(s[1..]);
      }
      UnescapeEscapeEach(s[1..]);
      assert s == [s[0]] + s[1..];
    }
  }

  /** The escaped text reads back as the input, and it holds no raw line
      break, so it can stand inside a one-line double-quoted literal. */
  lemma EscapeJsStringRoundTrip(s: string)
    ensures Unescape(EscapeJsString(s)) == s
    ensures forall i :: 0 <= i < |EscapeJsString(s)| ==> EscapeJsString(s)[i] != '\r' && EscapeJsString(s)[i] != '\n'
  {
    EscapeJsStringIsPerCharacter(s);
    UnescapeEscapeEach(s);
  }

  // ---------------------------------------------------------------------
  // AddAliasIfMissing (ModuleLoader.cs:775-793)
  // ---------------------------------------------------------------------

  /** The alias as it is stored: back slashes turned into slashes, trimmed. */
  function NormalizeAlias(alias: string): (r: string)
    ensures forall i :: 0 <= i < |r| ==> r[i] != '\\'
  {
    Trim(ReplaceChar(alias, '\\', '/'))
  }

  predicate ContainsIgnoreCase(list: seq<string>, s: string)
  {
    exists i :: 0 <= i < |list| && EqualsIgnoreCase(list[i], s)
  }

  /** The alias list after `AddAliasIfMissing(alias)`. */
  function WithAlias(aliases: seq<string>, moduleId: string, alias: string): (r: seq<string>)
  {
    var normalized := NormalizeAlias(alias);
    if IsBlank(normalized) || EqualsIgnoreCase(normalized, moduleId) || ContainsIgnoreCase(aliases, normalized) then aliases
    else aliases + [normalized]
  }

  /** The alias list keeps: no blank entry, none equal to the canonical
      id, no two equal ignoring case, no back slash. */
  predicate AliasesWellFormed(aliases: seq<string>, moduleId: string)
  {
    && (forall i :: 0 <= i < |aliases| ==> !IsBlank(aliases[i]) && !EqualsIgnoreCase(aliases[i], moduleId))
    && (forall i :: 0 <= i < |aliases| ==> forall k :: 0 <= k < |aliases[i]| ==> aliases[i][k] != '\\')
    && (forall i, j :: 0 <= i < j < |aliases| ==> !EqualsIgnoreCase(aliases[i], aliases[j]))
  }

  /** Adding an alias keeps the list well formed, and the new entry is the
      normalised alias. */
  lemma WithAliasKeepsWellFormed(aliases: seq<string>, moduleId: string, alias: string)
    requires AliasesWellFormed(aliases, moduleId)
    ensures AliasesWellFormed(WithAlias(aliases, moduleId, alias), moduleId)
    ensures WithAlias(aliases, moduleId, alias) == aliases
            || WithAlias(aliases, moduleId, alias) == aliases + [NormalizeAlias(alias)]
  {
    var n := NormalizeAlias(alias);
    var r := WithAlias(aliases, moduleId, alias);
    if r != aliases {
      forall i, j | 0 <= i < j < |r| ensures !EqualsIgnoreCase(r[i], r[j]) {
        if j == |aliases| {
          assert r[j] == n;
          assert !EqualsIgnoreCase(aliases[i], n);
        }
      }
    }
  }

  /** The alias is then present, ignoring case, unless it is blank or
      the canonical id. */
  lemma WithAliasContains(aliases: seq<string>, moduleId: string, alias: string)
    requires !IsBlank(NormalizeAlias(alias)) && !EqualsIgnoreCase(NormalizeAlias(alias), moduleId)
    ensures ContainsIgnoreCase(WithAlias(aliases, moduleId, alias), NormalizeAlias(alias))
  {
    var r := WithAlias(aliases, moduleId, alias);
    if !ContainsIgnoreCase(aliases, NormalizeAlias(alias)) {
      assert r[|aliases|] == NormalizeAlias(alias);
    }
  }

  /** Adding the same alias twice is the same as adding it once. */
  lemma WithAliasIdempotent(aliases: seq<string>, moduleId: string, alias: string)
    ensures WithAlias(WithAlias(aliases, moduleId, alias), moduleId, alias) == WithAlias(aliases, moduleId, alias)
  {
    var n := NormalizeAlias(alias);
    if !IsBlank(n) && !EqualsIgnoreCase(n, moduleId) {
      WithAliasContains(aliases, moduleId, alias);
    }
  }

  /** The loaded module's identity and its alias list, which the loader
      extends as it meets further specifiers for the same file. */
  class ModuleDefinition {
    const moduleId: string
    var aliasModuleIds: seq<string>

    constructor (moduleId: string)
      ensures this.moduleId == moduleId && aliasModuleIds == []
      ensures AliasesWellFormed(aliasModuleIds, moduleId)
    {
      this.moduleId := moduleId;
      aliasModuleIds := [];
    }

    /** `AddAliasIfMissing`: the normalised alias is appended unless it is
        blank, is the canonical id, or is already listed (ignoring case). */
    method AddAliasIfMissing(alias: string)
      modifies this
      ensures aliasModuleIds == WithAlias(old(aliasModuleIds), moduleId, alias)
      ensures AliasesWellFormed(old(aliasModuleIds), moduleId) ==> AliasesWellFormed(aliasModuleIds, moduleId)
    {
      var normalized := Trim(ReplaceChar(alias, '\\', '/'));
      if IsBlank(normalized) {
        return;
      }
      if EqualsIgnoreCase(normalized, moduleId) {
        return;
      }
      if !ContainsIgnoreCase(aliasModuleIds, normalized) {
        aliasModuleIds := aliasModuleIds + [normalized];
      }
      if AliasesWellFormed(old(aliasModuleIds), moduleId) {
        WithAliasKeepsWellFormed(old(aliasModuleIds), moduleId, alias);
      }
    }
  }

  // ---------------------------------------------------------------------
  // TryNormalizeBareAlias, TrimKnownModuleExtension (ModuleLoader.cs:795-828)
  // ---------------------------------------------------------------------

  /** The length of the known module extension the value ends with
      (".js", ".mjs" or ".cjs" in any letter case), or 0. */
  function KnownExtensionLength(value: string): (n: nat)
    ensures n == 0 || n == 3 || n == 4
    ensures n <= |value|
  {
    if EndsWithIgnoreCase(value, ".js") then 3
    else if EndsWithIgnoreCase(value, ".mjs") || EndsWithIgnoreCase(value, ".cjs") then 4
    else 0
  }

  /** `TrimKnownModuleExtension`: `Path.ChangeExtension(value, null)` drops
      the text from the last '.', which for these endings is the extension. */
  function TrimKnownModuleExtension(value: string): (r: string)
    ensures IsPrefix(r, value)
    ensures |r| == |value| - KnownExtensionLength(value)
  {
    value[..|value| - KnownExtensionLength(value)]
  }

  /** `TryNormalizeBareAlias`: no alias for a blank, relative, absolute or
      "node:" specifier; otherwise the trimmed specifier with slashes and
      without a known module extension. */
  function TryNormalizeBareAlias(specifier: string): (r: Option<string>)
    ensures r.Some? ==> forall i :: 0 <= i < |r.value| ==> r.value[i] != '\\'
  {
    if IsBlank(specifier) then None
    else
      var s := ReplaceChar(Trim(specifier), '\\', '/');
      if IsPrefix("./", s) || IsPrefix("../", s) || IsPrefix("/", s) then None
      else if StartsWithIgnoreCase(s, "node:") then None
      else Some(TrimKnownModuleExtension(s))
  }

  /** A package specifier such as "lodash/fp.js" becomes "lodash/fp", and
      one without a module extension is kept as it is. */
  lemma BareAliasStripsExtension(name: string, ext: string)
    requires ext in [".js", ".mjs", ".cjs"]
    requires name != [] && IsAsciiLetter(name[0]) && name[0] != 'n' && name[0] != 'N'
    requires forall i :: 0 <= i < |name| ==> name[i] != '\\' && !IsWhiteSpace(name[i])
    ensures TryNormalizeBareAlias(name + ext) == Some(name)
  {
    var s := name + ext;
    assert s[0] == name[0] && s[|s| - 1] == 's';
    assert forall i :: |name| <= i < |s| ==> s[i] == ext[i - |name|];
    BareAliasOf(s);
    KnownExtensionOf(name, ext);
    assert s[..|s| - |ext|] == name;
  }

  /** A trimmed specifier without backslashes that starts with a letter
      other than 'n' is a bare alias, less its module extension. */
  lemma BareAliasOf(s: string)
    requires s != [] && !IsWhiteSpace(s[0]) && !IsWhiteSpace(s[|s| - 1])
    requires forall i :: 0 <= i < |s| ==> s[i] != '\\'
    requires IsAsciiLetter(s[0]) && s[0] != 'n' && s[0] != 'N'
    ensures TryNormalizeBareAlias(s) == Some(TrimKnownModuleExtension(s))
  {
    assert !IsBlank(s);
    TrimKeepsTrimmed(s);
    assert ReplaceChar(s, '\\', '/') == s;
    NotNodePrefixed(s);
    NotPathLike(s);
  }

  lemma NotPathLike(s: string)
    requires s != [] && IsAsciiLetter(s[0])
    ensures !IsPrefix("./", s) && !IsPrefix("../", s) && !IsPrefix("/", s)
  {
    if |s| >= 2 { assert s[..2][0] == s[0]; }
    if |s| >= 3 { assert s[..3][0] == s[0]; }
    assert s[..1][0] == s[0];
  }

  lemma NotNodePrefixed(s: string)
    requires s != [] && IsAsciiLetter(s[0]) && s[0] != 'n' && s[0] != 'N'
    ensures !StartsWithIgnoreCase(s, "node:")
  {
    if |s| >= 5 {
      assert Lower(s[..5])[0] == LowerChar(s[0]);
      assert Lower("node:")[0] == 'n';
    }
  }

  lemma KnownExtensionOf(name: string, ext: string)
    requires ext in [".js", ".mjs", ".cjs"]
    ensures KnownExtensionLength(name + ext) == |ext|
  {
    var s := name + ext;
    assert s[|s| - |ext|..] == ext;
    if ext == ".js" {
      assert Lower(ext) == ".js";
    } else {
      assert s[|s| - 3..] == ext[1..];
      assert Lower(s[|s| - 3..])[0] == LowerChar(ext[1]) != '.';
      assert Lower(".js")[0] == '.';
      assert Lower(ext) == ext;
    }
  }

  /** Relative, absolute and "node:" specifiers give no alias. */
  lemma BareAliasRejectsPaths(specifier: string)
    requires !IsBlank(specifier)
    requires var s := ReplaceChar(Trim(specifier), '\\', '/');
             IsPrefix("./", s) || IsPrefix("../", s) || IsPrefix("/", s) || StartsWithIgnoreCase(s, "node:")
    ensures TryNormalizeBareAlias(specifier) == None
  {
  }

  // ---------------------------------------------------------------------
  // TryGetPackageIdentity, ComputeCanonicalModuleId (ModuleLoader.cs:830-896)
  // ---------------------------------------------------------------------

  /** The non-blank path segments, split at '/' and '\'. */
  function Segments(path: string): (r: seq<string>)
    ensures forall i :: 0 <= i < |r| ==> !IsBlank(r[i])
  {
    NonBlank(SplitOn(ReplaceChar(path, '\\', '/'), '/'))
  }

  function NonBlank(parts: seq<string>): (r: seq<string>)
    ensures forall i :: 0 <= i < |r| ==> !IsBlank(r[i])
    ensures |r| <= |parts|
  {
    if parts == [] then []
    else if IsBlank(parts[0]) then NonBlank(parts[1..])
    else [parts[0]] + NonBlank(parts[1..])
  }

  /** The segment is "node_modules" in any letter case. */
  predicate IsNodeModules(segment: string)
  {
    Lower(segment) == "node_modules"
  }

  /** `Array.FindLastIndex` for a "node_modules" segment, or -1. */
  function LastNodeModules(segments: seq<string>): (r: int)
    ensures -1 <= r < |segments|
    ensures r >= 0 ==> IsNodeModules(segments[r])
    ensures forall i :: r < i < |segments| ==> !IsNodeModules(segments[i])
  {
    if segments == [] then -1
    else if IsNodeModules(segments[|segments| - 1]) then |segments| - 1
    else LastNodeModules(segments[..|segments| - 1])
  }

  /** The file name with its extension dropped: ".js" in any letter case,
      otherwise what `Path.ChangeExtension(last, null)` removes (the text
      from the last '.'). */
  function WithoutExtension(last: string): (r: string)
    ensures IsPrefix(r, last)
    ensures EndsWithIgnoreCase(last, ".js") ==> |r| == |last| - 3
    ensures !EndsWithIgnoreCase(last, ".js") && '.' in last ==>
      |r| < |last| && last[|r|] == '.' && forall i :: |r| < i < |last| ==> last[i] != '.'
    ensures !EndsWithIgnoreCase(last, ".js") && '.' !in last ==> r == last
  {
    if EndsWithIgnoreCase(last, ".js") then last[..|last| - 3]
    else
      var dot := LastIndexOfChar(last, '.');
      if dot < 0 then last else last[..dot]
  }

  datatype PackageIdentity = PackageIdentity(packageName: string, withinPackage: string)

  /** `TryGetPackageIdentity` over the segments of a full path. */
  function PackageIdentityOfSegments(segments: seq<string>): (r: Option<PackageIdentity>)
  {
    var k := LastNodeModules(segments);
    if k < 0 || k + 1 >= |segments| then None
    else
      var scoped := IsPrefix("@", segments[k + 1]) && k + 2 < |segments|;
      var name := if scoped then segments[k + 1] + "/" + segments[k + 2] else segments[k + 1];
      var start := if scoped then k + 3 else k + 2;
      var within := segments[start..];
      if within == [] then Some(PackageIdentity(name, ""))
      else Some(PackageIdentity(name, JoinWith(within[..|within| - 1] + [WithoutExtension(within[|within| - 1])], '/')))
  }

  function TryGetPackageIdentity(modulePath: string): Option<PackageIdentity>
  {
    PackageIdentityOfSegments(Segments(modulePath))
  }

  /** There is an identity exactly when some segment before the last is
      "node_modules" and the last one is not. */
  lemma PackageIdentityExists(segments: seq<string>)
    ensures PackageIdentityOfSegments(segments).Some? <==>
              && |segments| >= 2 && !IsNodeModules(segments[|segments| - 1])
              && exists i :: 0 <= i < |segments| - 1 && IsNodeModules(segments[i])
  {
    var k := LastNodeModules(segments);
    if exists i :: 0 <= i < |segments| - 1 && IsNodeModules(segments[i]) {
      var i :| 0 <= i < |segments| - 1 && IsNodeModules(segments[i]);
      assert k >= i;
    }
  }

  /** The package is named after the segment following the LAST
      "node_modules"; a scope "@s" takes the next segment too, and what
      remains is the path inside the package. */
  lemma PackageIdentityAfterLastNodeModules(prefix: seq<string>, nm: string, pkg: seq<string>, within: seq<string>)
    requires IsNodeModules(nm)
    requires |pkg| == 1 || (|pkg| == 2 && IsPrefix("@", pkg[0]))
    requires |pkg| == 1 ==> !(IsPrefix("@", pkg[0]) && within != [])
    requires forall i :: 0 <= i < |pkg| ==> !IsNodeModules(pkg[i])
    requires forall i :: 0 <= i < |within| ==> !IsNodeModules(within[i])
    ensures PackageIdentityOfSegments(prefix + [nm] + pkg + within).Some?
    ensures PackageIdentityOfSegments(prefix + [nm] + pkg + within).value.packageName ==
              if |pkg| == 2 then pkg[0] + "/" + pkg[1] else pkg[0]
    ensures within == [] ==> PackageIdentityOfSegments(prefix + [nm] + pkg + within).value.withinPackage == ""
    ensures within != [] ==>
              PackageIdentityOfSegments(prefix + [nm] + pkg + within).value.withinPackage ==
              JoinWith(within[..|within| - 1] + [WithoutExtension(within[|within| - 1])], '/')
  {
    var segments := prefix + [nm] + pkg + within;
    var k := |prefix|;
    var tail := pkg + within;
    assert segments == prefix + [nm] + tail;
    assert forall i :: 0 <= i < |tail| ==> !IsNodeModules(tail[i]) by {
      forall i | 0 <= i < |tail| ensures !IsNodeModules(tail[i]) {
        if i < |pkg| { assert tail[i] == pkg[i]; } else { assert tail[i] == within[i - |pkg|]; }
      }
    }
    LastNodeModulesAt(prefix, nm, tail);
    assert segments[k + 1] == pkg[0];
    if |pkg| == 2 { assert segments[k + 2] == pkg[1]; }
    assert segments[k + 1 + |pkg|..] == within;
  }

  /** The last "node_modules" is found where it is. */
  lemma {:induction false} LastNodeModulesAt(prefix: seq<string>, nm: string, tail: seq<string>)
    requires IsNodeModules(nm)
    requires forall i :: 0 <= i < |tail| ==> !IsNodeModules(tail[i])
    ensures LastNodeModules(prefix + [nm] + tail) == |prefix|
  {
    var segments := prefix + [nm] + tail;
    if tail == [] {
      assert segments[|segments| - 1] == nm;
    } else {
      var shorter := tail[..|tail| - 1];
      assert segments[|segments| - 1] == tail[|tail| - 1];
      assert segments[..|segments| - 1] == prefix + [nm] + shorter;
      LastNodeModulesAt(prefix, nm, shorter);
    }
  }

  /** `ComputeCanonicalModuleId` for a package module: the package name,
      followed by "/" and the in-package path when there is one.  (Modules
      outside `node_modules` use the manifest id of `ModuleName`, which is
      not part of this model.) */
  function CanonicalPackageModuleId(identity: PackageIdentity): (r: string)
    ensures IsPrefix(identity.packageName, r)
    ensures identity.withinPackage == "" <==> r == identity.packageName
  {
    if identity.withinPackage == "" then identity.packageName
    else identity.packageName + "/" + identity.withinPackage
  }

  // ---------------------------------------------------------------------
  // SanitizeClrIdentifier (ModuleLoader.cs:898-931)
  // ---------------------------------------------------------------------

  predicate IsClrIdentifierChar(c: char)
  {
    IsAsciiLetterOrDigit(c) || c == '_'
  }

  /** The reference definition of the sanitised identifier: "_" for blank
      input; otherwise each character of the trimmed value kept when it is
      a letter, digit or '_' and replaced by '_' otherwise, with '_' put in
      front of a leading digit. */
  function SanitizedClrIdentifier(value: string): string
  {
    if IsBlank(value) then "_"
    else
      var mapped := MapToIdentifierChars(Trim(value));
      if IsAsciiDigit(mapped[0]) then "_" + mapped else mapped
  }

  function MapToIdentifierChars(s: string): (r: string)
    ensures |r| == |s|
    ensures forall i :: 0 <= i < |s| ==> r[i] == if IsClrIdentifierChar(s[i]) then s[i] else '_'
  {
    if s == [] then [] else [if IsClrIdentifierChar(s[0]) then s[0] else '_'] + MapToIdentifierChars(s[1..])
  }

  /** `SanitizeClrIdentifier`: the string-builder loop over the trimmed
      value with slashes. */
  method SanitizeClrIdentifier(value: string) returns (r: string)
    ensures r == SanitizedClrIdentifier(value)
  {
    if IsBlank(value) {
      return "_";
    }
    ghost var trimmed := Trim(value);
    var s := ReplaceChar(Trim(value), '\\', '/');
    var sb: string := [];
    for k := 0 to |s|
      invariant |sb| == k
      invariant forall j :: 0 <= j < k ==> sb[j] == if IsClrIdentifierChar(trimmed[j]) then trimmed[j] else '_'
    {
      if IsClrIdentifierChar(s[k]) {
        sb := sb + [s[k]];
      } else {
        sb := sb + ['_'];
      }
    }
    assert sb == MapToIdentifierChars(trimmed);
    // `sb` is never empty here: the trimmed text of a non-blank value is not.
    if IsAsciiDigit(sb[0]) {
      sb := "_" + sb;
    }
    r := sb;
  }

  /** The identifier uses only letters, digits and '_', is never empty and
      never starts with a digit; every character of the trimmed value
      keeps its place, as itself or as '_'. */
  lemma SanitizedIsIdentifier(value: string)
    ensures var r := SanitizedClrIdentifier(value);
            |r| >= 1 && !IsAsciiDigit(r[0]) && forall i :: 0 <= i < |r| ==> IsClrIdentifierChar(r[i])
    ensures IsBlank(value) ==> SanitizedClrIdentifier(value) == "_"
    ensures !IsBlank(value) ==> IsSuffix(MapToIdentifierChars(Trim(value)), SanitizedClrIdentifier(value))
  {
  }

  /** A valid identifier is left as it is, so sanitising is idempotent. */
  lemma SanitizeIdempotent(value: string)
    ensures SanitizedClrIdentifier(SanitizedClrIdentifier(value)) == SanitizedClrIdentifier(value)
  {
    SanitizedIsIdentifier(value);
    IdentifierIsFixed(SanitizedClrIdentifier(value));
  }

  lemma IdentifierIsFixed(r: string)
    requires |r| >= 1 && !IsAsciiDigit(r[0])
    requires forall i :: 0 <= i < |r| ==> IsClrIdentifierChar(r[i])
    ensures SanitizedClrIdentifier(r) == r
  {
    assert !IsWhiteSpace(r[0]) && !IsWhiteSpace(r[|r| - 1]);
    TrimKeepsTrimmed(r);
    assert MapToIdentifierChars(r) == r;
  }
}
