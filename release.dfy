/** The pure parts of the release script: command-line parsing, the npm
    argument fallback, reading the project version, the semantic-version
    bump and cutting a version's section out of the change log. */
module Release {
  import opened JsValues
  import opened Text
  import opened ScriptText

  // ---------------------------------------------------------------------
  // Release kinds and arguments
  // ---------------------------------------------------------------------

  /** `/^(patch|minor|major)$/.test(s)`. */
  predicate IsKind(s: string)
  {
    s == "patch" || s == "minor" || s == "major"
  }

  /** The parsed options.  An unset kind is "": like `undefined` it is falsy,
      so a later positional argument replaces it. */
  datatype ReleaseArgs = ReleaseArgs(
    kind: string,
    merge: bool,
    skipEmpty: bool,
    dryRun: bool,
    repo: Option<string>,
    base: Option<string>,
    verbose: bool)

  const Defaults := ReleaseArgs("", false, false, false, None, Some("master"), false)

  /** The script either goes on with the options or exits with a code. */
  datatype ParseResult = Parsed(args: ReleaseArgs) | Exit(code: int)

  /** The flags the loop recognises. */
  predicate IsKnownFlag(a: string)
  {
    a == "--merge" || a == "--skip-empty" || a == "--dry-run" || a == "--verbose"
    || a == "--repo" || a == "--base" || a == "--help" || a == "-h"
  }

  /** `argv[i]`, undefined past the end. */
  function At(argv: seq<string>, i: nat): (r: Option<string>)
    ensures r.Some? <==> i < |argv|
  {
    if i < |argv| then Some(argv[i]) else None
  }

  /** The checks after the loop: a valid kind and a non-empty base. */
  function Finish(acc: ReleaseArgs): (r: ParseResult)
    ensures r.Parsed? ==> r.args == acc
    ensures r.Parsed? <==> IsKind(acc.kind) && acc.base.Some? && acc.base.value != ""
  {
    if !IsKind(acc.kind) then Exit(1)
    else if acc.base.None? || acc.base.value == "" then Exit(1)
    else Parsed(acc)
  }

  /** The arguments from index `i` on, folded into `acc`. */
  function ParseFrom(argv: seq<string>, i: nat, acc: ReleaseArgs): (r: ParseResult)
    ensures r.Parsed? ==> IsKind(r.args.kind) && r.args.base.Some? && r.args.base.value != ""
    ensures r.Exit? ==> r.code == 0 || r.code == 1
    decreases |argv| - i
  {
    if i >= |argv| then Finish(acc)
    else
      var a := argv[i];
      if acc.kind == "" && !IsPrefix("--", a) then ParseFrom(argv, i + 1, acc.(kind := a))
      else if a == "--merge" then ParseFrom(argv, i + 1, acc.(merge := true))
      else if a == "--skip-empty" then ParseFrom(argv, i + 1, acc.(skipEmpty := true))
      else if a == "--dry-run" then ParseFrom(argv, i + 1, acc.(dryRun := true))
      else if a == "--verbose" then ParseFrom(argv, i + 1, acc.(verbose := true))
      else if a == "--repo" then ParseFrom(argv, i + 2, acc.(repo := At(argv, i + 1)))
      else if a == "--base" then ParseFrom(argv, i + 2, acc.(base := At(argv, i + 1)))
      else if a == "--help" || a == "-h" then Exit(0)
      else Exit(1)
  }

  /** `parseArgs(argv)`: the loop over `argv` from index 2 (after the node
      executable and the script path).  `usageAndExit` ends the process, so
      it returns at once. */
  method ParseArgs(argv: seq<string>) returns (r: ParseResult)
    ensures r == ParseFrom(argv, 2, Defaults)
  {
    var acc := Defaults;
    var i := 2;
    while i < |argv|
      invariant ParseFrom(argv, i, acc) == ParseFrom(argv, 2, Defaults)
      decreases |argv| - i
    {
      var a := argv[i];
      if acc.kind == "" && !IsPrefix("--", a) {
        acc := acc.(kind := a);
        i := i + 1;
        continue;
      }
      if a == "--merge" {
        acc := acc.(merge := true);
      } else if a == "--skip-empty" {
        acc := acc.(skipEmpty := true);
      } else if a == "--dry-run" {
        acc := acc.(dryRun := true);
      } else if a == "--verbose" {
        acc := acc.(verbose := true);
      } else if a == "--repo" {
        i := i + 1;
        acc := acc.(repo := At(argv, i));
      } else if a == "--base" {
        i := i + 1;
        acc := acc.(base := At(argv, i));
      } else if a == "--help" || a == "-h" {
        return Exit(0);
      } else {
        return Exit(1);
      }
      i := i + 1;
    }
    r := Finish(acc);
  }

  /** A flag the loop does not know, met once the kind is set or spelled
      with "--", ends the script with exit code 1. */
  lemma UnknownFlagRejected(argv: seq<string>, i: nat, acc: ReleaseArgs)
    requires i < |argv| && !IsKnownFlag(argv[i])
    requires acc.kind != "" || IsPrefix("--", argv[i])
    ensures ParseFrom(argv, i, acc) == Exit(1)
  {
  }

  /** A successful parse carries the first positional argument as its kind,
      when that argument comes first and the rest are switches. */
  lemma {:induction false} SwitchesAfterKind(argv: seq<string>, k: string)
    requires |argv| >= 3 && argv[2] == k && IsKind(k)
    requires forall j :: 3 <= j < |argv| ==> argv[j] == "--merge" || argv[j] == "--dry-run"
    ensures ParseFrom(argv, 2, Defaults).Parsed?
    ensures ParseFrom(argv, 2, Defaults).args.kind == k
    ensures ParseFrom(argv, 2, Defaults).args.merge <==> "--merge" in argv[3..]
    ensures ParseFrom(argv, 2, Defaults).args.dryRun <==> "--dry-run" in argv[3..]
  {
    NotDashDash(k);
    SwitchesFrom(argv, 3, Defaults.(kind := k));
  }

  lemma {:induction false} SwitchesFrom(argv: seq<string>, i: nat, acc: ReleaseArgs)
    requires 3 <= i <= |argv| && IsKind(acc.kind) && acc.base == Some("master")
    requires forall j :: i <= j < |argv| ==> argv[j] == "--merge" || argv[j] == "--dry-run"
    ensures ParseFrom(argv, i, acc).Parsed?
    ensures ParseFrom(argv, i, acc).args.kind == acc.kind
    ensures ParseFrom(argv, i, acc).args.merge <==> acc.merge || "--merge" in argv[i..]
    ensures ParseFrom(argv, i, acc).args.dryRun <==> acc.dryRun || "--dry-run" in argv[i..]
    decreases |argv| - i
  {
    if i < |argv| {
      assert argv[i..] == [argv[i]] + argv[i + 1..];
      assert acc.kind != "";
      if argv[i] == "--merge" {
        SwitchesFrom(argv, i + 1, acc.(merge := true));
      } else {
        SwitchesFrom(argv, i + 1, acc.(dryRun := true));
      }
    }
  }

  /** "-h" is a help switch only after the kind: as the first argument it is
      taken for the kind and then rejected, so the script exits with 1. */
  lemma ShortHelpBeforeKind(node: string, script: string)
    ensures ParseFrom([node, script, "-h"], 2, Defaults) == Exit(1)
    ensures ParseFrom([node, script, "patch", "-h"], 2, Defaults) == Exit(0)
  {
    NotDashDash("-h");
    NotDashDash("patch");
  }

  /** A string of at least one character that does not start with "--". */
  lemma NotDashDash(s: string)
    requires |s| > 0 && (s[0] != '-' || |s| < 2 || s[1] != '-')
    ensures !IsPrefix("--", s)
  {
    if |s| >= 2 {
      assert s[..2][0] == s[0] && s[..2][1] == s[1];
    }
  }

  /** `getEffectiveArgv`: the `remain` array of `npm_config_argv`, when that
      variable is set, parses as JSON and holds an array, replaces the
      arguments after the script path if it names a release kind. */
  function EffectiveArgv(processArgv: seq<string>, remain: Option<seq<string>>): (r: seq<string>)
    requires |processArgv| >= 2
    ensures |r| >= 2 && r[..2] == processArgv[..2]
    ensures r != processArgv ==> remain.Some? && r[2..] == remain.value
    ensures (remain.Some? && exists x :: x in remain.value && IsKind(x)) ==> r[2..] == remain.value
    ensures (remain.None? || forall x :: x in remain.value ==> !IsKind(x)) ==> r == processArgv
  {
    if remain.None? || |remain.value| == 0 then processArgv
    else if !(exists x :: x in remain.value && IsKind(x)) then processArgv
    else [processArgv[0], processArgv[1]] + remain.value
  }

  // ---------------------------------------------------------------------
  // The project version
  // ---------------------------------------------------------------------

  const VersionOpen := "<Version>"
  const VersionClose := "</Version>"

  /** `/<Version>([^<]+)<\/Version>/` matches at `p`: the opening tag, at
      least one character other than '<', then the closing tag. */
  predicate VersionMatchAt(text: string, p: nat)
  {
    OccursAt(text, VersionOpen, p)
    && var q := IndexOfChar(text, '<', p + 9);
    q > p + 9 && OccursAt(text, VersionClose, q)
  }

  /** The leftmost match at or after `from`. */
  function FindVersion(text: string, from: nat): (r: Option<nat>)
    ensures r.Some? ==> from <= r.value && VersionMatchAt(text, r.value)
    ensures r.Some? ==> forall j :: from <= j < r.value ==> !VersionMatchAt(text, j)
    ensures r.None? ==> forall j :: from <= j ==> !VersionMatchAt(text, j)
    decreases |text| - from
  {
    if from >= |text| then
      assert forall j :: from <= j ==> !OccursAt(text, VersionOpen, j);
      None
    else if VersionMatchAt(text, from) then Some(from)
    else FindVersion(text, from + 1)
  }

  /** `parseCsprojVersion`: the trimmed text of the first `<Version>`
      element; throws if there is none. */
  function ParseCsprojVersion(text: string): (r: Attempt<string>)
  {
    match FindVersion(text, 0)
    case None => Throws
    case Some(p) => Returns(JsTrim(text[p + 9..IndexOfChar(text, '<', p + 9)]))
  }

  /** It throws exactly when no element matches, and the version it reads
      has no '<' in it. */
  lemma ParseCsprojVersionSpec(text: string)
    ensures ParseCsprojVersion(text).Throws? <==> forall j :: !VersionMatchAt(text, j)
    ensures ParseCsprojVersion(text).Returns? ==> forall i :: 0 <= i < |ParseCsprojVersion(text).value| ==> ParseCsprojVersion(text).value[i] != '<'
  {
    match FindVersion(text, 0)
    case None =>
    case Some(p) =>
      var q := IndexOfChar(text, '<', p + 9);
      var content := text[p + 9..q];
      assert forall i :: 0 <= i < |content| ==> content[i] == text[p + 9 + i];
      JsTrimIsSlice(content);
  }

  /** The version written in the first `<Version>` element is read back,
      whatever text without '<' precedes it. */
  lemma ParseCsprojVersionOf(pre: string, v: string, post: string)
    requires forall i :: 0 <= i < |pre| ==> pre[i] != '<'
    requires |v| > 0 && !IsJsSpace(v[0]) && !IsJsSpace(v[|v| - 1])
    requires forall i :: 0 <= i < |v| ==> v[i] != '<'
    ensures ParseCsprojVersion(pre + VersionOpen + v + VersionClose + post) == Returns(v)
  {
    var text := pre + VersionOpen + v + VersionClose + post;
    var p := |pre|;
    FirstMatchAfter(pre, v, post);
    MatchAfter(pre, v, post);
    assert text[p + 9..p + 9 + |v|] == v;
    JsTrimKeepsTrimmed(v);
    ReadFirst(text, p, v);
  }

  /** The first match is the element right after `pre`. */
  lemma FirstMatchAfter(pre: string, v: string, post: string)
    requires forall i :: 0 <= i < |pre| ==> pre[i] != '<'
    requires |v| > 0 && forall i :: 0 <= i < |v| ==> v[i] != '<'
    ensures FindVersion(pre + VersionOpen + v + VersionClose + post, 0) == Some(|pre|)
  {
    var text := pre + VersionOpen + v + VersionClose + post;
    MatchAfter(pre, v, post);
    NoMatchBefore(pre, VersionOpen + v + VersionClose + post);
    assert text == pre + (VersionOpen + v + VersionClose + post);
    LeftmostMatch(text, |pre|);
  }

  /** The version read from the first match, at `p`, when its content is `v`
      and `v` is already trimmed. */
  lemma ReadFirst(text: string, p: nat, v: string)
    requires FindVersion(text, 0) == Some(p)
    requires p + 9 + |v| <= |text| && IndexOfChar(text, '<', p + 9) == p + 9 + |v|
    requires text[p + 9..p + 9 + |v|] == v && JsTrim(v) == v
    ensures ParseCsprojVersion(text) == Returns(v)
  {
  }

  lemma LeftmostMatch(text: string, p: nat)
    requires VersionMatchAt(text, p)
    requires forall j :: 0 <= j < p ==> !VersionMatchAt(text, j)
    ensures FindVersion(text, 0) == Some(p)
  {
  }

  /** The element right after `pre` matches, and its content ends where `v` does. */
  lemma MatchAfter(pre: string, v: string, post: string)
    requires forall i :: 0 <= i < |v| ==> v[i] != '<'
    requires |v| > 0
    ensures VersionMatchAt(pre + VersionOpen + v + VersionClose + post, |pre|)
    ensures IndexOfChar(pre + VersionOpen + v + VersionClose + post, '<', |pre| + 9) == |pre| + 9 + |v|
  {
    var text := pre + VersionOpen + v + VersionClose + post;
    var p := |pre|;
    assert text[p..p + 9] == VersionOpen;
    forall k | p + 9 <= k < p + 9 + |v| ensures text[k] != '<' {
      assert text[k] == v[k - p - 9];
    }
    assert text[p + 9 + |v|] == '<';
    IndexOfCharAt(text, '<', p + 9, p + 9 + |v|);
    assert text[p + 9 + |v|..p + 9 + |v| + 10] == VersionClose;
  }

  /** No match starts inside a prefix without '<'. */
  lemma NoMatchBefore(pre: string, rest: string)
    requires forall i :: 0 <= i < |pre| ==> pre[i] != '<'
    ensures forall j :: 0 <= j < |pre| ==> !VersionMatchAt(pre + rest, j)
  {
    var text := pre + rest;
    forall j | 0 <= j < |pre| ensures !OccursAt(text, VersionOpen, j) {
      assert text[j] == pre[j];
      assert j + 9 <= |text| ==> text[j..j + 9][0] == text[j];
    }
  }

  // ---------------------------------------------------------------------
  // The version bump
  // ---------------------------------------------------------------------

  /** `parseInt(s, 10)`: leading white space is skipped, then an optional
      sign and the longest run of digits are read; `None` is NaN (no digit). */
  function ParseInt(s: string): (r: Option<int>)
    decreases |s|
  {
    if |s| > 0 && IsJsSpace(s[0]) then ParseInt(s[1..]) else ParseSigned(s)
  }

  /** `parseInt` after the leading white space. */
  function ParseSigned(t: string): (r: Option<int>)
    ensures r.Some? <==> LeadingDigits(if |t| > 0 && (t[0] == '-' || t[0] == '+') then t[1..] else t) > 0
  {
    var negative := |t| > 0 && t[0] == '-';
    var body := if |t| > 0 && (t[0] == '-' || t[0] == '+') then t[1..] else t;
    var n := LeadingDigits(body);
    if n == 0 then None
    else
      var v: int := DigitsToNat(body[..n]);
      Some(if negative then -v else v)
  }

  /** `${n}` for an integer. */
  function IntToString(n: int): string
  {
    if n < 0 then "-" + NatToString(-n) else NatToString(n)
  }

  /** `${maj}.${min}.${pat}`. */
  function Format(maj: int, min: int, pat: int): string
  {
    IntToString(maj) + "." + IntToString(min) + "." + IntToString(pat)
  }

  /** `incVersion(version, kind)`: the part before the first '-' must be
      three '.'-separated integers (as `parseInt` reads them); the chosen
      part is incremented and the lower ones reset to 0. */
  function IncVersion(version: string, kind: string): (r: Attempt<string>)
    ensures r.Returns? ==> IsKind(kind) && |CoreParts(version)| == 3
  {
    Bump(CoreParts(version), kind)
  }

  /** `version.split('-')[0].split('.')`. */
  function CoreParts(version: string): seq<string>
  {
    SplitOn(SplitOn(version, '-')[0], '.')
  }

  /** The bump of the '.'-separated parts of the core. */
  function Bump(parts: seq<string>, kind: string): (r: Attempt<string>)
    ensures r.Returns? ==> IsKind(kind) && |parts| == 3
  {
    if |parts| != 3 then Throws
    else BumpParsed(ParseInt(parts[0]), ParseInt(parts[1]), ParseInt(parts[2]), kind)
  }

  /** The bump of the three parsed numbers (`None` for NaN). */
  function BumpParsed(maj: Option<int>, min: Option<int>, pat: Option<int>, kind: string): (r: Attempt<string>)
    ensures r.Returns? ==> IsKind(kind) && maj.Some? && min.Some? && pat.Some?
  {
    if maj.None? || min.None? || pat.None? then Throws
    else if kind == "major" then Returns(Format(maj.value + 1, 0, 0))
    else if kind == "minor" then Returns(Format(maj.value, min.value + 1, 0))
    else if kind == "patch" then Returns(Format(maj.value, min.value, pat.value + 1))
    else Throws
  }

  /** The decimal digits of a natural number are read back by `parseInt`. */
  lemma ParseIntOfNat(n: nat)
    ensures ParseInt(NatToString(n)) == Some(n)
  {
    var s := NatToString(n);
    assert !IsJsSpace(s[0]) && !(s[0] == '-' || s[0] == '+');
    assert LeadingDigits(s) == |s|;
    assert s[..|s|] == s;
    NatToStringRoundTrip(n);
  }

  /** `s` has no `ch` in it. */
  predicate Lacks(s: string, ch: char)
  {
    forall i :: 0 <= i < |s| ==> s[i] != ch
  }

  /** Decimal digits contain neither '.' nor '-'. */
  lemma DigitsNoSeparator(n: nat)
    ensures Lacks(NatToString(n), '.') && Lacks(NatToString(n), '-')
  {
  }

  /** "M.m.p" is the three numbers joined by '.'. */
  lemma FormatIsJoin(a: nat, b: nat, c: nat)
    ensures Format(a, b, c) == JoinWith([NatToString(a), NatToString(b), NatToString(c)], '.')
  {
    var sa, sb, sc := NatToString(a), NatToString(b), NatToString(c);
    assert JoinWith([sb, sc], '.') == sb + ['.'] + sc;
    assert [sa, sb, sc][1..] == [sb, sc];
  }

  /** Joining pieces without `ch` by another separator gives text without `ch`. */
  lemma {:induction false} JoinLacks(ps: seq<string>, sep: char, ch: char)
    requires sep != ch
    requires forall k :: 0 <= k < |ps| ==> Lacks(ps[k], ch)
    ensures Lacks(JoinWith(ps, sep), ch)
  {
    if |ps| > 1 {
      JoinLacks(ps[1..], sep, ch);
      var rest := JoinWith(ps[1..], sep);
      assert Lacks(ps[0], ch);
      assert forall i :: 0 <= i < |rest| ==> (ps[0] + [sep] + rest)[|ps[0]| + 1 + i] == rest[i];
    }
  }

  /** The core parts of '.'-joined pieces, followed by nothing or by a
      "-prerelease" tag, are the pieces. */
  lemma CorePartsOfJoin(ps: seq<string>, suffix: string)
    requires |ps| >= 1
    requires forall k :: 0 <= k < |ps| ==> Lacks(ps[k], '.') && Lacks(ps[k], '-')
    requires suffix == "" || suffix[0] == '-'
    ensures CoreParts(JoinWith(ps, '.') + suffix) == ps
  {
    JoinLacks(ps, '.', '-');
    FirstDashPiece(JoinWith(ps, '.'), suffix);
    SplitOnJoin(ps, '.');
  }

  /** The core parts of "M.m.p" with or without a prerelease tag are the
      three numbers' digits. */
  lemma CorePartsOfFormat(a: nat, b: nat, c: nat, suffix: string)
    requires suffix == "" || suffix[0] == '-'
    ensures CoreParts(Format(a, b, c) + suffix) == [NatToString(a), NatToString(b), NatToString(c)]
  {
    var ps := [NatToString(a), NatToString(b), NatToString(c)];
    FormatIsJoin(a, b, c);
    DigitsNoSeparator(a);
    DigitsNoSeparator(b);
    DigitsNoSeparator(c);
    CorePartsOfJoin(ps, suffix);
  }

  /** The part before the first '-' of `core + suffix`, where the suffix is
      empty or a "-prerelease" tag and the core has no '-'. */
  lemma FirstDashPiece(core: string, suffix: string)
    requires forall i :: 0 <= i < |core| ==> core[i] != '-'
    requires suffix == "" || suffix[0] == '-'
    ensures SplitOn(core + suffix, '-')[0] == core
  {
    var s := core + suffix;
    if suffix == "" {
      assert s == core;
      assert IndexOfChar(s, '-', 0) == -1;
    } else {
      IndexOfCharAt(s, '-', 0, |core|);
      assert s[..|core|] == core;
    }
  }

  /** The three bumps on a release version "M.m.p", with or without a
      prerelease suffix. */
  lemma IncVersionBumps(maj: nat, min: nat, pat: nat, suffix: string)
    requires suffix == "" || suffix[0] == '-'
    ensures IncVersion(Format(maj, min, pat) + suffix, "major") == Returns(Format(maj + 1, 0, 0))
    ensures IncVersion(Format(maj, min, pat) + suffix, "minor") == Returns(Format(maj, min + 1, 0))
    ensures IncVersion(Format(maj, min, pat) + suffix, "patch") == Returns(Format(maj, min, pat + 1))
  {
    var v := Format(maj, min, pat) + suffix;
    var parts := CoreParts(v);
    CorePartsOfFormat(maj, min, pat, suffix);
    assert ParseInt(parts[0]) == Some(maj) by { ParseIntOfNat(maj); }
    assert ParseInt(parts[1]) == Some(min) by { ParseIntOfNat(min); }
    assert ParseInt(parts[2]) == Some(pat) by { ParseIntOfNat(pat); }
    BumpOf(parts, maj, min, pat, "major");
    BumpOf(parts, maj, min, pat, "minor");
    BumpOf(parts, maj, min, pat, "patch");
  }

  /** Parts that `parseInt` reads as numbers are bumped as those numbers. */
  lemma BumpOf(parts: seq<string>, maj: int, min: int, pat: int, kind: string)
    requires |parts| == 3
    requires ParseInt(parts[0]) == Some(maj) && ParseInt(parts[1]) == Some(min) && ParseInt(parts[2]) == Some(pat)
    ensures Bump(parts, kind) == BumpParsed(Some(maj), Some(min), Some(pat), kind)
  {
  }

  /** Whatever follows the first '-' does not affect the bump. */
  lemma IncVersionIgnoresPrerelease(core: string, tag: string, kind: string)
    requires forall i :: 0 <= i < |core| ==> core[i] != '-'
    ensures IncVersion(core + "-" + tag, kind) == IncVersion(core, kind)
  {
    FirstDashPiece(core, "-" + tag);
    assert core + "-" + tag == core + ("-" + tag);
    FirstDashPiece(core, "");
    assert core + "" == core;
  }

  /** A core of two integers is rejected. */
  lemma IncVersionRejectsTwoParts(maj: nat, min: nat)
    ensures IncVersion(NatToString(maj) + "." + NatToString(min), "patch") == Throws
  {
    var ps := [NatToString(maj), NatToString(min)];
    assert JoinWith(ps, '.') + "" == NatToString(maj) + "." + NatToString(min);
    DigitsNoSeparator(maj);
    DigitsNoSeparator(min);
    CorePartsOfJoin(ps, "");
  }

  /** A core of four integers is rejected. */
  lemma IncVersionRejectsFourParts(maj: nat, min: nat, pat: nat)
    ensures IncVersion(Format(maj, min, pat) + ".0", "patch") == Throws
  {
    var ps := [NatToString(maj), NatToString(min), NatToString(pat)];
    FormatIsJoin(maj, min, pat);
    assert JoinWith(ps + ["0"], '.') + "" == Format(maj, min, pat) + ".0" by {
      JoinAppend(ps, "0", '.');
    }
    DigitsNoSeparator(maj);
    DigitsNoSeparator(min);
    DigitsNoSeparator(pat);
    CorePartsOfJoin(ps + ["0"], "");
  }

  /** Joining one more piece puts the separator before it. */
  lemma {:induction false} JoinAppend(ps: seq<string>, x: string, sep: char)
    requires |ps| >= 1
    ensures JoinWith(ps + [x], sep) == JoinWith(ps, sep) + [sep] + x
  {
    if |ps| == 1 {
      assert (ps + [x])[1..] == [x];
    } else {
      JoinAppend(ps[1..], x, sep);
      assert (ps + [x])[1..] == ps[1..] + [x];
    }
  }

  // ---------------------------------------------------------------------
  // The change-log section
  // ---------------------------------------------------------------------

  /** `/^##\s+v\d+\.\d+\.\d+\b/.test(line)`. */
  predicate IsVersionHeader(line: string)
  {
    |line| >= 2 && line[..2] == "##"
    && var a := 2 + LeadingJsSpace(line[2..]);
    a > 2 && a < |line| && line[a] == 'v' && IsDottedTriple(line[a + 1..])
  }

  /** `\d+\.\d+\.\d+\b` at the start of `s`. */
  predicate IsDottedTriple(s: string)
  {
    var n1 := LeadingDigits(s);
    n1 > 0 && n1 < |s| && s[n1] == '.'
    && var t := s[n1 + 1..];
    var n2 := LeadingDigits(t);
    n2 > 0 && n2 < |t| && t[n2] == '.'
    && var u := t[n2 + 1..];
    var n3 := LeadingDigits(u);
    n3 > 0 && (n3 == |u| || !IsWordChar(u[n3]))
  }

  /** The first version header among `lines[i..]`, or `|lines|`. */
  function NextHeader(lines: seq<string>, i: nat): (e: nat)
    requires i <= |lines|
    ensures i <= e <= |lines|
    decreases |lines| - i
  {
    if i == |lines| then i
    else if IsVersionHeader(lines[i]) then i
    else NextHeader(lines, i + 1)
  }

  /** It is the first header from `i` on. */
  lemma {:induction false} NextHeaderIsFirst(lines: seq<string>, i: nat)
    requires i <= |lines|
    ensures forall j :: i <= j < NextHeader(lines, i) ==> !IsVersionHeader(lines[j])
    ensures NextHeader(lines, i) < |lines| ==> IsVersionHeader(lines[NextHeader(lines, i)])
    decreases |lines| - i
  {
    if i < |lines| && !IsVersionHeader(lines[i]) {
      NextHeaderIsFirst(lines, i + 1);
    }
  }

  /** The loop of `changelogSectionFor`: the index of the first version
      header after the first line, or the number of lines. */
  method SectionEnd(lines: seq<string>) returns (endLine: nat)
    requires |lines| >= 1
    ensures endLine == NextHeader(lines, 1)
  {
    endLine := |lines|;
    var i := 1;
    while i < |lines|
      invariant 1 <= i <= |lines|
      invariant forall j :: 1 <= j < i ==> !IsVersionHeader(lines[j])
      decreases |lines| - i
    {
      if IsVersionHeader(lines[i]) {
        HeaderAt(lines, 1, i);
        return i;
      }
      i := i + 1;
    }
    NoHeaderFrom(lines, 1);
  }

  /** `changelogSectionFor(version)` over the change-log text: from the
      first "## v<version>" to the line before the next version header,
      trimmed, with one final newline. */
  method ChangelogSectionFor(changelog: string, version: string) returns (r: Attempt<string>)
    ensures r.Throws? <==> IndexOf(changelog, "## v" + version, 0) < 0
    ensures r.Returns? ==> r == Section(SplitLines(changelog[IndexOf(changelog, "## v" + version, 0)..]))
  {
    var header := "## v" + version;
    var idx := IndexOf(changelog, header, 0);
    if idx == -1 {
      return Throws;
    }
    var lines := SplitLines(changelog[idx..]);
    var endLine := SectionEnd(lines);
    r := Returns(JsTrim(JoinWith(lines[..endLine], '\n')) + "\n");
  }

  /** The section cut from the lines that start at the header. */
  function Section(lines: seq<string>): (r: Attempt<string>)
    requires |lines| >= 1
    ensures r.Returns? && |r.value| >= 1 && r.value[|r.value| - 1] == '\n'
  {
    Returns(JsTrim(JoinWith(lines[..NextHeader(lines, 1)], '\n')) + "\n")
  }

  lemma {:induction false} NoHeaderFrom(lines: seq<string>, i: nat)
    requires i <= |lines|
    requires forall j :: i <= j < |lines| ==> !IsVersionHeader(lines[j])
    ensures NextHeader(lines, i) == |lines|
    decreases |lines| - i
  {
    if i < |lines| { NoHeaderFrom(lines, i + 1); }
  }

  lemma {:induction false} HeaderAt(lines: seq<string>, i: nat, e: nat)
    requires i <= e < |lines| && IsVersionHeader(lines[e])
    requires forall j :: i <= j < e ==> !IsVersionHeader(lines[j])
    ensures NextHeader(lines, i) == e
    decreases e - i
  {
    if i < e { HeaderAt(lines, i + 1, e); }
  }

  /** The section starts with its own header line and ends with a newline,
      when the version has no white space in it. */
  lemma SectionStartsWithHeader(changelog: string, version: string)
    requires forall i :: 0 <= i < |version| ==> !IsJsSpace(version[i])
    requires IndexOf(changelog, "## v" + version, 0) >= 0
    ensures IsPrefix("## v" + version, Section(SplitLines(changelog[IndexOf(changelog, "## v" + version, 0)..])).value)
  {
    var header := "## v" + version;
    HeaderShape(version);
    var idx := IndexOf(changelog, header, 0);
    var rest := changelog[idx..];
    assert rest[..|header|] == changelog[idx..idx + |header|];
    var lines := SplitLines(rest);
    HeaderInFirstLine(rest, header);
    var e := NextHeader(lines, 1);
    var body := JoinWith(lines[..e], '\n');
    JoinStartsWithFirst(lines[..e]);
    PrefixOfPrefix(header, lines[0], body);
    TrimKeepsPrefix(body, header);
  }

  /** The header "## v<version>" starts with '#', ends in a non-space and
      has no line break. */
  lemma HeaderShape(version: string)
    requires forall i :: 0 <= i < |version| ==> !IsJsSpace(version[i])
    ensures var h := "## v" + version;
      |h| >= 4 && !IsJsSpace(h[0]) && !IsJsSpace(h[|h| - 1])
      && forall i :: 0 <= i < |h| ==> h[i] != '\n' && h[i] != '\r'
  {
    var h := "## v" + version;
    assert forall i :: 4 <= i < |h| ==> h[i] == version[i - 4];
  }

  lemma PrefixOfPrefix(a: string, b: string, c: string)
    requires IsPrefix(a, b) && IsPrefix(b, c)
    ensures IsPrefix(a, c)
  {
    assert c[..|a|] == b[..|a|];
  }

  /** The first piece of `s.split(/\r?\n/)` starts with a prefix of `s`
      that has no line break in it. */
  lemma HeaderInFirstLine(s: string, header: string)
    requires IsPrefix(header, s)
    requires forall i :: 0 <= i < |header| ==> header[i] != '\n' && header[i] != '\r'
    ensures IsPrefix(header, SplitLines(s)[0])
  {
    var i := IndexOfChar(s, '\n', 0);
    if i >= 0 {
      assert i >= |header| by {
        assert forall k :: 0 <= k < |header| ==> s[k] == header[k];
      }
      var p := s[..i];
      assert p[..|header|] == header;
      if |p| > 0 && p[|p| - 1] == '\r' {
        assert |p| - 1 >= |header| by {
          assert forall k :: 0 <= k < |header| ==> p[k] == header[k];
        }
        assert DropCR(p)[..|header|] == header;
      }
    }
  }

  lemma JoinStartsWithFirst(parts: seq<string>)
    requires |parts| >= 1
    ensures IsPrefix(parts[0], JoinWith(parts, '\n'))
  {
    if |parts| > 1 {
      var j := JoinWith(parts, '\n');
      assert j == parts[0] + ['\n'] + JoinWith(parts[1..], '\n');
      assert j[..|parts[0]|] == parts[0];
    }
  }

  /** Trimming keeps a prefix that starts and ends with non-space. */
  lemma TrimKeepsPrefix(s: string, p: string)
    requires |p| > 0 && IsPrefix(p, s) && !IsJsSpace(p[0]) && !IsJsSpace(p[|p| - 1])
    ensures IsPrefix(p, JsTrim(s) + "\n")
  {
    assert LeadingJsSpace(s) == 0;
    assert s[0..] == s;
    var b := TrailingJsSpace(s);
    assert s[|p| - 1] == p[|p| - 1];
    assert b <= |s| - |p|;
    var t := JsTrim(s);
    assert t == s[..|s| - b];
    assert t[..|p|] == p;
    assert (t + "\n")[..|p|] == p;
  }
}
