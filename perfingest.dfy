/** The pure helpers of the performance-result ingestion script: its
    argument parser, the slugs it builds for scenario and runtime names,
    the decoding of HTML entities in report cells, the removal of empty
    fields and the shape of an uploaded row. Reading the result files,
    the host queries and the upload are not modelled. */
module PerfIngest {
  import opened JsValues
  import opened Text
  import opened ScriptText
  import SubclauseSync

  /** An object of the script, by key; the values it holds are carried,
      never computed with, so an integer stands for any number and a
      reference for any nested object. */
  type JsObject = map<string, Value>

  /** `String(value ?? fallback)` for a value that is a string, null or
      undefined. */
  function OrElse(value: Option<string>, fallback: string): string
  {
    match value
    case Some(v) => v
    case None => fallback
  }

  // ---------------------------------------------------------------------
  // parseArgs

  /** `!next || next.startsWith('--')`: the token after a flag is missing,
      empty or another flag, so the flag stands alone. */
  predicate StandsAlone(argv: seq<string>, i: nat)
  {
    i + 1 >= |argv| || argv[i + 1] == "" || IsPrefix("--", argv[i + 1])
  }

  /** The loop of `parseArgs` from token `i` on: a token "--key" binds
      `key` to the next token, which it consumes, or to `true` when it
      stands alone; other tokens are passed over. */
  function ScanArgs(argv: seq<string>, i: nat, args: JsObject): JsObject
    decreases |argv| - i
  {
    if i >= |argv| then args
    else if IsPrefix("--", argv[i]) then
      var key := argv[i][2..];
      if StandsAlone(argv, i) then ScanArgs(argv, i + 1, args[key := Bool(true)])
      else ScanArgs(argv, i + 2, args[key := Str(argv[i + 1])])
    else ScanArgs(argv, i + 1, args)
  }

  function ParseArgsSpec(argv: seq<string>): JsObject
  {
    ScanArgs(argv, 0, map[])
  }

  /** `parseArgs(argv)`. */
  method ParseArgs(argv: seq<string>) returns (args: JsObject)
    ensures args == ParseArgsSpec(argv)
  {
    args := map[];
    var i := 0;
    while i < |argv|
      invariant i <= |argv| + 1
      invariant ScanArgs(argv, i, args) == ParseArgsSpec(argv)
      decreases |argv| - i
    {
      var token := argv[i];
      if IsPrefix("--", token) {
        var key := token[2..];
        if i + 1 >= |argv| || argv[i + 1] == "" || IsPrefix("--", argv[i + 1]) {
          args := args[key := Bool(true)];
          i := i + 1;
          continue;
        }
        args := args[key := Str(argv[i + 1])];
        i := i + 1;
      }
      i := i + 1;
    }
  }

  /** The keys of the flags among the tokens from `i` on. */
  function FlagKeys(argv: seq<string>, i: nat): set<string>
  {
    set j | i <= j < |argv| && IsPrefix("--", argv[j]) :: argv[j][2..]
  }

  /** A token that is not a flag adds no key. */
  lemma FlagKeysStep(argv: seq<string>, i: nat)
    requires i < |argv|
    ensures FlagKeys(argv, i) == (if IsPrefix("--", argv[i]) then {argv[i][2..]} else {}) + FlagKeys(argv, i + 1)
  {
    var here := if IsPrefix("--", argv[i]) then {argv[i][2..]} else {};
    forall k | k in FlagKeys(argv, i) ensures k in here + FlagKeys(argv, i + 1) {
      var j :| i <= j < |argv| && IsPrefix("--", argv[j]) && argv[j][2..] == k;
      if j > i {
        assert k in FlagKeys(argv, i + 1);
      }
    }
    forall k | k in FlagKeys(argv, i + 1) ensures k in FlagKeys(argv, i) {
      var j :| i + 1 <= j < |argv| && IsPrefix("--", argv[j]) && argv[j][2..] == k;
      assert i <= j;
    }
  }

  /** The scan binds exactly the keys of the flags it meets: a consumed
      value never starts with "--", so no flag is consumed as a value. */
  lemma {:induction false} ScanKeys(argv: seq<string>, i: nat, args: JsObject)
    ensures ScanArgs(argv, i, args).Keys == args.Keys + FlagKeys(argv, i)
    decreases |argv| - i
  {
    if i >= |argv| {
      assert FlagKeys(argv, i) == {};
    } else {
      FlagKeysStep(argv, i);
      if IsPrefix("--", argv[i]) {
        var key := argv[i][2..];
        if StandsAlone(argv, i) {
          ScanKeys(argv, i + 1, args[key := Bool(true)]);
        } else {
          FlagKeysStep(argv, i + 1);
          ScanKeys(argv, i + 2, args[key := Str(argv[i + 1])]);
        }
      } else {
        ScanKeys(argv, i + 1, args);
      }
    }
  }

  /** `parseArgs` returns an object whose keys are those of the flags. */
  lemma ParseArgsKeys(argv: seq<string>)
    ensures ParseArgsSpec(argv).Keys == FlagKeys(argv, 0)
  {
    ScanKeys(argv, 0, map[]);
  }

  /** A key no later flag names keeps the value it has. */
  lemma {:induction false} ScanKeepsOthers(argv: seq<string>, i: nat, args: JsObject, k: string)
    requires k in args && k !in FlagKeys(argv, i)
    ensures k in ScanArgs(argv, i, args) && ScanArgs(argv, i, args)[k] == args[k]
    decreases |argv| - i
  {
    if i < |argv| {
      FlagKeysStep(argv, i);
      if IsPrefix("--", argv[i]) {
        var key := argv[i][2..];
        if StandsAlone(argv, i) {
          ScanKeepsOthers(argv, i + 1, args[key := Bool(true)], k);
        } else {
          FlagKeysStep(argv, i + 1);
          ScanKeepsOthers(argv, i + 2, args[key := Str(argv[i + 1])], k);
        }
      } else {
        ScanKeepsOthers(argv, i + 1, args, k);
      }
    }
  }

  /** The scan stops at every flag: only a token that is not a flag is
      ever consumed as a value. */
  lemma {:induction false} ScanReaches(argv: seq<string>, i: nat, args: JsObject, j: nat)
    requires i <= j < |argv| && IsPrefix("--", argv[j])
    ensures exists before :: ScanArgs(argv, i, args) == ScanArgs(argv, j, before)
    decreases j - i
  {
    if i == j {
      assert ScanArgs(argv, i, args) == ScanArgs(argv, j, args);
    } else if IsPrefix("--", argv[i]) {
      var key := argv[i][2..];
      if StandsAlone(argv, i) {
        ScanReaches(argv, i + 1, args[key := Bool(true)], j);
      } else {
        assert i + 1 != j;
        ScanReaches(argv, i + 2, args[key := Str(argv[i + 1])], j);
      }
    } else {
      ScanReaches(argv, i + 1, args, j);
    }
  }

  /** The value of the last flag of a key: the next token when there is
      one that is neither empty nor a flag, otherwise `true`. */
  lemma LastFlagBinds(argv: seq<string>, j: nat)
    requires j < |argv| && IsPrefix("--", argv[j])
    requires forall l :: j < l < |argv| ==> argv[l] != argv[j]
    ensures var k := argv[j][2..];
      && k in ParseArgsSpec(argv)
      && ParseArgsSpec(argv)[k] == (if StandsAlone(argv, j) then Bool(true) else Str(argv[j + 1]))
  {
    var k := argv[j][2..];
    ScanReaches(argv, 0, map[], j);
    var before :| ScanArgs(argv, 0, map[]) == ScanArgs(argv, j, before);
    var next := if StandsAlone(argv, j) then j + 1 else j + 2;
    var bound := before[k := if StandsAlone(argv, j) then Bool(true) else Str(argv[j + 1])];
    assert ScanArgs(argv, j, before) == ScanArgs(argv, next, bound);
    forall l | next <= l < |argv| && IsPrefix("--", argv[l]) ensures argv[l][2..] != k {
      assert argv[l] == argv[l][..2] + argv[l][2..];
      assert argv[j] == argv[j][..2] + k;
      assert argv[l][..2] == argv[j][..2];
    }
    assert k !in FlagKeys(argv, next);
    ScanKeepsOthers(argv, next, bound, k);
  }

  // ---------------------------------------------------------------------
  // slugify

  /** The characters a slug keeps: `[a-z0-9]`. */
  predicate IsSlugChar(c: char)
  {
    IsAsciiLower(c) || IsAsciiDigit(c)
  }

  /** Slug characters and dashes only. */
  predicate SlugChars(s: string)
  {
    forall i :: 0 <= i < |s| ==> IsSlugChar(s[i]) || s[i] == '-'
  }

  /** No two dashes side by side. */
  predicate NoDoubleDash(s: string)
  {
    forall i :: 0 < i < |s| ==> s[i - 1] != '-' || s[i] != '-'
  }

  /** What `slugify` returns: a non-empty run of slug characters and single
      dashes that neither starts nor ends with a dash. */
  predicate IsSlug(s: string)
  {
    |s| > 0 && SlugChars(s) && NoDoubleDash(s) && s[0] != '-' && s[|s| - 1] != '-'
  }

  /** The number of leading characters that `[^a-z0-9]` matches. */
  function NonSlugRun(s: string): (n: nat)
    ensures n <= |s|
    ensures n < |s| ==> IsSlugChar(s[n])
    ensures |s| > 0 && !IsSlugChar(s[0]) ==> n >= 1
    decreases |s|
  {
    if |s| > 0 && !IsSlugChar(s[0]) then 1 + NonSlugRun(s[1..]) else 0
  }

  /** `.replace(/[^a-z0-9]+/g, '-')`: each maximal run of other characters
      becomes one dash. */
  function DashRuns(s: string): (r: string)
    ensures SlugChars(r) && NoDoubleDash(r)
    ensures |s| > 0 ==> |r| > 0 && (r[0] == '-' <==> !IsSlugChar(s[0]))
    decreases |s|
  {
    if |s| == 0 then []
    else if IsSlugChar(s[0]) then
      var rest := DashRuns(s[1..]);
      assert forall i :: 0 < i < |rest| + 1 ==> ([s[0]] + rest)[i] == rest[i - 1];
      [s[0]] + rest
    else
      var n := NonSlugRun(s);
      var rest := DashRuns(s[n..]);
      assert forall i :: 0 < i < |rest| + 1 ==> ("-" + rest)[i] == rest[i - 1];
      "-" + rest
  }

  /** A maximal run of other characters is all that `[^a-z0-9]+` takes. */
  lemma {:induction false} NonSlugRunOfRun(w: string, s: string)
    requires forall i :: 0 <= i < |w| ==> !IsSlugChar(w[i])
    requires s == [] || IsSlugChar(s[0])
    ensures NonSlugRun(w + s) == |w|
    decreases |w|
  {
    if |w| > 0 {
      NonSlugRunOfRun(w[1..], s);
      assert (w + s)[1..] == w[1..] + s;
    }
  }

  /** A slug character is kept in its place. */
  lemma DashRunsKeepsSlugChar(c: char, s: string)
    requires IsSlugChar(c)
    ensures DashRuns([c] + s) == [c] + DashRuns(s)
  {
    assert ([c] + s)[1..] == s;
  }

  /** A maximal run of other characters becomes exactly one dash, in its
      place. */
  lemma DashRunsReplacesRun(w: string, s: string)
    requires |w| > 0 && forall i :: 0 <= i < |w| ==> !IsSlugChar(w[i])
    requires s == [] || IsSlugChar(s[0])
    ensures DashRuns(w + s) == "-" + DashRuns(s)
  {
    NonSlugRunOfRun(w, s);
    assert (w + s)[|w|..] == s;
  }

  /** Words keep their dash: "a b" becomes "a-b", not "ab". */
  lemma DashRunsSeparatesWords()
    ensures DashRuns("a b") == "a-b"
  {
    DashRunsKeepsSlugChar('b', "");
    assert " " + "b" == " b";
    DashRunsReplacesRun(" ", "b");
    assert "a" + " b" == "a b";
    DashRunsKeepsSlugChar('a', " b");
  }

  /** `.replace(/^-+/, '')`. */
  function DropLeadingDashes(s: string): (r: string)
    ensures |r| <= |s| && r == s[|s| - |r|..]
    ensures r == [] || r[0] != '-'
    decreases |s|
  {
    if |s| > 0 && s[0] == '-' then DropLeadingDashes(s[1..]) else s
  }

  /** `.replace(/-+$/, '')`. */
  function DropTrailingDashes(s: string): (r: string)
    ensures IsPrefix(r, s)
    ensures r == [] || r[|r| - 1] != '-'
    decreases |s|
  {
    if |s| > 0 && s[|s| - 1] == '-' then DropTrailingDashes(s[..|s| - 1]) else s
  }

  /** A slice of slug characters without double dashes has neither. */
  lemma SliceKeepsSlugChars(s: string, a: nat, b: nat)
    requires a <= b <= |s| && SlugChars(s) && NoDoubleDash(s)
    ensures SlugChars(s[a..b]) && NoDoubleDash(s[a..b])
  {
    var t := s[a..b];
    forall i | 0 <= i < |t| ensures IsSlugChar(t[i]) || t[i] == '-' {
      assert t[i] == s[a + i];
    }
    forall i | 0 < i < |t| ensures t[i - 1] != '-' || t[i] != '-' {
      assert t[i - 1] == s[a + i - 1] && t[i] == s[a + i];
    }
  }

  /** `.replace(/^-+|-+$/g, '')`: the dashes at both ends removed. */
  function StripDashes(d: string): (r: string)
    ensures r == [] || (r[0] != '-' && r[|r| - 1] != '-')
  {
    DropTrailingDashes(DropLeadingDashes(d))
  }

  /** Removing the end dashes keeps slug characters and single dashes. */
  lemma StripDashesKeeps(d: string)
    requires SlugChars(d) && NoDoubleDash(d)
    ensures SlugChars(StripDashes(d)) && NoDoubleDash(StripDashes(d))
  {
    var lead := DropLeadingDashes(d);
    SliceKeepsSlugChars(d, |d| - |lead|, |d|);
    SliceKeepsSlugChars(lead, 0, |StripDashes(d)|);
  }

  /** The `[a-z0-9]` characters of a string, in order. */
  function SlugCharsOf(s: string): string
    decreases |s|
  {
    if |s| == 0 then []
    else if IsSlugChar(s[0]) then [s[0]] + SlugCharsOf(s[1..])
    else SlugCharsOf(s[1..])
  }

  lemma {:induction false} SlugCharsOfAppend(a: string, b: string)
    ensures SlugCharsOf(a + b) == SlugCharsOf(a) + SlugCharsOf(b)
    decreases |a|
  {
    if |a| == 0 {
      assert a + b == b;
    } else {
      assert (a + b)[1..] == a[1..] + b;
      SlugCharsOfAppend(a[1..], b);
    }
  }

  lemma {:induction false} NoSlugCharsOf(s: string)
    requires forall i :: 0 <= i < |s| ==> !IsSlugChar(s[i])
    ensures SlugCharsOf(s) == []
    decreases |s|
  {
    if |s| > 0 {
      NoSlugCharsOf(s[1..]);
    }
  }

  lemma {:induction false} DropPrefixKeepsSlugChars(s: string, a: nat)
    requires a <= |s|
    requires forall i :: 0 <= i < a ==> !IsSlugChar(s[i])
    ensures SlugCharsOf(s[a..]) == SlugCharsOf(s)
    decreases a
  {
    if a > 0 {
      var t := s[1..];
      forall i | 0 <= i < a - 1 ensures !IsSlugChar(t[i]) {
        assert t[i] == s[i + 1];
      }
      DropPrefixKeepsSlugChars(t, a - 1);
      assert t[a - 1..] == s[a..];
    }
  }

  lemma {:induction false} DropSuffixKeepsSlugChars(s: string, b: nat)
    requires b <= |s|
    requires forall i :: b <= i < |s| ==> !IsSlugChar(s[i])
    ensures SlugCharsOf(s[..b]) == SlugCharsOf(s)
    decreases |s|
  {
    if b == 0 {
      NoSlugCharsOf(s);
    } else {
      var t := s[1..];
      forall i | b - 1 <= i < |t| ensures !IsSlugChar(t[i]) {
        assert t[i] == s[i + 1];
      }
      DropSuffixKeepsSlugChars(t, b - 1);
      assert s[..b][1..] == t[..b - 1];
    }
  }

  /** Cutting off ends that hold no slug character keeps the slug
      characters. */
  lemma SlugCharsOfSlice(s: string, a: nat, b: nat)
    requires a <= b <= |s|
    requires forall i :: 0 <= i < a ==> !IsSlugChar(s[i])
    requires forall i :: b <= i < |s| ==> !IsSlugChar(s[i])
    ensures SlugCharsOf(s[a..b]) == SlugCharsOf(s)
  {
    var t := s[a..];
    forall i | b - a <= i < |t| ensures !IsSlugChar(t[i]) {
      assert t[i] == s[a + i];
    }
    DropSuffixKeepsSlugChars(t, b - a);
    assert t[..b - a] == s[a..b];
    DropPrefixKeepsSlugChars(s, a);
  }

  /** `trim` keeps a slice and drops only white space around it. */
  lemma TrimmedSlice(t: string) returns (a: nat, e: nat)
    ensures a <= e <= |t| && JsTrim(t) == t[a..e]
    ensures forall i :: 0 <= i < a ==> IsJsSpace(t[i])
    ensures forall i :: e <= i < |t| ==> IsJsSpace(t[i])
  {
    a := LeadingJsSpace(t);
    var rest := t[a..];
    var b := TrailingJsSpace(rest);
    e := |t| - b;
    forall i | e <= i < |t| ensures IsJsSpace(t[i]) {
      assert rest[i - a] == t[i];
    }
  }

  /** White space lower-cases to a character that is not a slug character. */
  lemma SpaceIsNoSlugChar(c: char)
    requires IsJsSpace(c)
    ensures !IsSlugChar(LowerChar(c))
  {
  }

  /** Lower-casing a slice is slicing the lower-cased string. */
  lemma LowerSlice(t: string, a: nat, e: nat)
    requires a <= e <= |t|
    ensures Lower(t[a..e]) == Lower(t)[a..e]
  {
  }

  /** `trim` removes only white space, which lower-casing leaves without
      slug characters. */
  lemma TrimLowerKeepsSlugChars(t: string)
    ensures SlugCharsOf(Lower(JsTrim(t))) == SlugCharsOf(Lower(t))
  {
    var a, e := TrimmedSlice(t);
    var lt := Lower(t);
    LowerSlice(t, a, e);
    forall i | 0 <= i < |t| && (i < a || e <= i) ensures !IsSlugChar(lt[i]) {
      SpaceIsNoSlugChar(t[i]);
    }
    SlugCharsOfSlice(lt, a, e);
  }

  lemma {:induction false} NonSlugRunKeepsSlugChars(s: string)
    ensures SlugCharsOf(s[NonSlugRun(s)..]) == SlugCharsOf(s)
    decreases |s|
  {
    if |s| > 0 && !IsSlugChar(s[0]) {
      NonSlugRunKeepsSlugChars(s[1..]);
      assert s[1..][NonSlugRun(s[1..])..] == s[NonSlugRun(s)..];
    }
  }

  /** Turning runs of other characters into dashes keeps the slug
      characters. */
  lemma {:induction false} DashRunsKeepsSlugChars(s: string)
    ensures SlugCharsOf(DashRuns(s)) == SlugCharsOf(s)
    decreases |s|
  {
    if |s| > 0 {
      if IsSlugChar(s[0]) {
        var rest := DashRuns(s[1..]);
        DashRunsKeepsSlugChars(s[1..]);
        assert ([s[0]] + rest)[1..] == rest;
      } else {
        var n := NonSlugRun(s);
        var rest := DashRuns(s[n..]);
        DashRunsKeepsSlugChars(s[n..]);
        NonSlugRunKeepsSlugChars(s);
        assert ("-" + rest)[1..] == rest;
      }
    }
  }

  lemma {:induction false} DropLeadingKeepsSlugChars(s: string)
    ensures SlugCharsOf(DropLeadingDashes(s)) == SlugCharsOf(s)
    decreases |s|
  {
    if |s| > 0 && s[0] == '-' {
      DropLeadingKeepsSlugChars(s[1..]);
    }
  }

  lemma {:induction false} DropTrailingKeepsSlugChars(s: string)
    ensures SlugCharsOf(DropTrailingDashes(s)) == SlugCharsOf(s)
    decreases |s|
  {
    if |s| > 0 && s[|s| - 1] == '-' {
      var p := s[..|s| - 1];
      DropTrailingKeepsSlugChars(p);
      assert s == p + [s[|s| - 1]];
      SlugCharsOfAppend(p, [s[|s| - 1]]);
    }
  }

  /** `slugify` of a string: a slug made of the lower-cased `[a-z0-9]`
      characters of the text, in order, or "unknown" when the text has
      none. */
  function SlugifyText(t: string): (r: string)
    ensures IsSlug(r)
    ensures SlugCharsOf(Lower(t)) == [] ==> r == "unknown"
    ensures SlugCharsOf(Lower(t)) != [] ==> SlugCharsOf(r) == SlugCharsOf(Lower(t))
  {
    var d := DashRuns(Lower(JsTrim(t)));
    StripDashesKeeps(d);
    var s := StripDashes(d);
    StrippedKeepsSlugChars(t);
    if s == [] then UnknownIsSlug(); "unknown" else s
  }

  /** The fallback "unknown" is itself a slug. */
  lemma UnknownIsSlug()
    ensures IsSlug("unknown")
  {
    var u := "unknown";
    assert forall i :: 0 <= i < |u| ==> IsAsciiLower(u[i]);
  }

  /** The trimmed, lower-cased, dashed and stripped text keeps exactly the
      slug characters of the lower-cased text, and is empty exactly when
      there are none. */
  lemma StrippedKeepsSlugChars(t: string)
    ensures var s := StripDashes(DashRuns(Lower(JsTrim(t))));
      SlugCharsOf(s) == SlugCharsOf(Lower(t)) && (s == [] <==> SlugCharsOf(Lower(t)) == [])
  {
    var d := DashRuns(Lower(JsTrim(t)));
    TrimLowerKeepsSlugChars(t);
    DashRunsKeepsSlugChars(Lower(JsTrim(t)));
    DropLeadingKeepsSlugChars(d);
    DropTrailingKeepsSlugChars(DropLeadingDashes(d));
    StripDashesKeeps(d);
    var s := StripDashes(d);
    if s != [] {
      assert IsSlugChar(s[0]);
      assert SlugCharsOf(s)[0] == s[0];
    }
  }

  /** `slugify(value)`: null and undefined read as "unknown". */
  function Slugify(value: Option<string>): (r: string)
    ensures IsSlug(r)
    ensures value.None? ==> r == "unknown"
    ensures value.Some? && SlugCharsOf(Lower(value.value)) == [] ==> r == "unknown"
    ensures value.Some? && SlugCharsOf(Lower(value.value)) != [] ==>
      SlugCharsOf(r) == SlugCharsOf(Lower(value.value))
  {
    if value.None? then UnknownIsSlug(); SlugFixed("unknown"); SlugifyText("unknown")
    else SlugifyText(value.value)
  }

  /** Dashes that stand alone between slug characters are their own runs. */
  lemma {:induction false} DashRunsKeeps(s: string)
    requires SlugChars(s) && NoDoubleDash(s)
    ensures DashRuns(s) == s
    decreases |s|
  {
    if |s| > 0 {
      var t := s[1..];
      SliceKeepsSlugChars(s, 1, |s|);
      DashRunsKeeps(t);
      if !IsSlugChar(s[0]) {
        assert |s| > 1 ==> s[1] != '-';
        assert NonSlugRun(s) == 1 by {
          assert NonSlugRun(t) == 0;
        }
      }
      assert s == [s[0]] + t;
    }
  }

  /** A slug is its own slug. */
  lemma SlugFixed(s: string)
    requires IsSlug(s)
    ensures SlugifyText(s) == s
  {
    JsTrimKeepsTrimmed(s);
    LowerKeeps(s);
    DashRunsKeeps(s);
    assert StripDashes(s) == s by {
      assert DropLeadingDashes(s) == s;
    }
  }

  /** Text without capital letters is its own lower case. */
  lemma LowerKeeps(s: string)
    requires SlugChars(s)
    ensures Lower(s) == s
  {
    assert forall i :: 0 <= i < |s| ==> Lower(s)[i] == LowerChar(s[i]) == s[i];
  }

  /** `slugify` is idempotent. */
  lemma SlugifyIdempotent(value: Option<string>)
    ensures Slugify(Some(Slugify(value))) == Slugify(value)
  {
    SlugFixed(Slugify(value));
  }

  // ---------------------------------------------------------------------
  // decodeHtmlEntities

  /** `decodeHtmlEntities(value)` as written: `text.split(entity).join(literal)`
      replaces each occurrence of an entity, left to right, and the
      entities are replaced one after the other, "&amp;" before "&lt;" and
      "&gt;". */
  function DecodeHtmlEntitiesAsWritten(value: Option<string>): string
  {
    var text := OrElse(value, "");
    var a := ReplaceAll(text, "&#39;", "'");
    var b := ReplaceAll(a, "&quot;", "\"");
    var c := ReplaceAll(b, "&amp;", "&");
    var d := ReplaceAll(c, "&lt;", "<");
    ReplaceAll(d, "&gt;", ">")
  }

  /** The escaped text "&amp;lt;" of the characters "&lt;" is decoded
      twice, to "<". */
  lemma AsWrittenDecodesTwice()
    ensures DecodeHtmlEntitiesAsWritten(Some("&amp;lt;")) == "<"
  {
    var s := "&amp;lt;";
    assert ReplaceAll(s, "&#39;", "'") == s by {
      ReplaceAllAbsentAt(s, "&#39;", "'");
    }
    assert ReplaceAll(s, "&quot;", "\"") == s by {
      ReplaceAllAbsentAt(s, "&quot;", "\"");
    }
    assert s[..5] == "&amp;" && s[5..] == "lt;";
    assert ReplaceAll("lt;", "&amp;", "&") == "lt;";
    var a := "&lt;";
    assert a == ReplaceAll(s, "&amp;", "&");
    assert a[..4] == "&lt;" && a[4..] == "";
    assert ReplaceAll(a, "&lt;", "<") == "<";
    assert ReplaceAll("<", "&gt;", ">") == "<";
  }

  /** A text in which the pattern occurs nowhere is left alone. */
  lemma ReplaceAllAbsentAt(s: string, pat: string, rep: string)
    requires |pat| > 0 && |s| == 8 && |pat| >= 5
    requires s == "&amp;lt;" && (pat == "&#39;" || pat == "&quot;")
    ensures ReplaceAll(s, pat, rep) == s
  {
    forall i: nat ensures !OccursAt(s, pat, i) {
      if i + |pat| <= |s| {
        assert s[i..i + |pat|][1] == s[i + 1];
      }
    }
    ReplaceAllAbsent(s, pat, rep);
  }

  /** `decodeHtmlEntities` decoding each entity once, in one pass from the
      left. */
  function DecodeHtmlEntities(value: Option<string>): string
  {
    SubclauseSync.DecodeEntities(OrElse(value, ""))
  }

  /** Decoding the escaped form of a text gives the text back, and the
      escaped "&lt;" is decoded to "&lt;". */
  lemma DecodeHtmlEntitiesRoundTrip(s: string)
    ensures DecodeHtmlEntities(Some(SubclauseSync.EncodeEntities(s))) == s
    ensures DecodeHtmlEntities(Some("&amp;lt;")) == "&lt;"
  {
    SubclauseSync.DecodeEncode(s);
    SubclauseSync.DecodesOnce();
  }

  // ---------------------------------------------------------------------
  // normalizeRuntime

  /** The lower-cased runtime text the classification reads. */
  function RuntimeText(raw: Option<string>): string
  {
    Lower(OrElse(raw, ""))
  }

  /** `normalizeRuntime(raw)`: the first rule whose words the lower-cased
      text holds names the runtime; otherwise the slug of the text. */
  function NormalizeRuntime(raw: Option<string>): (r: string)
    ensures IsSlug(r)
    ensures Includes(RuntimeText(raw), "node") ==> r == "node"
    ensures var t := RuntimeText(raw);
      && !Includes(t, "node") && !Includes(t, "yantra") && !Includes(t, "jint")
      && Includes(t, "js2il") && Includes(t, "compile") && !Includes(t, "execute")
      ==> r == "js2il-compile"
    ensures var t := RuntimeText(raw);
      !Includes(t, "node") && !Includes(t, "yantra") && !Includes(t, "jint") && !Includes(t, "js2il")
      ==> r == Slugify(raw)
  {
    RuntimeNamesAreSlugs();
    var text := RuntimeText(raw);
    if Includes(text, "node") then "node"
    else if Includes(text, "yantra") then "yantrajs"
    else if Includes(text, "jint") && Includes(text, "prepared") then "jint-execute-prepared"
    else if Includes(text, "jint") && Includes(text, "prepare") then "jint-prepare"
    else if Includes(text, "jint") then "jint"
    else if Includes(text, "js2il") && Includes(text, "execute") && Includes(text, "pre-compiled") then "js2il-execute"
    else if Includes(text, "js2il") && Includes(text, "execute") && Includes(text, "precompiled") then "js2il-execute"
    else if Includes(text, "js2il") && Includes(text, "compile") && Includes(text, "execute") then "js2il-total"
    else if Includes(text, "js2il") && Includes(text, "compile") then "js2il-compile"
    else if Includes(text, "js2il") && Includes(text, "execute") then "js2il-execute"
    else if Includes(text, "js2il") then "js2il"
    else Slugify(raw)
  }

  /** The fixed runtime names are slugs. */
  lemma RuntimeNamesAreSlugs()
    ensures IsSlug("node") && IsSlug("yantrajs") && IsSlug("jint-execute-prepared") && IsSlug("jint-prepare")
    ensures IsSlug("jint") && IsSlug("js2il-execute") && IsSlug("js2il-total") && IsSlug("js2il-compile") && IsSlug("js2il")
  {
    JintNamesAreSlugs();
    Js2ilNamesAreSlugs();
  }

  lemma JintNamesAreSlugs()
    ensures IsSlug("jint-execute-prepared") && IsSlug("jint-prepare")
  {
  }

  lemma Js2ilNamesAreSlugs()
    ensures IsSlug("js2il-execute") && IsSlug("js2il-total") && IsSlug("js2il-compile")
  {
  }

  // ---------------------------------------------------------------------
  // compactObject and createRow

  /** The values `compactObject` keeps: neither null, undefined nor "". */
  predicate Kept(v: Value)
  {
    v != Null && v != Undefined && v != Str("")
  }

  /** `compactObject(obj)`: the entries with a kept value. */
  function CompactObject(obj: JsObject): (r: JsObject)
    ensures forall k :: k in r <==> k in obj && Kept(obj[k])
    ensures forall k :: k in r ==> r[k] == obj[k]
  {
    map k | k in obj && Kept(obj[k]) :: obj[k]
  }

  /** Compacting twice is compacting once, and a compacted object holds
      no null, undefined or empty value. */
  lemma CompactObjectIdempotent(obj: JsObject)
    ensures CompactObject(CompactObject(obj)) == CompactObject(obj)
    ensures forall k :: k in CompactObject(obj) ==> Kept(CompactObject(obj)[k])
  {
  }

  /** The fields `createRow` always sets. */
  const RowFields: set<string> := {"source", "scenario", "runtime", "metric", "value", "unit", "run_at", "meta"}

  /** `createRow(...)`: the base context, then the host columns, then the
      row's own fields, each later one overriding an earlier key. */
  function CreateRow(base: JsObject, source: Value, scenario: Option<string>, runtime: Option<string>,
                     metric: Value, value: Value, unit: Value, runAt: Value, meta: Value,
                     hostColumns: JsObject): (row: JsObject)
    ensures row.Keys == base.Keys + hostColumns.Keys + RowFields
    ensures row["scenario"] == Str(Slugify(scenario)) && row["runtime"] == Str(NormalizeRuntime(runtime))
    ensures && row["source"] == source && row["metric"] == metric && row["value"] == value
            && row["unit"] == unit && row["run_at"] == runAt && row["meta"] == meta
    ensures forall k :: k in row && k !in RowFields ==>
              row[k] == (if k in hostColumns then hostColumns[k] else base[k])
  {
    base + hostColumns + OwnFields(source, Slugify(scenario), NormalizeRuntime(runtime), metric, value, unit, runAt, meta)
  }

  /** The fields a row sets after the spread ones. */
  function OwnFields(source: Value, scenario: string, runtime: string, metric: Value, value: Value,
                     unit: Value, runAt: Value, meta: Value): (m: JsObject)
    ensures m.Keys == RowFields
    ensures m["scenario"] == Str(scenario) && m["runtime"] == Str(runtime)
    ensures && m["source"] == source && m["metric"] == metric && m["value"] == value
            && m["unit"] == unit && m["run_at"] == runAt && m["meta"] == meta
  {
    map[
      "source" := source,
      "scenario" := Str(scenario),
      "runtime" := Str(runtime),
      "metric" := metric,
      "value" := value,
      "unit" := unit,
      "run_at" := runAt,
      "meta" := meta]
  }

  /** A row's scenario and runtime are slugs, and slugifying the scenario
      again changes nothing. */
  lemma RowNamesAreSlugs(base: JsObject, source: Value, scenario: Option<string>, runtime: Option<string>,
                         metric: Value, value: Value, unit: Value, runAt: Value, meta: Value, hostColumns: JsObject)
    ensures var row := CreateRow(base, source, scenario, runtime, metric, value, unit, runAt, meta, hostColumns);
      && row["scenario"].Str? && IsSlug(row["scenario"].s)
      && Slugify(Some(row["scenario"].s)) == row["scenario"].s
      && row["runtime"].Str? && IsSlug(row["runtime"].s)
  {
    SlugifyIdempotent(scenario);
  }
}
