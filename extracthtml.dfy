/** Extraction of one section's element from a saved ECMA-262 HTML page:
    the command line, the escaping of a tag name for a regular expression,
    reading a tag name, and the walk over same-name tags that finds the
    element's closing tag. */
module SectionHtml {
  import opened JsValues
  import opened Text
  import opened ScriptText

  // ---------------------------------------------------------------------
  // The command line
  // ---------------------------------------------------------------------

  datatype HtmlArgs = HtmlArgs(
    section: string, inFile: string, url: string, auto: bool, indexUrl: string,
    outFile: string, id: string, wrap: bool, baseHref: string, help: bool)

  const DefaultIndexUrl := "https://tc39.es/ecma262/multipage/"

  const DefaultArgs := HtmlArgs("", "", "", false, DefaultIndexUrl, "", "", true, "", false)

  /** The flags read so far and the arguments that were not flags. */
  datatype Scan = Scan(args: HtmlArgs, positionals: seq<string>)

  /** `argv[i] || ''`. */
  function ArgAt(argv: seq<string>, i: nat): string
  {
    if i < |argv| then argv[i] else ""
  }

  /** The text after a `--name=` prefix. */
  function After(p: string, a: string): string
    requires IsPrefix(p, a)
  {
    a[|p|..]
  }

  /** One argument `argv[i]` read onto `acc`: how many arguments it takes
      (a flag with a separate value takes two) and the scan after it; an
      argument that is no flag (unknown flags included) is kept as a
      positional. */
  function ScanOne(argv: seq<string>, i: nat, acc: Scan): (r: (nat, Scan))
    requires i < |argv|
    ensures 1 <= r.0 <= 2
    ensures |acc.positionals| <= |r.1.positionals|
  {
    var a := argv[i];
    var g := acc.args;
    if a == "--help" || a == "-h" then (1, acc.(args := g.(help := true)))
    else if a == "--section" || a == "-s" then (2, acc.(args := g.(section := ArgAt(argv, i + 1))))
    else if IsPrefix("--section=", a) then (1, acc.(args := g.(section := After("--section=", a))))
    else if a == "--in" || a == "-i" then (2, acc.(args := g.(inFile := ArgAt(argv, i + 1))))
    else if IsPrefix("--in=", a) then (1, acc.(args := g.(inFile := After("--in=", a))))
    else if a == "--url" || a == "-u" then (2, acc.(args := g.(url := ArgAt(argv, i + 1))))
    else if IsPrefix("--url=", a) then (1, acc.(args := g.(url := After("--url=", a))))
    else if a == "--auto" then (1, acc.(args := g.(auto := true)))
    else if a == "--index-url" then (2, acc.(args := g.(indexUrl := ArgAt(argv, i + 1))))
    else if IsPrefix("--index-url=", a) then (1, acc.(args := g.(indexUrl := After("--index-url=", a))))
    else if a == "--out" || a == "-o" then (2, acc.(args := g.(outFile := ArgAt(argv, i + 1))))
    else if IsPrefix("--out=", a) then (1, acc.(args := g.(outFile := After("--out=", a))))
    else if a == "--id" then (2, acc.(args := g.(id := ArgAt(argv, i + 1))))
    else if IsPrefix("--id=", a) then (1, acc.(args := g.(id := After("--id=", a))))
    else if a == "--wrap" then (1, acc.(args := g.(wrap := true)))
    else if a == "--no-wrap" then (1, acc.(args := g.(wrap := false)))
    else if a == "--base" then (2, acc.(args := g.(baseHref := ArgAt(argv, i + 1))))
    else if IsPrefix("--base=", a) then (1, acc.(args := g.(baseHref := After("--base=", a))))
    else (1, acc.(positionals := acc.positionals + [a]))
  }

  /** The flags read from `argv[i..]` onto `acc`, in order. */
  function ScanFrom(argv: seq<string>, i: nat, acc: Scan): (r: Scan)
    ensures |acc.positionals| <= |r.positionals|
    decreases |argv| - i
  {
    if i >= |argv| then acc
    else
      var step := ScanOne(argv, i, acc);
      ScanFrom(argv, i + step.0, step.1)
  }

  /** The positional fallback `[section, inFile, outFile]`, for the fields
      the flags left empty (the input only when no URL was given either). */
  function Fallback(s: Scan): (r: HtmlArgs)
    ensures r.section == (if s.args.section == "" && |s.positionals| >= 1 then s.positionals[0] else s.args.section)
    ensures r.inFile == (if s.args.inFile == "" && s.args.url == "" && |s.positionals| >= 2 then s.positionals[1] else s.args.inFile)
    ensures r.outFile == (if s.args.outFile == "" && |s.positionals| >= 3 then s.positionals[2] else s.args.outFile)
    ensures r.(section := s.args.section, inFile := s.args.inFile, outFile := s.args.outFile) == s.args
  {
    var g := s.args;
    var p := s.positionals;
    var g1 := if g.section == "" && |p| >= 1 then g.(section := p[0]) else g;
    var g2 := if g1.inFile == "" && g1.url == "" && |p| >= 2 then g1.(inFile := p[1]) else g1;
    if g2.outFile == "" && |p| >= 3 then g2.(outFile := p[2]) else g2
  }

  /** `parseArgs(argv)`. */
  function ParseArgsSpec(argv: seq<string>): HtmlArgs
  {
    Fallback(ScanFrom(argv, 2, Scan(DefaultArgs, [])))
  }

  /** `parseArgs(argv)`: the flag loop, then the positional fallback. */
  method ParseArgs(argv: seq<string>) returns (args: HtmlArgs)
    ensures args == ParseArgsSpec(argv)
  {
    var acc := Scan(DefaultArgs, []);
    var i := 2;
    while i < |argv|
      invariant ScanFrom(argv, i, acc) == ScanFrom(argv, 2, Scan(DefaultArgs, []))
      decreases |argv| - i
    {
      var a := argv[i];
      var g := acc.args;
      if a == "--help" || a == "-h" {
        acc := acc.(args := g.(help := true));
      } else if a == "--section" || a == "-s" {
        acc := acc.(args := g.(section := ArgAt(argv, i + 1)));
        i := i + 1;
      } else if IsPrefix("--section=", a) {
        acc := acc.(args := g.(section := After("--section=", a)));
      } else if a == "--in" || a == "-i" {
        acc := acc.(args := g.(inFile := ArgAt(argv, i + 1)));
        i := i + 1;
      } else if IsPrefix("--in=", a) {
        acc := acc.(args := g.(inFile := After("--in=", a)));
      } else if a == "--url" || a == "-u" {
        acc := acc.(args := g.(url := ArgAt(argv, i + 1)));
        i := i + 1;
      } else if IsPrefix("--url=", a) {
        acc := acc.(args := g.(url := After("--url=", a)));
      } else if a == "--auto" {
        acc := acc.(args := g.(auto := true));
      } else if a == "--index-url" {
        acc := acc.(args := g.(indexUrl := ArgAt(argv, i + 1)));
        i := i + 1;
      } else if IsPrefix("--index-url=", a) {
        acc := acc.(args := g.(indexUrl := After("--index-url=", a)));
      } else if a == "--out" || a == "-o" {
        acc := acc.(args := g.(outFile := ArgAt(argv, i + 1)));
        i := i + 1;
      } else if IsPrefix("--out=", a) {
        acc := acc.(args := g.(outFile := After("--out=", a)));
      } else if a == "--id" {
        acc := acc.(args := g.(id := ArgAt(argv, i + 1)));
        i := i + 1;
      } else if IsPrefix("--id=", a) {
        acc := acc.(args := g.(id := After("--id=", a)));
      } else if a == "--wrap" {
        acc := acc.(args := g.(wrap := true));
      } else if a == "--no-wrap" {
        acc := acc.(args := g.(wrap := false));
      } else if a == "--base" {
        acc := acc.(args := g.(baseHref := ArgAt(argv, i + 1)));
        i := i + 1;
      } else if IsPrefix("--base=", a) {
        acc := acc.(args := g.(baseHref := After("--base=", a)));
      } else {
        acc := acc.(positionals := acc.positionals + [a]);
      }
      i := i + 1;
    }
    args := Fallback(acc);
  }

  /** An argument that does not start with '-' is no flag. */
  predicate IsPlain(a: string)
  {
    |a| == 0 || a[0] != '-'
  }

  lemma PlainIsPositional(argv: seq<string>, i: nat, acc: Scan)
    requires i < |argv| && IsPlain(argv[i])
    ensures ScanFrom(argv, i, acc) == ScanFrom(argv, i + 1, acc.(positionals := acc.positionals + [argv[i]]))
  {
    var a := argv[i];
    assert |a| > 0 ==> a[0] != '-';
    assert !IsPrefix("--section=", a) && !IsPrefix("--in=", a) && !IsPrefix("--url=", a);
    assert !IsPrefix("--index-url=", a) && !IsPrefix("--out=", a) && !IsPrefix("--id=", a) && !IsPrefix("--base=", a);
  }

  /** Three plain arguments after the script name are collected as
      positionals, and no flag is set. */
  lemma ThreePlainScanned(argv: seq<string>)
    requires |argv| == 5 && IsPlain(argv[2]) && IsPlain(argv[3]) && IsPlain(argv[4])
    ensures ScanFrom(argv, 2, Scan(DefaultArgs, [])) == Scan(DefaultArgs, [argv[2], argv[3], argv[4]])
  {
    var s0 := Scan(DefaultArgs, []);
    var s1 := s0.(positionals := s0.positionals + [argv[2]]);
    var s2 := s1.(positionals := s1.positionals + [argv[3]]);
    var s3 := s2.(positionals := s2.positionals + [argv[4]]);
    assert s3.positionals == [argv[2], argv[3], argv[4]];
    assert ScanFrom(argv, 2, s0) == ScanFrom(argv, 3, s1) by { PlainIsPositional(argv, 2, s0); }
    assert ScanFrom(argv, 3, s1) == ScanFrom(argv, 4, s2) by { PlainIsPositional(argv, 3, s1); }
    assert ScanFrom(argv, 4, s2) == ScanFrom(argv, 5, s3) by { PlainIsPositional(argv, 4, s2); }
  }

  /** `node script.js 27.3 input.html output.html`: the three plain
      arguments are the section, the input and the output. */
  lemma PositionalFallback(argv: seq<string>)
    requires |argv| == 5 && IsPlain(argv[2]) && IsPlain(argv[3]) && IsPlain(argv[4])
    ensures var r := ParseArgsSpec(argv);
      r.section == argv[2] && r.inFile == argv[3] && r.outFile == argv[4] && r.url == "" && r.wrap
  {
    ThreePlainScanned(argv);
  }

  /** A flag wins over a positional argument: `--section x 27.3` keeps x
      and takes 27.3 as the input file. */
  lemma FlagBeatsPositional(node: string, script: string, x: string, p: string)
    requires x != "" && IsPlain(p)
    ensures var r := ParseArgsSpec([node, script, "--section", x, p]);
      r.section == x && r.inFile == "" && r.outFile == ""
  {
    var argv := [node, script, "--section", x, p];
    var s1 := Scan(DefaultArgs.(section := x), []);
    assert ScanFrom(argv, 2, Scan(DefaultArgs, [])) == ScanFrom(argv, 4, s1);
    PlainIsPositional(argv, 4, s1);
  }

  // ---------------------------------------------------------------------
  // Escaping for a regular expression
  // ---------------------------------------------------------------------

  /** The characters `escapeRegExp` escapes: `. * + ? ^ $ { } ( ) | [ ] \`. */
  predicate IsRegExpMeta(c: char)
  {
    c == '.' || c == '*' || c == '+' || c == '?' || c == '^' || c == '$' || c == '{' || c == '}'
    || c == '(' || c == ')' || c == '|' || c == '[' || c == ']' || c == '\\'
  }

  /** `escapeRegExp(text)`: a backslash before every metacharacter. */
  function EscapeRegExp(s: string): (r: string)
    ensures |r| >= |s|
  {
    if |s| == 0 then ""
    else (if IsRegExpMeta(s[0]) then ['\\', s[0]] else [s[0]]) + EscapeRegExp(s[1..])
  }

  /** The text a pattern made only of literal characters and escaped
      metacharacters matches; `None` for a pattern with a bare
      metacharacter. */
  function LiteralText(p: string): (r: Option<string>)
    decreases |p|
  {
    if |p| == 0 then Some("")
    else if p[0] == '\\' then
      if |p| >= 2 && IsRegExpMeta(p[1]) then
        var rest := LiteralText(p[2..]);
        if rest.Some? then Some([p[1]] + rest.value) else None
      else None
    else if IsRegExpMeta(p[0]) then None
    else
      var rest := LiteralText(p[1..]);
      if rest.Some? then Some([p[0]] + rest.value) else None
  }

  /** The escaped text is a literal pattern that matches exactly the text. */
  lemma {:induction false} EscapeRegExpIsLiteral(s: string)
    ensures LiteralText(EscapeRegExp(s)) == Some(s)
    decreases |s|
  {
    if |s| > 0 {
      EscapeRegExpIsLiteral(s[1..]);
      var rest := EscapeRegExp(s[1..]);
      if IsRegExpMeta(s[0]) {
        var p := ['\\', s[0]] + rest;
        assert p[2..] == rest;
      } else {
        var p := [s[0]] + rest;
        assert p[1..] == rest;
      }
      assert s == [s[0]] + s[1..];
    }
  }

  // ---------------------------------------------------------------------
  // Tag names
  // ---------------------------------------------------------------------

  /** The characters that end a tag name. */
  predicate IsTagStop(c: char)
  {
    c == ' ' || c == '\t' || c == '\r' || c == '\n' || c == '>' || c == '/'
  }

  /** Where the name of the tag at `tagStart` begins: after "<" or "</". */
  function NameStart(html: string, tagStart: nat): (r: nat)
    requires tagStart < |html|
    ensures tagStart < r <= |html|
  {
    if tagStart + 1 < |html| && html[tagStart + 1] == '/' then tagStart + 2 else tagStart + 1
  }

  /** The number of name characters from `i` on. */
  function NameRun(html: string, i: nat): (n: nat)
    requires i <= |html|
    ensures i + n <= |html|
    ensures forall k :: i <= k < i + n ==> !IsTagStop(html[k])
    ensures i + n == |html| || IsTagStop(html[i + n])
    decreases |html| - i
  {
    if i == |html| || IsTagStop(html[i]) then 0 else 1 + NameRun(html, i + 1)
  }

  /** The tag name at `tagStart`, "" when there is no '<' there. */
  function TagNameAt(html: string, tagStart: int): (r: string)
    ensures forall k :: 0 <= k < |r| ==> !IsTagStop(r[k])
    ensures 0 <= tagStart < |html| && html[tagStart] == '<' ==>
      var ns := NameStart(html, tagStart);
      ns + |r| <= |html| && html[ns..ns + |r|] == r && (ns + |r| == |html| || IsTagStop(html[ns + |r|]))
    ensures !(0 <= tagStart < |html| && html[tagStart] == '<') ==> r == ""
  {
    if tagStart < 0 || tagStart >= |html| || html[tagStart] != '<' then ""
    else
      var ns := NameStart(html, tagStart);
      html[ns..ns + NameRun(html, ns)]
  }

  /** `findTagNameAt(html, tagStart)`: scans the name characters after "<"
      or "</" up to white space, '>' or '/'. */
  method FindTagNameAt(html: string, tagStart: int) returns (r: string)
    ensures r == TagNameAt(html, tagStart)
  {
    if tagStart < 0 || tagStart >= |html| || html[tagStart] != '<' {
      return "";
    }
    var afterLt := tagStart + 1;
    var slash := afterLt < |html| && html[afterLt] == '/';
    var nameStart := if slash then afterLt + 1 else afterLt;
    var i := nameStart;
    while i < |html|
      invariant nameStart <= i <= |html|
      invariant NameRun(html, nameStart) == (i - nameStart) + NameRun(html, i)
      decreases |html| - i
    {
      var ch := html[i];
      if ch == ' ' || ch == '\t' || ch == '\r' || ch == '\n' || ch == '>' || ch == '/' {
        break;
      }
      i := i + 1;
    }
    r := html[nameStart..i];
  }

  // ---------------------------------------------------------------------
  // Same-name tags and the element's extent
  // ---------------------------------------------------------------------

  /** A match of `<\/?name\b[^>]*>`: where it starts and ends, and whether
      it is a closing tag. */
  datatype TagMatch = TagMatch(start: nat, end: nat, close: bool)

  /** `\b` at `e`: a word character on exactly one side. */
  predicate WordBoundary(html: string, e: nat)
    requires 0 < e <= |html|
  {
    IsWordChar(html[e - 1]) != (e < |html| && IsWordChar(html[e]))
  }

  /** The name matches `html` from `q` on, ignoring ASCII case. */
  predicate NameMatchAt(html: string, q: nat, name: string)
    decreases |name|
  {
    |name| == 0 || (q < |html| && LowerChar(html[q]) == LowerChar(name[0]) && NameMatchAt(html, q + 1, name[1..]))
  }

  /** `[^>]*>` from `i`: the index just after the first '>'. */
  function SkipToGt(html: string, i: nat): (r: Option<nat>)
    ensures r.Some? ==> i < r.value <= |html|
    decreases |html| - i
  {
    if i >= |html| then None else if html[i] == '>' then Some(i + 1) else SkipToGt(html, i + 1)
  }

  /** The match of the tag pattern at `p`, if any: '<', an optional '/',
      the name in any case, a word boundary, then up to the first '>'. */
  function TagAt(html: string, p: nat, name: string): (r: Option<TagMatch>)
    requires |name| > 0
    ensures r.Some? ==> r.value.start == p && p < r.value.end <= |html|
  {
    if p >= |html| || html[p] != '<' then None
    else
      var close := p + 1 < |html| && html[p + 1] == '/';
      var q := if close then p + 2 else p + 1;
      var e := q + |name|;
      if e > |html| || !NameMatchAt(html, q, name) || !WordBoundary(html, e) then None
      else
        var gt := SkipToGt(html, e);
        if gt.None? then None else Some(TagMatch(p, gt.value, close))
  }

  /** `tagRe.exec(html)` with `lastIndex == pos`: the leftmost match at or
      after `pos`. */
  function NextTag(html: string, name: string, pos: nat): (r: Option<TagMatch>)
    requires |name| > 0
    ensures r.Some? ==> pos <= r.value.start < r.value.end <= |html|
    decreases |html| - pos
  {
    if pos >= |html| then None
    else if TagAt(html, pos, name).Some? then TagAt(html, pos, name)
    else NextTag(html, name, pos + 1)
  }

  /** The match found is a match of the pattern, and the leftmost one at
      or after `pos`; with none found, there is none. */
  lemma {:induction false} NextTagIsLeftmost(html: string, name: string, pos: nat)
    requires |name| > 0
    ensures var r := NextTag(html, name, pos);
      r.Some? ==> TagAt(html, r.value.start, name) == r && forall p :: pos <= p < r.value.start ==> TagAt(html, p, name).None?
    ensures NextTag(html, name, pos).None? ==> forall p :: pos <= p ==> TagAt(html, p, name).None?
    decreases |html| - pos
  {
    if pos >= |html| {
      assert forall p :: pos <= p ==> TagAt(html, p, name).None?;
    } else {
      var t := TagAt(html, pos, name);
      if t.None? {
        assert NextTag(html, name, pos) == NextTag(html, name, pos + 1);
        NextTagIsLeftmost(html, name, pos + 1);
      } else {
        assert NextTag(html, name, pos) == t && t.value.start == pos;
      }
    }
  }

  /** The successive matches from `pos` on, each search starting where
      the previous match ended. */
  function Matches(html: string, name: string, pos: nat): seq<TagMatch>
    requires |name| > 0
    decreases |html| - pos
  {
    var m := NextTag(html, name, pos);
    if m.None? then [] else [m.value] + Matches(html, name, m.value.end)
  }

  /** The matches lie in the text from `pos` on, in order, the first being
      the leftmost. */
  lemma {:induction false} MatchesInOrder(html: string, name: string, pos: nat)
    requires |name| > 0
    ensures var ms := Matches(html, name, pos);
      forall k :: 0 <= k < |ms| ==> pos <= ms[k].start < ms[k].end <= |html|
    ensures var ms := Matches(html, name, pos);
      |ms| > 0 ==> NextTag(html, name, pos).Some? && ms[0] == NextTag(html, name, pos).value
    ensures var ms := Matches(html, name, pos);
      forall k :: 0 <= k < |ms| ==> ms[0].start <= ms[k].start
    decreases |html| - pos
  {
    var m := NextTag(html, name, pos);
    if m.Some? {
      MatchesInOrder(html, name, m.value.end);
    }
  }

  /** Opening tags count +1, closing tags -1. */
  function Balance(ms: seq<TagMatch>): int
  {
    if |ms| == 0 then 0 else (if ms[0].close then -1 else 1) + Balance(ms[1..])
  }

  /** The depth change over the matches `ms[k..e]`. */
  function Depth(ms: seq<TagMatch>, k: nat, e: nat): int
    requires k <= e <= |ms|
  {
    Balance(ms[k..e])
  }

  lemma DepthStep(ms: seq<TagMatch>, k: nat, e: nat)
    requires k < e <= |ms|
    ensures Depth(ms, k, e) == (if ms[k].close then -1 else 1) + Depth(ms, k + 1, e)
  {
    assert ms[k..e][0] == ms[k];
    assert ms[k..e][1..] == ms[k + 1..e];
  }

  /** The first closing match, from index `k` on, at which the depth
      (starting from `depth`) returns to 0. */
  function FirstZeroFrom(ms: seq<TagMatch>, k: nat, depth: int): (r: Option<nat>)
    requires k <= |ms|
    ensures r.Some? ==> k <= r.value < |ms|
    decreases |ms| - k
  {
    if k == |ms| then None
    else
      var d := depth + (if ms[k].close then -1 else 1);
      if ms[k].close && d == 0 then Some(k) else FirstZeroFrom(ms, k + 1, d)
  }

  /** Past a match that does not end the element, the walk goes on from
      the next one with the updated depth. */
  lemma FirstZeroStep(ms: seq<TagMatch>, k: nat, depth: int)
    requires k < |ms|
    requires !(ms[k].close && depth - 1 == 0)
    ensures FirstZeroFrom(ms, k, depth) == FirstZeroFrom(ms, k + 1, depth + (if ms[k].close then -1 else 1))
  {
  }

  /** The match found is a closing one that brings the depth to 0, and no
      closing match before it does; with none found, no closing match does. */
  lemma {:induction false} FirstZeroFromIsFirst(ms: seq<TagMatch>, k: nat, depth: int)
    requires k <= |ms|
    ensures var r := FirstZeroFrom(ms, k, depth);
      r.Some? ==> (k <= r.value < |ms| && ms[r.value].close && depth + Depth(ms, k, r.value + 1) == 0)
    ensures var r := FirstZeroFrom(ms, k, depth);
      r.Some? ==> forall e :: k < e <= r.value && ms[e - 1].close ==> depth + Depth(ms, k, e) != 0
    ensures FirstZeroFrom(ms, k, depth).None? ==> forall e :: k < e <= |ms| && ms[e - 1].close ==> depth + Depth(ms, k, e) != 0
    decreases |ms| - k
  {
    if k < |ms| {
      var d := depth + (if ms[k].close then -1 else 1);
      forall e | k < e <= |ms|
        ensures Depth(ms, k, e) == (if ms[k].close then -1 else 1) + Depth(ms, k + 1, e)
      {
        DepthStep(ms, k, e);
      }
      assert Depth(ms, k + 1, k + 1) == 0;
      if !(ms[k].close && d == 0) {
        FirstZeroFromIsFirst(ms, k + 1, d);
      }
    }
  }

  /** One step of the walk: the next match is the next element of the list. */
  lemma MatchesStep(html: string, name: string, pos: nat, ms: seq<TagMatch>, k: nat)
    requires |name| > 0 && k <= |ms| && Matches(html, name, pos) == ms[k..]
    ensures NextTag(html, name, pos).None? ==> k == |ms|
    ensures NextTag(html, name, pos).Some? ==>
      (k < |ms| && ms[k] == NextTag(html, name, pos).value && Matches(html, name, ms[k].end) == ms[k + 1..])
  {
    if NextTag(html, name, pos).Some? {
      assert ms[k..][0] == ms[k];
      assert ms[k..][1..] == ms[k + 1..];
    }
  }

  /** The walk of `extractElementById` over the same-name tags from
      `tagStart`: the text from the first match to the end of the first
      closing match at which the depth is 0 again. */
  function ElementFrom(html: string, name: string, tagStart: nat): (r: Attempt<string>)
    requires |name| > 0
  {
    var ms := Matches(html, name, tagStart);
    var k := FirstZeroFrom(ms, 0, 0);
    MatchesInOrder(html, name, tagStart);
    if k.None? then Throws else Returns(html[ms[0].start..ms[k.value].end])
  }

  /** A walk over `ms` finds a closing match exactly when one brings the
      depth back to 0, and then it finds the first. */
  lemma FirstZeroIsFirstBalanced(ms: seq<TagMatch>)
    ensures FirstZeroFrom(ms, 0, 0).Some? <==> exists e :: 0 < e <= |ms| && ms[e - 1].close && Depth(ms, 0, e) == 0
    ensures FirstZeroFrom(ms, 0, 0).Some? ==>
      var e := FirstZeroFrom(ms, 0, 0).value + 1;
      ms[e - 1].close && Depth(ms, 0, e) == 0 && forall e' :: 0 < e' < e && ms[e' - 1].close ==> Depth(ms, 0, e') != 0
  {
    FirstZeroFromIsFirst(ms, 0, 0);
    var z := FirstZeroFrom(ms, 0, 0);
    if z.Some? {
      var e := z.value + 1;
      assert 0 < e <= |ms| && ms[e - 1].close && Depth(ms, 0, e) == 0;
    }
  }

  /** The element is found exactly when some closing match brings the
      depth back to 0, and it then ends at the first such match. */
  lemma ElementFromIsBalanced(html: string, name: string, tagStart: nat)
    requires |name| > 0
    ensures var ms := Matches(html, name, tagStart);
      ElementFrom(html, name, tagStart).Returns? <==> exists e :: 0 < e <= |ms| && ms[e - 1].close && Depth(ms, 0, e) == 0
    ensures var ms := Matches(html, name, tagStart);
      ElementFrom(html, name, tagStart).Returns? ==>
        exists e :: 0 < e <= |ms| && ms[e - 1].close && Depth(ms, 0, e) == 0
          && (forall e' :: 0 < e' < e && ms[e' - 1].close ==> Depth(ms, 0, e') != 0)
          && tagStart <= ms[0].start <= ms[e - 1].end <= |html|
          && ElementFrom(html, name, tagStart).value == html[ms[0].start..ms[e - 1].end]
  {
    var ms := Matches(html, name, tagStart);
    MatchesInOrder(html, name, tagStart);
    FirstZeroIsFirstBalanced(ms);
    var z := FirstZeroFrom(ms, 0, 0);
    if z.Some? {
      var e := z.value + 1;
      assert ElementFrom(html, name, tagStart).value == html[ms[0].start..ms[e - 1].end];
    }
  }

  /** The depth-counting loop of `extractElementById`, from the tag that
      carries the id. */
  method WalkSameNameTags(html: string, tagName: string, tagStart: nat) returns (r: Attempt<string>)
    requires |tagName| > 0
    ensures r == ElementFrom(html, tagName, tagStart)
  {
    ghost var ms := Matches(html, tagName, tagStart);
    ghost var k := 0;
    var pos := tagStart;
    var depth := 0;
    var startIndex := -1;
    while true
      invariant k <= |ms| && Matches(html, tagName, pos) == ms[k..]
      invariant FirstZeroFrom(ms, k, depth) == FirstZeroFrom(ms, 0, 0)
      invariant startIndex == (if k == 0 then -1 else ms[0].start)
      decreases |html| - pos
    {
      var m := NextTag(html, tagName, pos);
      MatchesStep(html, tagName, pos, ms, k);
      if m.None? {
        assert FirstZeroFrom(ms, k, depth) == None;
        break;
      }
      if startIndex < 0 {
        startIndex := m.value.start;
      }
      ghost var d0 := depth;
      if m.value.close {
        depth := depth - 1;
        if depth == 0 {
          MatchesInOrder(html, tagName, tagStart);
          assert FirstZeroFrom(ms, 0, 0) == Some(k);
          assert startIndex == ms[0].start && m.value.end == ms[k].end;
          return Returns(html[startIndex..m.value.end]);
        }
      } else {
        depth := depth + 1;
      }
      FirstZeroStep(ms, k, d0);
      pos := m.value.end;
      k := k + 1;
    }
    return Throws;
  }

  /** `id="…"` and `id='…'`. */
  function IdAttr(elementId: string, quote: char): string
  {
    "id=" + [quote] + elementId + [quote]
  }

  /** Where the id attribute is: the first `id="…"`, else the first `id='…'`, else -1. */
  function IdIndex(html: string, elementId: string): (r: int)
    ensures r == -1 <==> (forall i :: !OccursAt(html, IdAttr(elementId, '"'), i)) && (forall i :: !OccursAt(html, IdAttr(elementId, '\''), i))
    ensures r >= 0 ==> r < |html|
  {
    var d := IndexOf(html, IdAttr(elementId, '"'), 0);
    if d >= 0 then d else IndexOf(html, IdAttr(elementId, '\''), 0)
  }

  /** Where the walk starts: the last '<' at or before the id attribute,
      or -1 when there is no id attribute or no '<' before it. */
  function IdTagStart(html: string, elementId: string): (r: int)
    ensures -1 <= r < |html|
    ensures r >= 0 ==>
      var id := IdIndex(html, elementId);
      0 <= r <= id && html[r] == '<' && forall j :: r < j <= id ==> html[j] != '<'
    ensures r < 0 ==>
      var id := IdIndex(html, elementId);
      forall j :: 0 <= j <= id ==> html[j] != '<'
  {
    var id := IdIndex(html, elementId);
    if id < 0 then -1 else LastIndexOfChar(html[..id + 1], '<')
  }

  /** `extractElementById(html, elementId)`: from the '<' before the id
      attribute, the element whose tag is found there. */
  function ExtractSpec(html: string, elementId: string): (r: Attempt<string>)
    ensures IdIndex(html, elementId) < 0 || IdTagStart(html, elementId) < 0 ==> r == Throws
    ensures r.Returns? ==>
      var tagStart := IdTagStart(html, elementId);
      0 <= tagStart && |TagNameAt(html, tagStart)| > 0 && r == ElementFrom(html, TagNameAt(html, tagStart), tagStart)
  {
    var tagStart := IdTagStart(html, elementId);
    if tagStart < 0 then Throws
    else
      var name := TagNameAt(html, tagStart);
      if name == "" then Throws else ElementFrom(html, name, tagStart)
  }

  /** When the tag at `tagStart` matches the tag pattern, the element the
      walk finds starts there and extends at least to that tag's '>'. */
  lemma ElementStartsAtTag(html: string, name: string, tagStart: nat)
    requires |name| > 0 && TagAt(html, tagStart, name).Some?
    ensures ElementFrom(html, name, tagStart).Returns? ==>
      var v := ElementFrom(html, name, tagStart).value;
      && TagAt(html, tagStart, name).value.end <= tagStart + |v| <= |html|
      && v == html[tagStart..tagStart + |v|]
  {
    var ms := Matches(html, name, tagStart);
    var m := TagAt(html, tagStart, name).value;
    assert NextTag(html, name, tagStart) == Some(m);
    assert ms == [m] + Matches(html, name, m.end);
    MatchesInOrder(html, name, m.end);
    var z := FirstZeroFrom(ms, 0, 0);
    if z.Some? {
      var k := z.value;
      assert m.end <= ms[k].end <= |html| by {
        if k > 0 {
          assert ms[k] == Matches(html, name, m.end)[k - 1];
        }
      }
    }
  }

  /** The element extracted for an id starts at the '<' of the tag that
      carries the id attribute, when that tag is well formed, so the id
      attribute lies inside the extracted text. */
  lemma ExtractedElementHoldsId(html: string, elementId: string)
    requires ExtractSpec(html, elementId).Returns?
    ensures var id := IdIndex(html, elementId);
      var tagStart := IdTagStart(html, elementId);
      var v := ExtractSpec(html, elementId).value;
      TagAt(html, tagStart, TagNameAt(html, tagStart)).Some? ==>
        && tagStart + |v| <= |html| && v == html[tagStart..tagStart + |v|]
        && ((forall j :: tagStart < j <= id ==> html[j] != '>') ==> id < tagStart + |v|)
  {
    var id := IdIndex(html, elementId);
    var tagStart := IdTagStart(html, elementId);
    var name := TagNameAt(html, tagStart);
    if TagAt(html, tagStart, name).Some? {
      ElementStartsAtTag(html, name, tagStart);
      if forall j :: tagStart < j <= id ==> html[j] != '>' {
        TagEndsPastGt(html, name, tagStart, id);
      }
    }
  }

  /** `[^>]*>` stops at the first '>'. */
  lemma {:induction false} SkipToGtIsFirst(html: string, i: nat)
    ensures SkipToGt(html, i).Some? ==>
      var g := SkipToGt(html, i).value;
      html[g - 1] == '>' && forall j :: i <= j < g - 1 ==> html[j] != '>'
    decreases |html| - i
  {
    if i < |html| && html[i] != '>' {
      SkipToGtIsFirst(html, i + 1);
    }
  }

  /** A matched tag runs past any position before which, from its '<' on,
      there is no '>'. */
  lemma TagEndsPastGt(html: string, name: string, tagStart: nat, at: nat)
    requires |name| > 0 && TagAt(html, tagStart, name).Some?
    requires tagStart <= at < |html|
    requires forall j :: tagStart < j <= at ==> html[j] != '>'
    ensures at < TagAt(html, tagStart, name).value.end
  {
    var close := tagStart + 1 < |html| && html[tagStart + 1] == '/';
    var q := if close then tagStart + 2 else tagStart + 1;
    var e := q + |name|;
    SkipToGtIsFirst(html, e);
  }

  /** `extractElementById(html, elementId)`. */
  method ExtractElementById(html: string, elementId: string) returns (r: Attempt<string>)
    ensures r == ExtractSpec(html, elementId)
  {
    var idIndex := IndexOf(html, IdAttr(elementId, '"'), 0);
    if idIndex < 0 {
      idIndex := IndexOf(html, IdAttr(elementId, '\''), 0);
    }
    if idIndex < 0 {
      return Throws;
    }
    assert idIndex == IdIndex(html, elementId);
    var tagStart := LastIndexOfChar(html[..idIndex + 1], '<');
    assert tagStart == IdTagStart(html, elementId);
    if tagStart < 0 {
      return Throws;
    }
    var tagName := FindTagNameAt(html, tagStart);
    if tagName == "" {
      return Throws;
    }
    r := WalkSameNameTags(html, tagName, tagStart);
  }
}
