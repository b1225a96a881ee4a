/** The bounded differential test harness that runs every corpus program
    with Node.js and, compiled, with .NET: its arguments, the normalisation
    of standard output, the extraction of the JavaScript error from a
    trace, and the verdict for one program. Running the processes is not
    modelled; their results are inputs. */
module DifferentialTest {
  import opened JsValues
  import opened Text
  import opened ScriptText

  // ---------------------------------------------------------------------
  // Arguments

  /** A JavaScript number produced by `Number(text)`, for the integer
      forms of numeric text. */
  datatype Num = Finite(n: int) | NotANumber

  /** `Number(text)`: white space around the text is ignored, blank text
      is 0, an optionally signed run of decimal digits is its value, and
      any other text is NaN. */
  function ToNumber(s: string): (r: Num)
    ensures IsDigits(s) ==> r == Finite(DigitsToNat(s))
  {
    var t := JsTrim(s);
    if IsDigits(s) then
      JsTrimKeepsTrimmed(s);
      Finite(DigitsToNat(t))
    else if |t| == 0 then Finite(0)
    else if t[0] == '-' && IsDigits(t[1..]) then Finite(0 - DigitsToNat(t[1..]))
    else if t[0] == '+' && IsDigits(t[1..]) then Finite(DigitsToNat(t[1..]))
    else if IsDigits(t) then Finite(DigitsToNat(t))
    else NotANumber
  }

  /** `x * 2`: NaN stays NaN. */
  function Twice(x: Num): (r: Num)
    ensures r.NotANumber? <==> x.NotANumber?
    ensures x.Finite? ==> r.n == x.n + x.n
  {
    match x
    case Finite(n) => Finite(2 * n)
    case NotANumber => NotANumber
  }

  /** The options object; `compileTimeout` is `None` (null) until the
      default is filled in. */
  datatype DiffArgs = DiffArgs(
    corpus: string,
    timeout: Num,
    compileTimeout: Option<Num>,
    generate: Num,
    seed: Num,
    output: Option<string>,
    js2il: Option<string>,
    verbose: bool)

  /** The defaults: the corpus beside the script, 10 seconds per run, no
      generated programs, seed 42. */
  function Defaults(defaultCorpus: string): DiffArgs
  {
    DiffArgs(defaultCorpus, Finite(10), None, Finite(0), Finite(42), None, None, false)
  }

  /** `argv[i + 1]` is truthy: there is a next argument and it is not empty. */
  predicate HasValue(argv: seq<string>, i: nat)
  {
    i + 1 < |argv| && argv[i + 1] != ""
  }

  /** The flags that take a value. */
  predicate IsValueFlag(a: string)
  {
    a == "--corpus" || a == "-c" || a == "--timeout" || a == "-t" || a == "--compile-timeout"
    || a == "--generate" || a == "-g" || a == "--seed" || a == "-s" || a == "--output" || a == "-o"
    || a == "--js2il" || a == "-j"
  }

  /** The flag loop from argument `i` on: a value flag with a value binds
      it and skips it, `--verbose` sets the flag, and everything else,
      including a value flag without a value, is passed over. */
  function ScanFrom(argv: seq<string>, i: nat, acc: DiffArgs): DiffArgs
    decreases |argv| - i
  {
    if i >= |argv| then acc
    else
      var a := argv[i];
      if (a == "--corpus" || a == "-c") && HasValue(argv, i) then ScanFrom(argv, i + 2, acc.(corpus := argv[i + 1]))
      else if (a == "--timeout" || a == "-t") && HasValue(argv, i) then ScanFrom(argv, i + 2, acc.(timeout := ToNumber(argv[i + 1])))
      else if a == "--compile-timeout" && HasValue(argv, i) then ScanFrom(argv, i + 2, acc.(compileTimeout := Some(ToNumber(argv[i + 1]))))
      else if (a == "--generate" || a == "-g") && HasValue(argv, i) then ScanFrom(argv, i + 2, acc.(generate := ToNumber(argv[i + 1])))
      else if (a == "--seed" || a == "-s") && HasValue(argv, i) then ScanFrom(argv, i + 2, acc.(seed := ToNumber(argv[i + 1])))
      else if (a == "--output" || a == "-o") && HasValue(argv, i) then ScanFrom(argv, i + 2, acc.(output := Some(argv[i + 1])))
      else if (a == "--js2il" || a == "-j") && HasValue(argv, i) then ScanFrom(argv, i + 2, acc.(js2il := Some(argv[i + 1])))
      else if a == "--verbose" || a == "-v" then ScanFrom(argv, i + 1, acc.(verbose := true))
      else ScanFrom(argv, i + 1, acc)
  }

  /** `parseArgs(argv)`: the flag loop, then the compile timeout defaults
      to twice the execution timeout. */
  function ParseArgsSpec(argv: seq<string>, defaultCorpus: string): DiffArgs
  {
    var a := ScanFrom(argv, 0, Defaults(defaultCorpus));
    if a.compileTimeout.None? then a.(compileTimeout := Some(Twice(a.timeout))) else a
  }

  /** `parseArgs(argv)`, with its index loop. */
  method ParseArgs(argv: seq<string>, defaultCorpus: string) returns (args: DiffArgs)
    ensures args == ParseArgsSpec(argv, defaultCorpus)
    ensures args.compileTimeout.Some?
  {
    args := Defaults(defaultCorpus);
    var i := 0;
    while i < |argv|
      invariant ScanFrom(argv, i, args) == ScanFrom(argv, 0, Defaults(defaultCorpus))
      decreases |argv| - i
    {
      var a := argv[i];
      if (a == "--corpus" || a == "-c") && HasValue(argv, i) {
        i := i + 1;
        args := args.(corpus := argv[i]);
      } else if (a == "--timeout" || a == "-t") && HasValue(argv, i) {
        i := i + 1;
        args := args.(timeout := ToNumber(argv[i]));
      } else if a == "--compile-timeout" && HasValue(argv, i) {
        i := i + 1;
        args := args.(compileTimeout := Some(ToNumber(argv[i])));
      } else if (a == "--generate" || a == "-g") && HasValue(argv, i) {
        i := i + 1;
        args := args.(generate := ToNumber(argv[i]));
      } else if (a == "--seed" || a == "-s") && HasValue(argv, i) {
        i := i + 1;
        args := args.(seed := ToNumber(argv[i]));
      } else if (a == "--output" || a == "-o") && HasValue(argv, i) {
        i := i + 1;
        args := args.(output := Some(argv[i]));
      } else if (a == "--js2il" || a == "-j") && HasValue(argv, i) {
        i := i + 1;
        args := args.(js2il := Some(argv[i]));
      } else if a == "--verbose" || a == "-v" {
        args := args.(verbose := true);
      }
      i := i + 1;
    }
    if args.compileTimeout.None? {
      args := args.(compileTimeout := Some(Twice(args.timeout)));
    }
  }

  /** Without a `--compile-timeout` argument the scan never sets the
      compile timeout. */
  lemma {:induction false} ScanKeepsCompileTimeout(argv: seq<string>, i: nat, acc: DiffArgs)
    requires forall j :: i <= j < |argv| ==> argv[j] != "--compile-timeout"
    ensures ScanFrom(argv, i, acc).compileTimeout == acc.compileTimeout
    decreases |argv| - i
  {
    if i < |argv| {
      var a := argv[i];
      if (a == "--corpus" || a == "-c") && HasValue(argv, i) {
        ScanKeepsCompileTimeout(argv, i + 2, acc.(corpus := argv[i + 1]));
      } else if (a == "--timeout" || a == "-t") && HasValue(argv, i) {
        ScanKeepsCompileTimeout(argv, i + 2, acc.(timeout := ToNumber(argv[i + 1])));
      } else if (a == "--generate" || a == "-g") && HasValue(argv, i) {
        ScanKeepsCompileTimeout(argv, i + 2, acc.(generate := ToNumber(argv[i + 1])));
      } else if (a == "--seed" || a == "-s") && HasValue(argv, i) {
        ScanKeepsCompileTimeout(argv, i + 2, acc.(seed := ToNumber(argv[i + 1])));
      } else if (a == "--output" || a == "-o") && HasValue(argv, i) {
        ScanKeepsCompileTimeout(argv, i + 2, acc.(output := Some(argv[i + 1])));
      } else if (a == "--js2il" || a == "-j") && HasValue(argv, i) {
        ScanKeepsCompileTimeout(argv, i + 2, acc.(js2il := Some(argv[i + 1])));
      } else if a == "--verbose" || a == "-v" {
        ScanKeepsCompileTimeout(argv, i + 1, acc.(verbose := true));
      } else {
        ScanKeepsCompileTimeout(argv, i + 1, acc);
      }
    }
  }

  /** When no compile timeout is given it is twice the execution
      timeout, whatever that is. */
  lemma CompileTimeoutDefaultsToTwice(argv: seq<string>, defaultCorpus: string)
    requires forall j :: 0 <= j < |argv| ==> argv[j] != "--compile-timeout"
    ensures ParseArgsSpec(argv, defaultCorpus).compileTimeout == Some(Twice(ParseArgsSpec(argv, defaultCorpus).timeout))
  {
    ScanKeepsCompileTimeout(argv, 0, Defaults(defaultCorpus));
  }

  /** `--timeout 5`: five seconds per run and ten per compilation. */
  lemma TimeoutAlone(t: string, defaultCorpus: string)
    requires IsDigits(t)
    ensures ParseArgsSpec(["--timeout", t], defaultCorpus).timeout == Finite(DigitsToNat(t))
    ensures ParseArgsSpec(["--timeout", t], defaultCorpus).compileTimeout == Some(Finite(2 * DigitsToNat(t)))
  {
    var argv := ["--timeout", t];
    var d := Defaults(defaultCorpus);
    assert HasValue(argv, 0);
    assert ScanFrom(argv, 0, d) == ScanFrom(argv, 2, d.(timeout := ToNumber(t)));
  }

  /** A value flag whose value is missing or empty binds nothing: the scan
      goes on at the next argument as if the flag were absent. */
  lemma FlagWithoutValueIgnored(argv: seq<string>, i: nat, acc: DiffArgs)
    requires i < |argv| && IsValueFlag(argv[i]) && !HasValue(argv, i)
    ensures ScanFrom(argv, i, acc) == ScanFrom(argv, i + 1, acc)
  {
  }

  // ---------------------------------------------------------------------
  // normaliseOutput

  /** `.replace(/\r\n/g, '\n').replace(/\r/g, '\n')`. */
  function NormaliseLineEndings(raw: string): (r: string)
    ensures forall i :: 0 <= i < |r| ==> r[i] != '\r'
  {
    var lf := ReplaceAll(raw, "\r\n", "\n");
    ReplaceAllOneChar(lf, '\r', "\n");
    ReplaceAll(lf, "\r", "\n")
  }

  lemma {:induction false} ReplaceEachCharAbsent(s: string, c: char, rep: string)
    requires forall i :: 0 <= i < |s| ==> s[i] != c
    ensures ReplaceEachChar(s, c, rep) == s
    decreases |s|
  {
    if |s| > 0 {
      ReplaceEachCharAbsent(s[1..], c, rep);
      assert s == [s[0]] + s[1..];
    }
  }

  /** A pattern whose first character `x` does not contain is only
      searched for after `x`. */
  lemma {:induction false} ReplaceAllSkips(x: string, t: string, pat: string, rep: string)
    requires |pat| > 0 && forall i :: 0 <= i < |x| ==> x[i] != pat[0]
    ensures ReplaceAll(x + t, pat, rep) == x + ReplaceAll(t, pat, rep)
    decreases |x|
  {
    var s := x + t;
    if |x| == 0 {
      assert s == t;
    } else if |s| >= |pat| {
      assert s[..|pat|][0] == x[0];
      assert s[..|pat|] != pat;
      assert s[1..] == x[1..] + t;
      ReplaceAllSkips(x[1..], t, pat, rep);
      calc {
        ReplaceAll(s, pat, rep);
        [s[0]] + ReplaceAll(x[1..] + t, pat, rep);
        [x[0]] + (x[1..] + ReplaceAll(t, pat, rep));
        { assert x == [x[0]] + x[1..]; }
        x + ReplaceAll(t, pat, rep);
      }
    } else {
      assert ReplaceAll(t, pat, rep) == t;
    }
  }

  /** Text without carriage returns keeps its line endings. */
  lemma NormaliseLineEndingsKeeps(s: string)
    requires forall i :: 0 <= i < |s| ==> s[i] != '\r'
    ensures NormaliseLineEndings(s) == s
  {
    forall i: nat ensures !OccursAt(s, "\r\n", i) {
      if i + 2 <= |s| {
        assert s[i..i + 2][0] == s[i];
      }
    }
    ReplaceAllAbsent(s, "\r\n", "\n");
    ReplaceAllOneChar(s, '\r', "\n");
    ReplaceEachCharAbsent(s, '\r', "\n");
  }

  /** A line ended by CR LF reads as the same line ended by LF. */
  lemma NormaliseCrLf(x: string)
    requires forall i :: 0 <= i < |x| ==> x[i] != '\r'
    ensures NormaliseLineEndings(x + "\r\n") == x + "\n"
  {
    ReplaceAllSkips(x, "\r\n", "\r\n", "\n");
    assert ReplaceAll("\r\n", "\r\n", "\n") == "\n" + ReplaceAll("", "\r\n", "\n");
    assert ReplaceAll(x + "\r\n", "\r\n", "\n") == x + "\n";
    ReplaceAllSkips(x + "\n", "", "\r", "\n");
    assert x + "\n" + "" == x + "\n";
  }

  /** `.replace(/\n+$/, '')`: the line feeds at the very end removed. */
  function StripTrailingNewlines(s: string): (r: string)
    ensures IsPrefix(r, s)
    ensures r == [] || r[|r| - 1] != '\n'
    ensures forall i :: |r| <= i < |s| ==> s[i] == '\n'
    decreases |s|
  {
    if |s| > 0 && s[|s| - 1] == '\n' then StripTrailingNewlines(s[..|s| - 1]) else s
  }

  /** `.map(l => l.trimEnd())`. */
  function TrimLines(lines: seq<string>): seq<string>
  {
    seq(|lines|, k requires 0 <= k < |lines| => TrimEnd(lines[k]))
  }

  /** `normaliseOutput(raw)`. */
  function NormaliseOutput(raw: string): string
  {
    StripTrailingNewlines(JoinWith(TrimLines(SplitOn(NormaliseLineEndings(raw), '\n')), '\n'))
  }

  /** No line holds the character `d`. */
  predicate NoneHolds(lines: seq<string>, d: char)
  {
    forall k, i :: 0 <= k < |lines| && 0 <= i < |lines[k]| ==> lines[k][i] != d
  }

  /** No line ends in white space. */
  predicate AllTrimmed(lines: seq<string>)
  {
    forall k :: 0 <= k < |lines| ==> lines[k] == [] || !IsJsSpace(lines[k][|lines[k]| - 1])
  }

  /** The lines without the empty lines at the end. */
  function DropEmptyTail(lines: seq<string>): (r: seq<string>)
    ensures |r| <= |lines| && r == lines[..|r|]
    ensures r == [] || r[|r| - 1] != []
    decreases |lines|
  {
    if |lines| > 0 && lines[|lines| - 1] == [] then DropEmptyTail(lines[..|lines| - 1]) else lines
  }

  /** No piece of a split contains a character the text does not. */
  lemma {:induction false} SplitOnAvoids(s: string, c: char, d: char)
    requires forall i :: 0 <= i < |s| ==> s[i] != d
    ensures NoneHolds(SplitOn(s, c), d)
    decreases |s|
  {
    var at := IndexOfChar(s, c, 0);
    var parts := SplitOn(s, c);
    if at < 0 {
      assert parts == [s];
    } else {
      var rest := s[at + 1..];
      assert forall i :: 0 <= i < |rest| ==> rest[i] == s[at + 1 + i];
      SplitOnAvoids(rest, c, d);
      var tail := SplitOn(rest, c);
      assert parts == [s[..at]] + tail;
      forall k, i | 0 <= k < |parts| && 0 <= i < |parts[k]| ensures parts[k][i] != d {
        if k == 0 {
          assert parts[0][i] == s[i];
        } else {
          assert parts[k] == tail[k - 1];
        }
      }
    }
  }

  /** Joining with `c` puts no character other than `c` and those of the parts. */
  lemma {:induction false} JoinAvoids(parts: seq<string>, c: char, d: char)
    requires c != d && NoneHolds(parts, d)
    ensures forall i :: 0 <= i < |JoinWith(parts, c)| ==> JoinWith(parts, c)[i] != d
  {
    if |parts| > 1 {
      assert NoneHolds(parts[1..], d) by {
        forall k, i | 0 <= k < |parts[1..]| && 0 <= i < |parts[1..][k]| ensures parts[1..][k][i] != d {
          assert parts[1..][k] == parts[k + 1];
        }
      }
      JoinAvoids(parts[1..], c, d);
      var rest := JoinWith(parts[1..], c);
      var x := parts[0];
      assert JoinWith(parts, c) == x + [c] + rest;
      forall i | 0 <= i < |x + [c] + rest| ensures (x + [c] + rest)[i] != d {
        if i < |x| {
          assert (x + [c] + rest)[i] == x[i];
        } else if i > |x| {
          assert (x + [c] + rest)[i] == rest[i - |x| - 1];
        }
      }
    } else if |parts| == 1 {
      assert JoinWith(parts, c) == parts[0];
    }
  }

  /** Joining one more part at the end. */
  lemma {:induction false} JoinSnoc(init: seq<string>, x: string, c: char)
    requires |init| >= 1
    ensures JoinWith(init + [x], c) == JoinWith(init, c) + [c] + x
    decreases |init|
  {
    if |init| == 1 {
      assert (init + [x])[1..] == [x];
    } else {
      JoinSnoc(init[1..], x, c);
      assert (init + [x])[1..] == init[1..] + [x];
    }
  }

  /** Removing the line feeds at the end of joined lines removes the empty
      lines at the end. */
  lemma {:induction false} StripJoin(lines: seq<string>)
    requires NoneHolds(lines, '\n')
    ensures StripTrailingNewlines(JoinWith(lines, '\n')) == JoinWith(DropEmptyTail(lines), '\n')
    decreases |lines|
  {
    if |lines| > 0 {
      var n := |lines|;
      var init := lines[..n - 1];
      var last := lines[n - 1];
      assert lines == init + [last];
      if last != [] {
        assert last[|last| - 1] != '\n';
        if n > 1 {
          JoinSnoc(init, last, '\n');
        }
      } else if n == 1 {
        assert DropEmptyTail(lines) == DropEmptyTail([]);
      } else {
        JoinSnoc(init, last, '\n');
        var j := JoinWith(init, '\n');
        assert JoinWith(lines, '\n') == j + ['\n'];
        assert (j + ['\n'])[..|j|] == j;
        assert NoneHolds(init, '\n') by {
          forall k, i | 0 <= k < |init| && 0 <= i < |init[k]| ensures init[k][i] != '\n' {
            assert init[k] == lines[k];
          }
        }
        StripJoin(init);
      }
    }
  }

  /** Trimming the end of each line adds no character and leaves no line
      ending in white space. */
  lemma TrimLinesFacts(lines: seq<string>, d: char)
    requires NoneHolds(lines, d)
    ensures NoneHolds(TrimLines(lines), d) && AllTrimmed(TrimLines(lines))
  {
    var t := TrimLines(lines);
    forall k, i | 0 <= k < |t| && 0 <= i < |t[k]| ensures t[k][i] != d {
      assert t[k] == TrimEnd(lines[k]);
      assert t[k][i] == lines[k][i];
    }
    forall k | 0 <= k < |t| ensures t[k] == [] || !IsJsSpace(t[k][|t[k]| - 1]) {
      assert t[k] == TrimEnd(lines[k]);
    }
  }

  /** Dropping lines at the end keeps what holds of every line. */
  lemma DropEmptyTailFacts(lines: seq<string>, d: char)
    requires NoneHolds(lines, d) && AllTrimmed(lines)
    ensures NoneHolds(DropEmptyTail(lines), d) && AllTrimmed(DropEmptyTail(lines))
  {
    var r := DropEmptyTail(lines);
    forall k | 0 <= k < |r| ensures r[k] == lines[k] {
    }
  }

  /** The normalised lines: the lines of the text without their trailing
      white space, without the empty lines at the end. */
  function NormalisedLines(raw: string): seq<string>
  {
    DropEmptyTail(TrimLines(SplitOn(NormaliseLineEndings(raw), '\n')))
  }

  /** No normalised line holds a carriage return or a line feed or ends
      in white space, and the last one is not empty. */
  lemma NormalisedLinesShape(raw: string)
    ensures var d := NormalisedLines(raw);
      && (d == [] || d[|d| - 1] != [])
      && NoneHolds(d, '\n') && NoneHolds(d, '\r') && AllTrimmed(d)
  {
    var text := NormaliseLineEndings(raw);
    var split := SplitOn(text, '\n');
    SplitOnAvoids(text, '\n', '\r');
    var lines := TrimLines(split);
    TrimLinesFacts(split, '\n');
    TrimLinesFacts(split, '\r');
    DropEmptyTailFacts(lines, '\n');
    DropEmptyTailFacts(lines, '\r');
  }

  /** The normalised output is its normalised lines joined by line feeds. */
  lemma NormaliseOutputIsJoin(raw: string)
    ensures NormaliseOutput(raw) == JoinWith(NormalisedLines(raw), '\n')
    ensures var d := NormalisedLines(raw);
      && (d == [] || d[|d| - 1] != [])
      && NoneHolds(d, '\n') && NoneHolds(d, '\r') && AllTrimmed(d)
  {
    NormalisedLinesShape(raw);
    var split := SplitOn(NormaliseLineEndings(raw), '\n');
    TrimLinesFacts(split, '\n');
    StripJoin(TrimLines(split));
  }

  /** `normaliseOutput` leaves no carriage return and no line feed at the
      end, and no line of its result ends in white space. */
  lemma NormaliseOutputShape(raw: string)
    ensures var r := NormaliseOutput(raw);
      && (forall i :: 0 <= i < |r| ==> r[i] != '\r')
      && (r == [] || r[|r| - 1] != '\n')
      && AllTrimmed(SplitOn(r, '\n'))
  {
    var r := NormaliseOutput(raw);
    var d := NormalisedLines(raw);
    NormaliseOutputIsJoin(raw);
    JoinAvoids(d, '\n', '\r');
    if |d| >= 1 {
      SplitOnJoin(d, '\n');
    } else {
      assert SplitOn(r, '\n') == [[]];
    }
  }

  /** Lines that end in no white space are left alone by trimming. */
  lemma TrimLinesKeeps(d: seq<string>)
    requires AllTrimmed(d)
    ensures TrimLines(d) == d
  {
    forall k | 0 <= k < |d| ensures TrimLines(d)[k] == d[k] {
      TrimEndKeeps(d[k]);
    }
  }

  /** Lines in the shape the normalisation leaves, joined by line feeds,
      are left alone. */
  lemma NormaliseOfJoin(d: seq<string>)
    requires d == [] || d[|d| - 1] != []
    requires NoneHolds(d, '\n') && NoneHolds(d, '\r') && AllTrimmed(d)
    ensures NormaliseOutput(JoinWith(d, '\n')) == JoinWith(d, '\n')
  {
    var r := JoinWith(d, '\n');
    JoinAvoids(d, '\n', '\r');
    NormaliseLineEndingsKeeps(r);
    if |d| >= 1 {
      SplitOnJoin(d, '\n');
      TrimLinesKeeps(d);
      StripJoin(d);
      assert DropEmptyTail(d) == d;
    } else {
      assert SplitOn(r, '\n') == [[]];
      assert TrimLines([[]]) == [[]];
    }
  }

  /** `normaliseOutput` is idempotent. */
  lemma NormaliseOutputIdempotent(raw: string)
    ensures NormaliseOutput(NormaliseOutput(raw)) == NormaliseOutput(raw)
  {
    NormaliseOutputIsJoin(raw);
    NormaliseOfJoin(NormalisedLines(raw));
  }

  // ---------------------------------------------------------------------
  // extractJsError

  /** The name .NET gives the exception that carries a JavaScript error. */
  const Marker: string := "JavaScriptException:"

  /** The number of characters from `q` that `.` matches (no line terminator). */
  function TextRun(s: string, q: nat): (n: nat)
    ensures n > 0 ==> q + n <= |s|
    decreases |s| - q
  {
    if q < |s| && !IsLineTerminator(s[q]) then 1 + TextRun(s, q + 1) else 0
  }

  /** The number of characters from `q` that `\s` matches. */
  function SpaceRun(s: string, q: nat): (n: nat)
    ensures n > 0 ==> q + n <= |s|
    decreases |s| - q
  {
    if q < |s| && IsJsSpace(s[q]) then 1 + SpaceRun(s, q + 1) else 0
  }

  /** The number of ASCII letters from `q`. */
  function LetterRun(s: string, q: nat): (n: nat)
    ensures n > 0 ==> q + n <= |s|
    decreases |s| - q
  {
    if q < |s| && IsAsciiLetter(s[q]) then 1 + LetterRun(s, q + 1) else 0
  }

  /** `[A-Za-z]+Error|Error|EvalError|RangeError|ReferenceError|SyntaxError|TypeError|URIError`
      followed by ':': every alternative is a run of letters ending in
      "Error", and the run must reach the colon. */
  predicate IsErrorName(name: string)
  {
    |name| >= 5 && IsSuffix("Error", name) && forall i :: 0 <= i < |name| ==> IsAsciiLetter(name[i])
  }

  /** `\s*(.+?)(?:\n|$)` from `q`, with the white space given back one
      character at a time from `k` on: the lazy group ends at the first
      line terminator, which must be a line feed or the end of the text. */
  function LazyLineFrom(s: string, q: nat, k: nat): Option<string>
    requires q + k <= |s|
    decreases k
  {
    var n := TextRun(s, q + k);
    if n >= 1 && (q + k + n == |s| || s[q + k + n] == '\n') then Some(s[q + k..q + k + n])
    else if k == 0 then None
    else LazyLineFrom(s, q, k - 1)
  }

  /** `\s*(.+)` from `q`, with the white space given back from `k` on: the
      greedy group takes the rest of the line. */
  function GreedyLineFrom(s: string, q: nat, k: nat): Option<string>
    requires q + k <= |s|
    decreases k
  {
    if q + k < |s| && !IsLineTerminator(s[q + k]) then Some(s[q + k..q + k + TextRun(s, q + k)])
    else if k == 0 then None
    else GreedyLineFrom(s, q, k - 1)
  }

  /** `stderr.match(/JavaScriptException:\s*(.+?)(?:\n|$)/)` from position
      `p` on: the group of the leftmost match. */
  function DotnetSearch(s: string, p: nat): Option<string>
    decreases |s| - p
  {
    if p + |Marker| > |s| then None
    else
      var q := p + |Marker|;
      var m := if OccursAt(s, Marker, p) then LazyLineFrom(s, q, SpaceRun(s, q)) else None;
      if m.Some? then m else DotnetSearch(s, p + 1)
  }

  /** `^` of a multi-line regular expression: the start of the text or
      just after a line terminator. */
  predicate AtLineStart(s: string, p: nat)
  {
    p == 0 || (0 < p <= |s| && IsLineTerminator(s[p - 1]))
  }

  /** The Node pattern `(name):\s*(.+)` at `p`, as "name: message" with the
      message trimmed. */
  function NodeMatchAt(s: string, p: nat): Option<string>
    requires p <= |s|
  {
    var n := LetterRun(s, p);
    var name := s[p..p + n];
    if IsErrorName(name) && p + n < |s| && s[p + n] == ':' then
      var q := p + n + 1;
      match GreedyLineFrom(s, q, SpaceRun(s, q))
      case Some(m) => Some(name + ": " + JsTrim(m))
      case None => None
    else None
  }

  /** `stderr.match(/^(...Error):\s*(.+)/m)` from position `p` on. */
  function NodeSearch(s: string, p: nat): Option<string>
    requires p <= |s|
    decreases |s| - p
  {
    var m := if AtLineStart(s, p) then NodeMatchAt(s, p) else None;
    if m.Some? then m else if p == |s| then None else NodeSearch(s, p + 1)
  }

  /** `extractJsError(stderr)` as written: the .NET form first, then the
      Node form, else null (`None`). */
  function ExtractJsErrorAsWritten(stderr: string): Option<string>
  {
    match DotnetSearch(stderr, 0)
    case Some(c) => Some(JsTrim(c))
    case None => NodeSearch(stderr, 0)
  }

  /** `extractJsError` reading the trace with its line endings normalised
      first, so that a .NET trace with CR LF line endings is read like one
      with LF. */
  function ExtractJsError(stderr: string): Option<string>
  {
    ExtractJsErrorAsWritten(NormaliseLineEndings(stderr))
  }

  /** The corrected reading does not depend on the kind of line endings. */
  lemma ExtractJsErrorIgnoresLineEndings(stderr: string)
    ensures ExtractJsError(NormaliseLineEndings(stderr)) == ExtractJsError(stderr)
  {
    NormaliseLineEndingsKeeps(NormaliseLineEndings(stderr));
  }

  /** Positions where the marker does not start are passed over. */
  lemma {:induction false} DotnetSearchSkips(s: string, p: nat, q: nat)
    requires p <= q
    requires forall j :: p <= j < q ==> !OccursAt(s, Marker, j)
    ensures DotnetSearch(s, p) == DotnetSearch(s, q)
    decreases q - p
  {
    if p < q && p + |Marker| <= |s| {
      DotnetSearchSkips(s, p + 1, q);
    }
  }

  /** A position that does not start a line is passed over. */
  lemma NodeSearchStep(s: string, p: nat)
    requires p < |s| && !AtLineStart(s, p)
    ensures NodeSearch(s, p) == NodeSearch(s, p + 1)
  {
  }

  /** Positions that do not start a line are passed over. */
  lemma {:induction false} NodeSearchSkips(s: string, p: nat, q: nat)
    requires p <= q <= |s|
    requires forall j :: p <= j < q ==> !AtLineStart(s, j)
    ensures NodeSearch(s, p) == NodeSearch(s, q)
    decreases q - p
  {
    if p < q {
      NodeSearchStep(s, p);
      NodeSearchSkips(s, p + 1, q);
    }
  }

  /** Text that has no 'J' from position `p` on has no marker there. */
  lemma NoMarkerWithoutJ(s: string, p: nat)
    requires forall i :: p <= i < |s| ==> s[i] != 'J'
    ensures forall j :: p <= j ==> !OccursAt(s, Marker, j)
  {
    forall j | p <= j ensures !OccursAt(s, Marker, j) {
      if j + |Marker| <= |s| {
        assert s[j..j + |Marker|][0] == s[j];
      }
    }
  }

  /** The text run from `q` is the one that ends at the first line
      terminator or at the end. */
  lemma {:induction false} TextRunIs(s: string, q: nat, n: nat)
    requires q + n <= |s|
    requires forall i :: q <= i < q + n ==> !IsLineTerminator(s[i])
    requires q + n == |s| || IsLineTerminator(s[q + n])
    ensures TextRun(s, q) == n
    decreases n
  {
    if n > 0 {
      TextRunIs(s, q + 1, n - 1);
    }
  }

  /** The letter run from `q` is the one that ends at the first character
      that is not a letter or at the end. */
  lemma {:induction false} LetterRunIs(s: string, q: nat, n: nat)
    requires q + n <= |s|
    requires forall i :: q <= i < q + n ==> IsAsciiLetter(s[i])
    requires q + n == |s| || !IsAsciiLetter(s[q + n])
    ensures LetterRun(s, q) == n
    decreases n
  {
    if n > 0 {
      LetterRunIs(s, q + 1, n - 1);
    }
  }

  /** A slice equal to a line without line terminators has none either. */
  lemma LineInText(s: string, a: nat, line: string)
    requires a + |line| <= |s| && s[a..a + |line|] == line
    requires forall i :: 0 <= i < |line| ==> !IsLineTerminator(line[i])
    ensures forall i :: a <= i < a + |line| ==> !IsLineTerminator(s[i])
  {
    forall i | a <= i < a + |line| ensures !IsLineTerminator(s[i]) {
      assert s[i] == s[a..a + |line|][i - a];
    }
  }

  /** At `q` one white-space character, then `n >= 1` characters without a
      line terminator, the first of them not white space. */
  predicate SpacedLine(s: string, q: nat, n: nat)
  {
    && q + 1 + n <= |s| && n >= 1
    && IsJsSpace(s[q]) && !IsJsSpace(s[q + 1])
    && forall i :: q + 1 <= i < q + 1 + n ==> !IsLineTerminator(s[i])
  }

  /** The lazy pattern takes a spaced line ended by a line feed. */
  lemma LazyLineAt(s: string, q: nat, n: nat)
    requires SpacedLine(s, q, n) && q + 1 + n < |s| && s[q + 1 + n] == '\n'
    ensures LazyLineFrom(s, q, SpaceRun(s, q)) == Some(s[q + 1..q + 1 + n])
  {
    assert SpaceRun(s, q) == 1 by {
      assert SpaceRun(s, q + 1) == 0;
    }
    TextRunIs(s, q + 1, n);
  }

  /** The lazy pattern fails on a spaced line ended by a carriage return:
      `.` stops there, and the stop is neither a line feed nor the end. */
  lemma LazyLineMissesCr(s: string, q: nat, n: nat)
    requires SpacedLine(s, q, n) && q + 1 + n < |s| && s[q + 1 + n] == '\r'
    ensures LazyLineFrom(s, q, SpaceRun(s, q)) == None
  {
    assert SpaceRun(s, q) == 1 by {
      assert SpaceRun(s, q + 1) == 0;
    }
    TextRunIs(s, q + 1, n);
    if IsLineTerminator(s[q]) {
      assert TextRun(s, q) == 0;
    } else {
      TextRunIs(s, q, n + 1);
    }
  }

  /** The greedy pattern takes a spaced line up to its end. */
  lemma GreedyLineAt(s: string, q: nat, n: nat)
    requires SpacedLine(s, q, n) && (q + 1 + n == |s| || IsLineTerminator(s[q + 1 + n]))
    ensures GreedyLineFrom(s, q, SpaceRun(s, q)) == Some(s[q + 1..q + 1 + n])
  {
    assert SpaceRun(s, q) == 1 by {
      assert SpaceRun(s, q + 1) == 0;
    }
    TextRunIs(s, q + 1, n);
  }

  /** A message the patterns read whole: not empty, on one line, and
      without white space at either end. */
  predicate IsPlainMessage(msg: string)
  {
    && |msg| > 0 && !IsJsSpace(msg[0]) && !IsJsSpace(msg[|msg| - 1])
    && forall i :: 0 <= i < |msg| ==> !IsLineTerminator(msg[i])
  }

  /** "name: message" is a single line that starts with a letter and ends
      in a character that is not white space. */
  lemma ErrorLineFacts(name: string, msg: string)
    requires IsErrorName(name) && IsPlainMessage(msg)
    ensures IsPlainMessage(name + ": " + msg)
  {
    var line := name + ": " + msg;
    forall i | 0 <= i < |line| ensures !IsLineTerminator(line[i]) {
      if i < |name| {
        assert line[i] == name[i];
      } else if i >= |name| + 2 {
        assert line[i] == msg[i - |name| - 2];
      }
    }
    assert line[0] == name[0];
    assert line[|line| - 1] == msg[|msg| - 1];
  }

  /** The .NET pattern reads the line after the first marker when it is
      ended by a line feed. */
  lemma DotnetReadsAt(s: string, at: nat, line: string)
    requires OccursAt(s, Marker, at) && forall j :: 0 <= j < at ==> !OccursAt(s, Marker, j)
    requires IsPlainMessage(line)
    requires var q := at + |Marker|;
      && q + 1 + |line| < |s| && s[q] == ' ' && s[q + 1..q + 1 + |line|] == line && s[q + 1 + |line|] == '\n'
    ensures ExtractJsErrorAsWritten(s) == Some(line)
  {
    var q := at + |Marker|;
    LineInText(s, q + 1, line);
    assert s[q + 1] == line[0];
    LazyLineAt(s, q, |line|);
    DotnetSearchSkips(s, 0, at);
    JsTrimKeepsTrimmed(line);
  }

  /** Text that starts with a 'J' puts no marker across its seam with a
      prefix that has none. */
  lemma NoMarkerBefore(prefix: string, t: string)
    requires forall j :: !OccursAt(prefix, Marker, j)
    requires |t| > 0 && t[0] == 'J'
    ensures forall j :: 0 <= j < |prefix| ==> !OccursAt(prefix + t, Marker, j)
  {
    var s := prefix + t;
    var at := |prefix|;
    forall j | 0 <= j < at ensures !OccursAt(s, Marker, j) {
      if j + |Marker| <= at {
        assert s[j..j + |Marker|] == prefix[j..j + |Marker|];
        assert !OccursAt(prefix, Marker, j);
      } else if j + |Marker| <= |s| {
        assert s[j..j + |Marker|][at - j] == s[at] == 'J';
      }
    }
  }

  /** A .NET trace "…JavaScriptException: name: message" followed by a line
      feed gives "name: message". */
  lemma DotnetTraceReads(prefix: string, name: string, msg: string, rest: string)
    requires forall j :: !OccursAt(prefix, Marker, j)
    requires IsErrorName(name) && IsPlainMessage(msg)
    ensures ExtractJsErrorAsWritten(prefix + Marker + " " + name + ": " + msg + "\n" + rest) == Some(name + ": " + msg)
  {
    var line := name + ": " + msg;
    ErrorLineFacts(name, msg);
    var t := Marker + " " + line + "\n" + rest;
    var s := prefix + t;
    assert s == prefix + Marker + " " + name + ": " + msg + "\n" + rest;
    var at := |prefix|;
    var q := at + |Marker|;
    assert t[..|Marker|] == Marker;
    assert t[|Marker| + 1..|Marker| + 1 + |line|] == line;
    assert s[at..] == t;
    assert s[at..q] == Marker;
    assert s[q + 1..q + 1 + |line|] == line;
    NoMarkerBefore(prefix, t);
    DotnetReadsAt(s, at, line);
  }

  /** The Node pattern reads "name: message" on the first line, when no
      marker is anywhere in the trace. */
  lemma NodeReadsAt(s: string, name: string, msg: string)
    requires forall j :: 0 <= j < |s| ==> !OccursAt(s, Marker, j)
    requires IsErrorName(name) && IsPlainMessage(msg)
    requires var e := |name| + 2 + |msg|;
      && e <= |s| && s[..|name|] == name && s[|name|] == ':' && s[|name| + 1] == ' '
      && s[|name| + 2..e] == msg && (e == |s| || IsLineTerminator(s[e]))
    ensures ExtractJsErrorAsWritten(s) == Some(name + ": " + msg)
  {
    DotnetSearchSkips(s, 0, |s|);
    forall i | 0 <= i < |name| ensures IsAsciiLetter(s[i]) {
      assert s[i] == s[..|name|][i];
    }
    LetterRunIs(s, 0, |name|);
    assert s[0..|name|] == name;
    LineInText(s, |name| + 2, msg);
    assert s[|name| + 2] == msg[0];
    GreedyLineAt(s, |name| + 1, |msg|);
    JsTrimKeepsTrimmed(msg);
  }

  /** A Node trace whose first line is "name: message" gives
      "name: message", when nothing in it names the .NET exception. */
  lemma NodeTraceReads(name: string, msg: string, rest: string)
    requires IsErrorName(name) && IsPlainMessage(msg)
    requires forall j :: !OccursAt(name + ": " + msg + "\n" + rest, Marker, j)
    ensures ExtractJsErrorAsWritten(name + ": " + msg + "\n" + rest) == Some(name + ": " + msg)
  {
    var s := name + ": " + msg + "\n" + rest;
    var e := |name| + 2 + |msg|;
    assert s[..|name|] == name;
    assert s[|name|] == ':' && s[|name| + 1] == ' ';
    assert s[|name| + 2..e] == msg;
    assert s[e] == '\n';
    NodeReadsAt(s, name, msg);
  }

  /** The point of the extraction: the same error reported by Node and by
      .NET is read as the same text. */
  lemma SameErrorBothTraces(prefix: string, name: string, msg: string, nodeRest: string, dotnetRest: string)
    requires forall j :: !OccursAt(prefix, Marker, j)
    requires IsErrorName(name) && IsPlainMessage(msg)
    requires forall j :: !OccursAt(name + ": " + msg + "\n" + nodeRest, Marker, j)
    ensures ExtractJsErrorAsWritten(name + ": " + msg + "\n" + nodeRest)
         == ExtractJsErrorAsWritten(prefix + Marker + " " + name + ": " + msg + "\n" + dotnetRest)
    ensures ExtractJsErrorAsWritten(name + ": " + msg + "\n" + nodeRest).Some?
  {
    NodeTraceReads(name, msg, nodeRest);
    DotnetTraceReads(prefix, name, msg, dotnetRest);
  }

  /** A trace of one line that starts with the marker and ends in CR LF,
      and has no other 'J', is not read by the .NET pattern. */
  lemma DotnetMissesCrLf(s: string, n: nat)
    requires OccursAt(s, Marker, 0) && |s| == |Marker| + 3 + n
    requires SpacedLine(s, |Marker|, n) && s[|Marker| + 1 + n] == '\r'
    requires forall i :: 1 <= i < |s| ==> s[i] != 'J'
    ensures DotnetSearch(s, 0) == None
  {
    LazyLineMissesCr(s, |Marker|, n);
    NoMarkerWithoutJ(s, 1);
    DotnetSearchSkips(s, 1, |s|);
  }

  /** A trace of one line that starts with the marker and ends in CR LF is
      not read by the Node pattern: the first line starts with
      "JavaScriptException", which is not an error name, and no other
      line starts with a letter. */
  lemma NodeMissesMarkerLine(s: string)
    requires OccursAt(s, Marker, 0) && |s| >= |Marker| + 2
    requires forall i :: 0 <= i < |s| - 2 ==> !IsLineTerminator(s[i])
    requires s[|s| - 2] == '\r' && s[|s| - 1] == '\n'
    ensures NodeSearch(s, 0) == None
  {
    forall i | 0 <= i < 19 ensures IsAsciiLetter(s[i]) {
      assert s[i] == s[..|Marker|][i];
    }
    assert s[19] == s[..|Marker|][19] == ':';
    LetterRunIs(s, 0, 19);
    assert s[0..19][14] == s[14] == s[..|Marker|][14] == 'p';
    assert NodeMatchAt(s, 0) == None;
    NodeSearchSkips(s, 1, |s| - 1);
    assert LetterRun(s, |s| - 1) == 0;
    assert LetterRun(s, |s|) == 0;
  }

  /** As written, a .NET trace line ended by CR LF is not read at all,
      while the same line ended by LF is. */
  lemma CrLfTraceNotRead(name: string, msg: string)
    requires IsErrorName(name) && IsPlainMessage(msg)
    requires forall i :: 0 <= i < |name| ==> name[i] != 'J'
    requires forall i :: 0 <= i < |msg| ==> msg[i] != 'J'
    ensures ExtractJsErrorAsWritten(Marker + " " + name + ": " + msg + "\r\n") == None
    ensures ExtractJsErrorAsWritten(Marker + " " + name + ": " + msg + "\n") == Some(name + ": " + msg)
  {
    var line := name + ": " + msg;
    ErrorLineFacts(name, msg);
    var s := Marker + " " + line + "\r\n";
    assert s == Marker + " " + name + ": " + msg + "\r\n";
    var q := |Marker|;
    var n := |line|;
    assert s[..q] == Marker;
    assert s[q] == ' ';
    assert s[q + 1..q + 1 + n] == line;
    assert s[q + 1 + n] == '\r' && s[q + 2 + n] == '\n';
    LineInText(s, q + 1, line);
    assert s[q + 1] == line[0];
    forall i | 0 <= i < |s| - 2 ensures !IsLineTerminator(s[i]) {
      if i < q {
        assert s[i] == Marker[i];
      }
    }
    forall i | 1 <= i < |s| ensures s[i] != 'J' {
      if i < q {
        assert s[i] == Marker[i];
      } else if q + 1 <= i < q + 1 + n {
        assert s[i] == line[i - q - 1];
        if i - q - 1 < |name| {
          assert line[i - q - 1] == name[i - q - 1];
        } else if i - q - 1 >= |name| + 2 {
          assert line[i - q - 1] == msg[i - q - 1 - |name| - 2];
        }
      }
    }
    DotnetMissesCrLf(s, n);
    NodeMissesMarkerLine(s);
    DotnetTraceReads("", name, msg, "");
    assert "" + Marker == Marker;
    assert Marker + " " + name + ": " + msg + "\n" + "" == Marker + " " + name + ": " + msg + "\n";
  }

  /** With the line endings normalised first, the CR LF trace reads like
      the LF one. */
  lemma CrLfTraceRead(name: string, msg: string)
    requires IsErrorName(name) && IsPlainMessage(msg)
    ensures ExtractJsError(Marker + " " + name + ": " + msg + "\r\n") == Some(name + ": " + msg)
  {
    var line := name + ": " + msg;
    ErrorLineFacts(name, msg);
    var x := Marker + " " + line;
    assert x == Marker + " " + name + ": " + msg;
    forall i | 0 <= i < |x| ensures x[i] != '\r' {
      if i > |Marker| {
        assert x[i] == line[i - |Marker| - 1];
      }
    }
    NormaliseCrLf(x);
    DotnetTraceReads("", name, msg, "");
    assert "" + Marker == Marker;
    assert Marker + " " + name + ": " + msg + "\n" + "" == x + "\n";
  }

  // ---------------------------------------------------------------------
  // The verdict for one program

  /** What `runProcess` reports: a run that timed out has exit code -1. */
  datatype ProcessResult = ProcessResult(stdout: string, stderr: string, exitCode: int, timedOut: bool)

  datatype Verdict =
    | Pass
    | CompileError
    | BothTimeout
    | NodeTimeout
    | Js2ilTimeout
    | StdoutMismatch
    | ErrorMismatch
    | ExitCodeMismatch

  /** The status `runOneProgram` gives a program, from the Node run,
      whether the compilation succeeded, and the run of the compiled
      assembly (not consulted when the compilation failed). */
  function Classify(node: ProcessResult, compiled: bool, js2il: ProcessResult): (v: Verdict)
  {
    if !compiled then CompileError
    else if node.timedOut && js2il.timedOut then BothTimeout
    else if node.timedOut then NodeTimeout
    else if js2il.timedOut then Js2ilTimeout
    else
      var nodeOk := node.exitCode == 0;
      var dotnetOk := js2il.exitCode == 0;
      if nodeOk && dotnetOk then
        if NormaliseOutput(node.stdout) == NormaliseOutput(js2il.stdout) then Pass else StdoutMismatch
      else if !nodeOk && !dotnetOk then
        var nodeErr := ExtractJsError(node.stderr);
        var js2ilErr := ExtractJsError(js2il.stderr);
        if nodeErr.Some? && js2ilErr.Some? && nodeErr == js2ilErr then Pass else ErrorMismatch
      else ExitCodeMismatch
  }

  /** The two runs behave the same: both succeed with the same output up
      to line endings and trailing white space, or both fail with the same
      JavaScript error. */
  predicate Agree(node: ProcessResult, js2il: ProcessResult)
  {
    || (node.exitCode == 0 && js2il.exitCode == 0 && NormaliseOutput(node.stdout) == NormaliseOutput(js2il.stdout))
    || (node.exitCode != 0 && js2il.exitCode != 0
        && ExtractJsError(node.stderr).Some? && ExtractJsError(node.stderr) == ExtractJsError(js2il.stderr))
  }

  /** The statuses the summary counts as failures. */
  predicate IsFailure(v: Verdict)
  {
    v.StdoutMismatch? || v.ErrorMismatch? || v.ExitCodeMismatch? || v.Js2ilTimeout?
  }

  /** The statuses the summary counts as skipped. */
  predicate IsSkipped(v: Verdict)
  {
    v.CompileError? || v.BothTimeout? || v.NodeTimeout?
  }

  /** The verdict: a compile failure or a Node timeout skips the program;
      otherwise it passes exactly when neither run timed out and the runs
      agree, and fails otherwise; and the failure says how the runs
      differ. */
  lemma ClassifySpec(node: ProcessResult, compiled: bool, js2il: ProcessResult)
    ensures var v := Classify(node, compiled, js2il);
      && (IsSkipped(v) <==> !compiled || node.timedOut)
      && (v == Pass <==> compiled && !node.timedOut && !js2il.timedOut && Agree(node, js2il))
      && (IsFailure(v) <==> compiled && !node.timedOut && (js2il.timedOut || !Agree(node, js2il)))
      && (compiled && node.timedOut ==> v == (if js2il.timedOut then BothTimeout else NodeTimeout))
      && (compiled && !node.timedOut && !js2il.timedOut && (node.exitCode == 0) != (js2il.exitCode == 0) ==> v == ExitCodeMismatch)
      && (v == StdoutMismatch ==> node.exitCode == 0 && js2il.exitCode == 0)
      && (v == ErrorMismatch ==> node.exitCode != 0 && js2il.exitCode != 0)
  {
  }

  /** Every verdict is exactly one of passed, failed and skipped. */
  lemma VerdictsPartition(v: Verdict)
    ensures (v == Pass) || IsFailure(v) || IsSkipped(v)
    ensures !(v == Pass && IsFailure(v)) && !(v == Pass && IsSkipped(v)) && !(IsFailure(v) && IsSkipped(v))
  {
  }

  /** The number of verdicts the summary counts as passed, failed and skipped. */
  function CountPassed(vs: seq<Verdict>): nat
  {
    if |vs| == 0 then 0 else CountPassed(vs[..|vs| - 1]) + (if vs[|vs| - 1] == Pass then 1 else 0)
  }

  function CountFailed(vs: seq<Verdict>): nat
  {
    if |vs| == 0 then 0 else CountFailed(vs[..|vs| - 1]) + (if IsFailure(vs[|vs| - 1]) then 1 else 0)
  }

  function CountSkipped(vs: seq<Verdict>): nat
  {
    if |vs| == 0 then 0 else CountSkipped(vs[..|vs| - 1]) + (if IsSkipped(vs[|vs| - 1]) then 1 else 0)
  }

  /** The summary line accounts for every program once. */
  lemma {:induction false} SummaryCountsEveryProgram(vs: seq<Verdict>)
    ensures CountPassed(vs) + CountFailed(vs) + CountSkipped(vs) == |vs|
  {
    if |vs| > 0 {
      SummaryCountsEveryProgram(vs[..|vs| - 1]);
      VerdictsPartition(vs[|vs| - 1]);
    }
  }

  /** `process.exitCode`: 1 when a program failed, otherwise unset (0). */
  function ExitCode(vs: seq<Verdict>): (code: int)
    ensures code == 1 <==> exists i :: 0 <= i < |vs| && IsFailure(vs[i])
    ensures code == 0 || code == 1
  {
    FailedCountsFailures(vs);
    if CountFailed(vs) > 0 then 1 else 0
  }

  /** Some program failed exactly when the failure count is positive. */
  lemma {:induction false} FailedCountsFailures(vs: seq<Verdict>)
    ensures CountFailed(vs) > 0 <==> exists i :: 0 <= i < |vs| && IsFailure(vs[i])
  {
    if |vs| > 0 {
      var init := vs[..|vs| - 1];
      FailedCountsFailures(init);
      if exists i :: 0 <= i < |init| && IsFailure(init[i]) {
        var i :| 0 <= i < |init| && IsFailure(init[i]);
        assert vs[i] == init[i];
      }
      if exists i :: 0 <= i < |vs| && IsFailure(vs[i]) {
        var i :| 0 <= i < |vs| && IsFailure(vs[i]);
        if i < |init| {
          assert init[i] == vs[i];
        }
      }
    }
  }
}
