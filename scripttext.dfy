/** String operations of JavaScript that the repository's Node scripts rely
    on: the white-space set of `trim`, `indexOf`/`includes`, global
    replacement of a literal pattern and splitting on `/\r?\n/`. */
module ScriptText {
  import opened Text

  /** What a script function does: return a value or throw an `Error`. */
  datatype Attempt<+T> = Returns(value: T) | Throws

  /** `\w` of a regular expression: ASCII letters, digits and '_'. */
  predicate IsWordChar(c: char)
  {
    IsAsciiLetterOrDigit(c) || c == '_'
  }

  /** The number of ASCII digits at the start of `s`. */
  function LeadingDigits(s: string): (n: nat)
    ensures n <= |s|
    ensures forall i :: 0 <= i < n ==> IsAsciiDigit(s[i])
    ensures n < |s| ==> !IsAsciiDigit(s[n])
  {
    if |s| == 0 || !IsAsciiDigit(s[0]) then 0 else 1 + LeadingDigits(s[1..])
  }

  /** The line terminators of ECMAScript (LF, CR, LS, PS); `.` in a regular
      expression matches every other character. */
  predicate IsLineTerminator(c: char)
  {
    c == '\n' || c == '\r' || c == 0x2028 as char || c == 0x2029 as char
  }

  /** `\s` of a regular expression and the characters `trim` removes: the
      white-space characters of ECMAScript and the line terminators. */
  predicate IsJsSpace(c: char)
  {
    IsLineTerminator(c)
    || c == '\t' || c == 0x0B as char || c == 0x0C as char || c == ' '
    || c == 0xA0 as char || c == 0x1680 as char
    || (0x2000 as char <= c <= 0x200A as char)
    || c == 0x202F as char || c == 0x205F as char || c == 0x3000 as char || c == 0xFEFF as char
  }

  function LeadingJsSpace(s: string): (n: nat)
    ensures n <= |s|
    ensures forall i :: 0 <= i < n ==> IsJsSpace(s[i])
    ensures n < |s| ==> !IsJsSpace(s[n])
  {
    if |s| == 0 || !IsJsSpace(s[0]) then 0 else 1 + LeadingJsSpace(s[1..])
  }

  function TrailingJsSpace(s: string): (n: nat)
    ensures n <= |s|
    ensures forall i :: |s| - n <= i < |s| ==> IsJsSpace(s[i])
    ensures n < |s| ==> !IsJsSpace(s[|s| - n - 1])
  {
    if |s| == 0 || !IsJsSpace(s[|s| - 1]) then 0 else 1 + TrailingJsSpace(s[..|s| - 1])
  }

  /** `String.prototype.trimEnd`. */
  function TrimEnd(s: string): (r: string)
    ensures IsPrefix(r, s)
    ensures r == [] || !IsJsSpace(r[|r| - 1])
    ensures forall i :: |r| <= i < |s| ==> IsJsSpace(s[i])
  {
    s[..|s| - TrailingJsSpace(s)]
  }

  /** `String.prototype.trim`. */
  function JsTrim(s: string): (r: string)
    ensures |r| <= |s|
    ensures r == [] || (!IsJsSpace(r[0]) && !IsJsSpace(r[|r| - 1]))
    ensures (forall i :: 0 <= i < |s| ==> IsJsSpace(s[i])) <==> r == []
  {
    var a := LeadingJsSpace(s);
    var rest := s[a..];
    var b := TrailingJsSpace(rest);
    assert (forall i :: 0 <= i < |s| ==> IsJsSpace(s[i])) <==> a == |s| by {
      if a < |s| { assert !IsJsSpace(s[a]); }
    }
    rest[..|rest| - b]
  }

  /** `trim` is the identity on a string that neither starts nor ends with white space. */
  lemma JsTrimKeepsTrimmed(s: string)
    requires s == [] || (!IsJsSpace(s[0]) && !IsJsSpace(s[|s| - 1]))
    ensures JsTrim(s) == s
  {
    assert LeadingJsSpace(s) == 0;
    assert s[0..] == s;
    assert TrailingJsSpace(s) == 0;
  }

  lemma JsTrimIdempotent(s: string)
    ensures JsTrim(JsTrim(s)) == JsTrim(s)
  {
    JsTrimKeepsTrimmed(JsTrim(s));
  }

  /** The trimmed string is a slice of the original. */
  lemma JsTrimIsSlice(s: string)
    ensures exists a, b :: 0 <= a <= b <= |s| && JsTrim(s) == s[a..b]
  {
    var a := LeadingJsSpace(s);
    var rest := s[a..];
    var b := TrailingJsSpace(rest);
    assert JsTrim(s) == s[a..a + |rest| - b];
  }

  /** Trimming removes white space padding around a trimmed string. */
  lemma PaddedTrim(c: string, pad: string)
    requires |c| > 0 && !IsJsSpace(c[0]) && !IsJsSpace(c[|c| - 1])
    requires forall i :: 0 <= i < |pad| ==> IsJsSpace(pad[i])
    ensures JsTrim(pad + c + pad) == c
  {
    var s := pad + c + pad;
    var a := LeadingJsSpace(s);
    assert s[|pad|] == c[0];
    assert forall i :: 0 <= i < |pad| ==> IsJsSpace(s[i]);
    assert a == |pad|;
    var rest := s[a..];
    assert rest == c + pad;
    var b := TrailingJsSpace(rest);
    assert rest[|c| - 1] == c[|c| - 1];
    assert forall i :: |c| <= i < |rest| ==> IsJsSpace(rest[i]);
    assert b == |pad|;
    assert rest[..|rest| - b] == c;
  }

  /** `trimEnd` leaves a string that does not end in white space as it is. */
  lemma TrimEndKeeps(s: string)
    requires s == [] || !IsJsSpace(s[|s| - 1])
    ensures TrimEnd(s) == s
  {
    assert TrailingJsSpace(s) == 0;
  }

  /** `t` occurs in `s` at `i`. */
  predicate OccursAt(s: string, t: string, i: nat)
  {
    i + |t| <= |s| && s[i..i + |t|] == t
  }

  /** `s.indexOf(t, from)`: the first occurrence at or after `from`, or -1. */
  function IndexOf(s: string, t: string, from: nat): (r: int)
    ensures r == -1 || (from <= r && OccursAt(s, t, r))
    ensures r >= 0 ==> forall i :: from <= i < r ==> !OccursAt(s, t, i)
    ensures r == -1 ==> forall i :: from <= i ==> !OccursAt(s, t, i)
    decreases |s| - from
  {
    if from + |t| > |s| then -1
    else if s[from..from + |t|] == t then from
    else IndexOf(s, t, from + 1)
  }

  /** `s.includes(t)`. */
  predicate Includes(s: string, t: string)
  {
    IndexOf(s, t, 0) >= 0
  }

  lemma IncludesIff(s: string, t: string)
    ensures Includes(s, t) <==> exists i :: OccursAt(s, t, i)
  {
    if !Includes(s, t) {
      assert forall i :: 0 <= i ==> !OccursAt(s, t, i);
    }
  }

  /** `detectEol(text)`: CRLF when the text holds one, LF otherwise. */
  function DetectEol(text: string): (r: string)
    ensures r == "\r\n" || r == "\n"
    ensures r == "\r\n" <==> exists i :: OccursAt(text, "\r\n", i)
  {
    IncludesIff(text, "\r\n");
    if Includes(text, "\r\n") then "\r\n" else "\n"
  }

  /** Text without a carriage return is taken to use LF. */
  lemma DetectEolWithoutCR(text: string)
    requires forall i :: 0 <= i < |text| ==> text[i] != '\r'
    ensures DetectEol(text) == "\n"
  {
    forall i: nat ensures !OccursAt(text, "\r\n", i) {
      assert i + 2 <= |text| ==> text[i..i + 2][0] == text[i];
    }
  }

  /** `s.replace(/pat/g, rep)` and `s.split(pat).join(rep)` for a literal,
      non-empty pattern: occurrences are replaced left to right and do not
      overlap. */
  function ReplaceAll(s: string, pat: string, rep: string): (r: string)
    requires |pat| > 0
    decreases |s|
  {
    if |s| < |pat| then s
    else if s[..|pat|] == pat then rep + ReplaceAll(s[|pat|..], pat, rep)
    else [s[0]] + ReplaceAll(s[1..], pat, rep)
  }

  /** Without an occurrence of the pattern, replacement changes nothing. */
  lemma {:induction false} ReplaceAllAbsent(s: string, pat: string, rep: string)
    requires |pat| > 0
    requires forall i :: !OccursAt(s, pat, i)
    ensures ReplaceAll(s, pat, rep) == s
    decreases |s|
  {
    if |s| >= |pat| {
      assert !OccursAt(s, pat, 0);
      assert s[..|pat|] == s[0..|pat|];
      forall i: nat ensures !OccursAt(s[1..], pat, i) {
        assert !OccursAt(s, pat, i + 1);
        assert i + |pat| <= |s| - 1 ==> s[1..][i..i + |pat|] == s[i + 1..i + 1 + |pat|];
      }
      ReplaceAllAbsent(s[1..], pat, rep);
      assert s == [s[0]] + s[1..];
    }
  }

  /** A single character replaced everywhere by a string. */
  function ReplaceEachChar(s: string, c: char, rep: string): (r: string)
    ensures forall i :: 0 <= i < |r| && r[i] == c ==> c in rep
  {
    if |s| == 0 then ""
    else (if s[0] == c then rep else [s[0]]) + ReplaceEachChar(s[1..], c, rep)
  }

  lemma {:induction false} ReplaceAllOneChar(s: string, c: char, rep: string)
    ensures ReplaceAll(s, [c], rep) == ReplaceEachChar(s, c, rep)
    decreases |s|
  {
    if |s| > 0 {
      ReplaceAllOneChar(s[1..], c, rep);
      assert s[..1] == [s[0]];
    }
  }

  /** A carriage return at the end removed. */
  function DropCR(p: string): (r: string)
    ensures r == p || (p == r + ['\r'])
  {
    if |p| > 0 && p[|p| - 1] == '\r' then p[..|p| - 1] else p
  }

  /** `s.split(/\r?\n/)`: the pieces between line feeds, each without the
      carriage return that preceded its line feed. */
  function SplitLines(s: string): (r: seq<string>)
    ensures |r| >= 1
    ensures forall k, i :: 0 <= k < |r| && 0 <= i < |r[k]| ==> r[k][i] != '\n'
    decreases |s|
  {
    var i := IndexOfChar(s, '\n', 0);
    if i < 0 then [s] else [DropCR(s[..i])] + SplitLines(s[i + 1..])
  }

  /** A line with neither line feed nor carriage return is split off the
      front of the text at the line feed after it. */
  lemma SplitLinesCons(x: string, rest: string)
    requires forall i :: 0 <= i < |x| ==> x[i] != '\n' && x[i] != '\r'
    ensures SplitLines(x + ['\n'] + rest) == [x] + SplitLines(rest)
  {
    var s := x + ['\n'] + rest;
    IndexOfCharAt(s, '\n', 0, |x|);
    assert s[..|x|] == x;
    assert s[|x| + 1..] == rest;
    assert |x| > 0 ==> x[|x| - 1] != '\r';
    assert DropCR(x) == x;
  }

  /** Lines without carriage returns are recovered by joining them on line feeds. */
  lemma {:induction false} SplitLinesJoin(lines: seq<string>)
    requires |lines| >= 1
    requires forall k, i :: 0 <= k < |lines| && 0 <= i < |lines[k]| ==> lines[k][i] != '\n' && lines[k][i] != '\r'
    ensures SplitLines(JoinWith(lines, '\n')) == lines
  {
    if |lines| == 1 {
      assert forall i :: 0 <= i < |lines[0]| ==> lines[0][i] != '\n';
    } else {
      var rest := JoinWith(lines[1..], '\n');
      assert JoinWith(lines, '\n') == lines[0] + ['\n'] + rest;
      assert SplitLines(lines[0] + ['\n'] + rest) == [lines[0]] + SplitLines(rest) by {
        SplitLinesCons(lines[0], rest);
      }
      assert SplitLines(rest) == lines[1..] by {
        SplitLinesJoin(lines[1..]);
      }
      assert lines == [lines[0]] + lines[1..];
    }
  }

  /** Splitting a piece without the separator off the front. */
  lemma SplitCons(x: string, rest: string, c: char)
    requires forall i :: 0 <= i < |x| ==> x[i] != c
    ensures SplitOn(x + [c] + rest, c) == [x] + SplitOn(rest, c)
  {
    var s := x + [c] + rest;
    IndexOfCharAt(s, c, 0, |x|);
    assert s[..|x|] == x;
    assert s[|x| + 1..] == rest;
  }

  lemma SplitNone(x: string, c: char)
    requires forall i :: 0 <= i < |x| ==> x[i] != c
    ensures SplitOn(x, c) == [x]
  {
    assert IndexOfChar(x, c, 0) == -1;
  }

  /** Pieces without the separator are recovered by splitting their join. */
  lemma {:induction false} SplitOnJoin(parts: seq<string>, c: char)
    requires |parts| >= 1
    requires forall k, i :: 0 <= k < |parts| && 0 <= i < |parts[k]| ==> parts[k][i] != c
    ensures SplitOn(JoinWith(parts, c), c) == parts
  {
    if |parts| == 1 {
      SplitNone(parts[0], c);
    } else {
      SplitOnJoin(parts[1..], c);
      assert forall i :: 0 <= i < |parts[0]| ==> parts[0][i] != c;
      SplitCons(parts[0], JoinWith(parts[1..], c), c);
      assert parts == [parts[0]] + parts[1..];
    }
  }

  /** One or more ASCII digits. */
  predicate IsDigits(s: string)
  {
    |s| > 0 && forall i :: 0 <= i < |s| ==> IsAsciiDigit(s[i])
  }

  /** `^\d+\.\d+$`: two digit groups around one dot. */
  predicate IsTwoPartClause(s: string)
  {
    var parts := SplitOn(s, '.');
    |parts| == 2 && IsDigits(parts[0]) && IsDigits(parts[1])
  }

  /** "p.q" for two digit groups is a two-part clause made of them. */
  lemma TwoPartOf(p: string, q: string)
    requires IsDigits(p) && IsDigits(q)
    ensures SplitOn(p + "." + q, '.') == [p, q]
    ensures IsTwoPartClause(p + "." + q)
  {
    assert forall i :: 0 <= i < |p| ==> p[i] != '.';
    assert forall i :: 0 <= i < |q| ==> q[i] != '.';
    SplitCons(p, q, '.');
    SplitNone(q, '.');
  }
}
