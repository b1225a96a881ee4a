/** `JavaScriptRuntime.String`: the regex-free part of the
    `String.prototype` helpers (ECMA-262 section 22.1.3): `split` with a
    string separator and a limit, `startsWith`, `endsWith` and `includes`
    with a position argument, first-occurrence `replace` with a plain-string
    pattern, and `localeCompare` with its numeric-aware variant.  A Dafny
    `char` is a Unicode scalar value; it stands for one UTF-16 code unit
    of a character in the Basic Multilingual Plane, so surrogate pairs and
    lone surrogates are outside the model.  All comparisons are ordinal. */
module JsString {
  import opened JsValues

  /** `pat` occurs in `s` starting at position `i`. */
  predicate OccursAt(s: string, pat: string, i: int)
  {
    0 <= i && i + |pat| <= |s| && s[i..i + |pat|] == pat
  }

  ghost predicate Contains(s: string, pat: string)
  {
    exists i :: OccursAt(s, pat, i)
  }

  /** `String.IndexOf(pat, from, StringComparison.Ordinal)`: the first
      occurrence at or after `from`, or -1 when there is none. */
  function IndexOf(s: string, pat: string, from: nat): (r: int)
    requires from <= |s|
    ensures r == -1 || (from <= r && OccursAt(s, pat, r))
    ensures r == -1 ==> forall i :: from <= i ==> !OccursAt(s, pat, i)
    ensures r >= 0 ==> forall i :: from <= i < r ==> !OccursAt(s, pat, i)
    decreases |s| - from
  {
    if OccursAt(s, pat, from) then from
    else if from == |s| then -1
    else IndexOf(s, pat, from + 1)
  }

  /** The position-clamping block of `startsWith`, `endsWith` and
      `includes`: an omitted argument gives the default, a given one is
      clamped into [0, len]. */
  function ClampPosition(position: Option<int>, dflt: nat, len: nat): (r: nat)
    requires dflt <= len
    ensures r <= len
    ensures position.None? ==> r == dflt
    ensures position.Some? && 0 <= position.value <= len ==> r == position.value
    ensures position.Some? && position.value < 0 ==> r == 0
    ensures position.Some? && position.value > len ==> r == len
  {
    match position
    case None => dflt
    case Some(d) => if d < 0 then 0 else if d > len then len else d
  }

  /** `startsWith(search, position)`: the search string occurs at the
      clamped position.  In particular an empty search string always
      succeeds and a search running past the end always fails. */
  function StartsWith(input: string, search: string, position: Option<int>): (r: bool)
    ensures r <==> OccursAt(input, search, ClampPosition(position, 0, |input|))
    ensures search == [] ==> r
    ensures ClampPosition(position, 0, |input|) + |search| > |input| ==> !r
  {
    var pos := ClampPosition(position, 0, |input|);
    if |search| == 0 then true
    else if pos + |search| > |input| then false
    else input[pos..pos + |search|] == search
  }

  /** `endsWith(search, length)`: the search string is a suffix of the
      input truncated to the clamped length (default: the whole input). */
  function EndsWith(input: string, search: string, length: Option<int>): (r: bool)
    ensures var len := ClampPosition(length, |input|, |input|);
      r <==> |search| <= len && input[len - |search|..len] == search
    ensures search == [] ==> r
  {
    var len := ClampPosition(length, |input|, |input|);
    if |search| == 0 then true
    else if len < |search| then false
    else input[..len][len - |search|..] == search
  }

  /** `includes(search, position)`: the search string occurs at or after
      the clamped position. */
  function Includes(input: string, search: string, position: Option<int>): (r: bool)
    ensures r <==> exists i :: ClampPosition(position, 0, |input|) <= i && OccursAt(input, search, i)
  {
    var pos := ClampPosition(position, 0, |input|);
    if |search| == 0 then
      assert OccursAt(input, search, pos);
      true
    else
      IndexOf(input, search, pos) >= 0
  }

  lemma StartsWithImpliesIncludes(input: string, search: string, position: Option<int>)
    ensures StartsWith(input, search, position) ==> Includes(input, search, position)
  {
    if StartsWith(input, search, position) {
      assert OccursAt(input, search, ClampPosition(position, 0, |input|));
    }
  }

  /** `replace(pattern, replacement)` with a plain-string pattern: only the
      first ordinal occurrence is replaced; an empty or absent pattern
      leaves the input unchanged. */
  function Replace(input: string, pattern: string, replacement: string): (r: string)
    ensures pattern == [] || !Contains(input, pattern) ==> r == input
    ensures pattern != [] && Contains(input, pattern) ==>
      exists i :: OccursAt(input, pattern, i)
        && (forall j :: 0 <= j < i ==> !OccursAt(input, pattern, j))
        && r == input[..i] + replacement + input[i + |pattern|..]
  {
    if |pattern| == 0 then input
    else
      var idx := IndexOf(input, pattern, 0);
      if idx < 0 then
        assert !Contains(input, pattern);
        input
      else
        assert OccursAt(input, pattern, idx) && Contains(input, pattern);
        assert forall j :: 0 <= j < idx ==> !OccursAt(input, pattern, j);
        input[..idx] + replacement + input[idx + |pattern|..]
  }

  /** Replacing a pattern by itself changes nothing. */
  lemma ReplaceBySelf(input: string, pattern: string)
    ensures Replace(input, pattern, pattern) == input
  {
    if |pattern| > 0 {
      var idx := IndexOf(input, pattern, 0);
      if idx >= 0 {
        assert input == input[..idx] + input[idx..idx + |pattern|] + input[idx + |pattern|..];
      }
    }
  }

  /** An occurrence in a prefix is an occurrence in the whole string. */
  lemma OccursInPrefix(s: string, pat: string, n: nat, i: int)
    requires n <= |s|
    ensures OccursAt(s[..n], pat, i) ==> OccursAt(s, pat, i)
  {
    if OccursAt(s[..n], pat, i) {
      assert s[..n][i..i + |pat|] == s[i..i + |pat|];
    }
  }

  /** The pieces of a split with a non-empty separator and no limit: the
      text before the first occurrence, then the split of the rest. */
  function SplitAll(s: string, sep: string): (r: seq<string>)
    requires sep != []
    ensures |r| >= 1
    decreases |s|
  {
    var idx := IndexOf(s, sep, 0);
    if idx < 0 then [s] else [s[..idx]] + SplitAll(s[idx + |sep|..], sep)
  }

  /** `Array.prototype.join(sep)` over strings. */
  function Join(parts: seq<string>, sep: string): string
  {
    if |parts| == 0 then []
    else if |parts| == 1 then parts[0]
    else parts[0] + sep + Join(parts[1..], sep)
  }

  /** Joining the pieces with the separator gives back the input. */
  lemma {:induction false} SplitJoin(s: string, sep: string)
    requires sep != []
    ensures Join(SplitAll(s, sep), sep) == s
    decreases |s|
  {
    var idx := IndexOf(s, sep, 0);
    if idx >= 0 {
      var rest := s[idx + |sep|..];
      var tail := SplitAll(rest, sep);
      SplitJoin(rest, sep);
      var parts := [s[..idx]] + tail;
      assert SplitAll(s, sep) == parts;
      assert parts[0] == s[..idx] && parts[1..] == tail && |parts| >= 2;
      assert Join(parts, sep) == s[..idx] + sep + rest;
      assert s == s[..idx] + sep + rest;
    }
  }

  /** No piece contains the separator. */
  lemma {:induction false} SplitPiecesAvoidSeparator(s: string, sep: string)
    requires sep != []
    ensures forall p :: p in SplitAll(s, sep) ==> !Contains(p, sep)
    decreases |s|
  {
    var idx := IndexOf(s, sep, 0);
    if idx < 0 {
      assert SplitAll(s, sep) == [s];
    } else {
      var rest := s[idx + |sep|..];
      SplitPiecesAvoidSeparator(rest, sep);
      var first := s[..idx];
      forall i | 0 <= i
        ensures OccursAt(first, sep, i) ==> OccursAt(s, sep, i)
      {
        OccursInPrefix(s, sep, idx, i);
      }
    }
  }

  /** `ToSplitLimit`: omitted means unlimited (2^31-1); zero or negative
      means 0. */
  function SplitLimit(limit: Option<int>): (r: nat)
    ensures r <= Int32Max
    ensures limit.None? ==> r == Int32Max
    ensures limit.Some? && limit.value <= 0 ==> r == 0
    ensures limit.Some? && 0 <= limit.value <= Int32Max ==> r == limit.value
  {
    match limit
    case None => Int32Max
    case Some(n) => if n <= 0 then 0 else if n > Int32Max then Int32Max else n
  }

  /** The first `n` pieces of `parts`, or all of them. */
  function Take(parts: seq<string>, n: nat): (r: seq<string>)
    ensures |r| == Min(n, |parts|)
    ensures r == parts[..|r|]
  {
    if n < |parts| then parts[..n] else parts
  }

  /** `split(separator, limit)` with a string or undefined separator: a
      limit of 0 gives no pieces; an undefined separator gives the whole
      input; an empty separator gives single code units, at most `limit`
      of them; otherwise the pieces are the first `limit` pieces of the
      unlimited split. */
  method Split(input: string, separator: Option<string>, limit: Option<int>) returns (r: seq<string>)
    ensures |r| <= SplitLimit(limit)
    ensures SplitLimit(limit) == 0 ==> r == []
    ensures SplitLimit(limit) > 0 && separator.None? ==> r == [input]
    ensures SplitLimit(limit) > 0 && separator == Some([]) ==>
      |r| == Min(|input|, SplitLimit(limit)) && forall i :: 0 <= i < |r| ==> r[i] == [input[i]]
    ensures SplitLimit(limit) > 0 && separator.Some? && separator.value != [] ==>
      r == Take(SplitAll(input, separator.value), SplitLimit(limit))
  {
    var maxCount := SplitLimit(limit);
    if maxCount == 0 {
      return [];
    }
    if separator.None? {
      return [input];
    }
    var sep := separator.value;
    if |sep| == 0 {
      r := SplitCodeUnits(input, maxCount);
    } else {
      r := SplitOnSeparator(input, sep, maxCount);
    }
  }

  /** The empty-separator branch of `split`: single code units, at most
      `maxCount` of them. */
  method SplitCodeUnits(input: string, maxCount: nat) returns (r: seq<string>)
    ensures |r| == Min(|input|, maxCount)
    ensures forall i :: 0 <= i < |r| ==> r[i] == [input[i]]
  {
    var take := Min(|input|, maxCount);
    r := [];
    for i := 0 to take
      invariant |r| == i
      invariant forall j :: 0 <= j < i ==> r[j] == [input[j]]
    {
      r := r + [[input[i]]];
    }
  }

  /** The manual ordinal split loop for a non-empty separator. */
  method SplitOnSeparator(input: string, sep: string, maxCount: nat) returns (r: seq<string>)
    requires sep != [] && maxCount > 0
    ensures r == Take(SplitAll(input, sep), maxCount)
  {
    ghost var all := SplitAll(input, sep);
    ghost var rest := all;
    var result: seq<string> := [];
    var start := 0;
    while true
      invariant 0 <= start <= |input|
      invariant |result| <= maxCount
      invariant rest == SplitAll(input[start..], sep)
      invariant all == result + rest
      decreases |input| - start
    {
      if |result| >= maxCount {
        TakeOfPrefix(all, result, rest);
        break;
      }
      var idx := IndexOf(input, sep, start);
      if idx < 0 {
        SplitFromEnd(input, sep, start);
        AppendPiece(all, result, input[start..], []);
        result := result + [input[start..]];
        break;
      }
      SplitFromStep(input, sep, start, idx);
      var piece := input[start..idx];
      ghost var next := SplitAll(input[idx + |sep|..], sep);
      AppendPiece(all, result, piece, next);
      result := result + [piece];
      start := idx + |sep|;
      rest := next;
      if start == |input| && |result| < maxCount {
        SplitOfEmpty(input[start..], sep);
        AppendPiece(all, result, [], []);
        result := result + [[]];
        break;
      }
    }
    r := result;
  }

  lemma TakeOfPrefix(all: seq<string>, result: seq<string>, rest: seq<string>)
    requires all == result + rest
    ensures Take(all, |result|) == result
  {
    assert all[..|result|] == result;
  }

  lemma AppendPiece(all: seq<string>, result: seq<string>, piece: string, rest: seq<string>)
    requires all == result + ([piece] + rest)
    ensures all == (result + [piece]) + rest
  {
  }

  lemma SplitOfEmpty(s: string, sep: string)
    requires sep != [] && s == []
    ensures SplitAll(s, sep) == [[]]
  {
  }

  /** Occurrences in a suffix are the occurrences in the whole string,
      shifted. */
  lemma OccursInSuffix(s: string, pat: string, start: nat, k: nat)
    requires start <= |s|
    ensures OccursAt(s[start..], pat, k) <==> OccursAt(s, pat, start + k)
  {
    if 0 <= k && k + |pat| <= |s| - start {
      assert s[start..][k..k + |pat|] == s[start + k..start + k + |pat|];
    }
  }

  /** Splitting the rest of the input from `start` when no separator is left. */
  lemma SplitFromEnd(s: string, sep: string, start: nat)
    requires sep != [] && start <= |s| && IndexOf(s, sep, start) < 0
    ensures SplitAll(s[start..], sep) == [s[start..]]
  {
    var t := s[start..];
    forall k | 0 <= k
      ensures !OccursAt(t, sep, k)
    {
      OccursInSuffix(s, sep, start, k);
    }
    assert IndexOf(t, sep, 0) == -1;
  }

  /** Splitting the rest of the input from `start` around the next separator. */
  lemma SplitFromStep(s: string, sep: string, start: nat, idx: int)
    requires sep != [] && start <= |s| && idx == IndexOf(s, sep, start) && idx >= 0
    ensures SplitAll(s[start..], sep) == [s[start..idx]] + SplitAll(s[idx + |sep|..], sep)
  {
    var t := s[start..];
    var k := IndexOf(t, sep, 0);
    assert 0 <= k <= idx - start by {
      OccursInSuffix(s, sep, start, idx - start);
    }
    assert start + k >= idx by {
      OccursInSuffix(s, sep, start, k);
    }
    assert SplitAll(t, sep) == [t[..k]] + SplitAll(t[k + |sep|..], sep);
    assert t[..k] == s[start..idx];
    assert t[k + |sep|..] == s[idx + |sep|..];
  }

  /** Ordinal comparison, -1/0/1. */
  function OrdinalCompare(a: string, b: string): (r: int)
    ensures r == -1 || r == 0 || r == 1
  {
    if a == [] && b == [] then 0
    else if a == [] then -1
    else if b == [] then 1
    else if a[0] != b[0] then (if a[0] < b[0] then -1 else 1)
    else OrdinalCompare(a[1..], b[1..])
  }

  lemma {:induction false} OrdinalCompareZeroIffEqual(a: string, b: string)
    ensures OrdinalCompare(a, b) == 0 <==> a == b
  {
    if a != [] && b != [] && a[0] == b[0] {
      OrdinalCompareZeroIffEqual(a[1..], b[1..]);
      assert a == [a[0]] + a[1..] && b == [b[0]] + b[1..];
    }
  }

  lemma {:induction false} OrdinalCompareAntisymmetric(a: string, b: string)
    ensures OrdinalCompare(a, b) == -OrdinalCompare(b, a)
  {
    if a != [] && b != [] && a[0] == b[0] {
      OrdinalCompareAntisymmetric(a[1..], b[1..]);
    }
  }

  /** `char.IsDigit`, for the decimal digits 0-9. */
  predicate IsDigit(c: char)
  {
    '0' <= c <= '9'
  }

  /** The length of the run of digits at the start of `s`. */
  function DigitRun(s: string): (r: nat)
    ensures r <= |s|
    ensures forall i :: 0 <= i < r ==> IsDigit(s[i])
    ensures r < |s| ==> !IsDigit(s[r])
  {
    if s != [] && IsDigit(s[0]) then 1 + DigitRun(s[1..]) else 0
  }

  /** The decimal value of a run of digits. */
  function DigitsValue(d: string): (r: nat)
    requires forall i :: 0 <= i < |d| ==> IsDigit(d[i])
  {
    if d == [] then 0
    else
      var last := d[|d| - 1];
      assert IsDigit(last);
      DigitsValue(d[..|d| - 1]) * 10 + (last as int - '0' as int)
  }

  /** Two digit runs of the same length and value are the same run. */
  lemma {:induction false} DigitsValueInjective(d: string, e: string)
    requires forall i :: 0 <= i < |d| ==> IsDigit(d[i])
    requires forall i :: 0 <= i < |e| ==> IsDigit(e[i])
    requires |d| == |e| && DigitsValue(d) == DigitsValue(e)
    ensures d == e
  {
    if d != [] {
      var n := |d| - 1;
      var x, y := d[n] as int - '0' as int, e[n] as int - '0' as int;
      var p, q := DigitsValue(d[..n]), DigitsValue(e[..n]);
      assert p * 10 + x == q * 10 + y by {
        assert DigitsValue(d) == p * 10 + x && DigitsValue(e) == q * 10 + y;
      }
      assert x == y && p == q by {
        assert IsDigit(d[n]) && IsDigit(e[n]);
        MulSmall(10, p - q, y - x);
      }
      assert d[..n] == e[..n] by {
        DigitsValueInjective(d[..n], e[..n]);
      }
      assert d == d[..n] + [d[n]] && e == e[..n] + [e[n]];
    }
  }

  const TwoTo63: int := 0x8000_0000_0000_0000
  const TwoTo64: int := 0x1_0000_0000_0000_0000

  /** Unchecked C# `long` arithmetic: the value congruent to `x` modulo
      2^64 in [-2^63, 2^63). */
  function ToLong(x: int): (r: int)
    ensures -TwoTo63 <= r < TwoTo63
    ensures 0 <= x < TwoTo63 ==> r == x
  {
    var m := x % TwoTo64;
    if m < TwoTo63 then m else m - TwoTo64
  }

  /** The `long` differs from `x` by a multiple of 2^64. */
  lemma ToLongIsCongruent(x: int)
    ensures (x - ToLong(x)) % TwoTo64 == 0
  {
  }

  /** Congruent arguments give the same `long`. */
  lemma ToLongCongruent(x: int, y: int)
    requires (x - y) % TwoTo64 == 0
    ensures ToLong(x) == ToLong(y)
  {
    var k := (x - y) / TwoTo64;
    assert x == y + k * TwoTo64;
    assert x % TwoTo64 == y % TwoTo64;
  }

  /** One step of `n = n * 10 + digit` in a `long` wraps the exact step. */
  lemma ToLongStep(v: int, c: int)
    ensures ToLong(ToLong(v) * 10 + c) == ToLong(v * 10 + c)
  {
    var t := v - ToLong(v);
    ToLongIsCongruent(v);
    var k := t / TwoTo64;
    assert t == k * TwoTo64;
    assert (v * 10 + c) - (ToLong(v) * 10 + c) == (k * 10) * TwoTo64;
    ToLongCongruent(v * 10 + c, ToLong(v) * 10 + c);
  }

  /** The `long` the source accumulates for a run of digits. */
  function LongValue(d: string): (r: int)
    requires forall i :: 0 <= i < |d| ==> IsDigit(d[i])
  {
    ToLong(DigitsValue(d))
  }

  function Pow10(n: nat): (r: nat)
  {
    if n == 0 then 1 else 10 * Pow10(n - 1)
  }

  lemma {:induction false} Pow10Monotone(m: nat, n: nat)
    requires m <= n
    ensures Pow10(m) <= Pow10(n)
    decreases n
  {
    if m < n {
      Pow10Monotone(m, n - 1);
    }
  }

  /** A run of `k` digits is below 10^k. */
  lemma {:induction false} DigitsValueBelow(d: string)
    requires forall i :: 0 <= i < |d| ==> IsDigit(d[i])
    ensures DigitsValue(d) < Pow10(|d|)
  {
    if d != [] {
      var n := |d| - 1;
      DigitsValueBelow(d[..n]);
      assert IsDigit(d[n]);
      assert DigitsValue(d) == DigitsValue(d[..n]) * 10 + (d[n] as int - '0' as int);
      assert DigitsValue(d[..n]) + 1 <= Pow10(n);
      assert (DigitsValue(d[..n]) + 1) * 10 <= Pow10(n) * 10;
    }
  }

  /** A run of at most 18 digits fits a `long`, so the source's value is
      the run's exact value. */
  lemma ShortRunIsExact(d: string)
    requires forall i :: 0 <= i < |d| ==> IsDigit(d[i])
    requires |d| <= 18
    ensures LongValue(d) == DigitsValue(d)
  {
    DigitsValueBelow(d);
    Pow10Monotone(|d|, 18);
    assert Pow10(1) == 10;
    assert Pow10(2) == 100;
    assert Pow10(3) == 1000;
    assert Pow10(4) == 10000;
    assert Pow10(5) == 100000;
    assert Pow10(6) == 1000000;
    assert Pow10(7) == 10000000;
    assert Pow10(8) == 100000000;
    assert Pow10(9) == 1000000000;
    assert Pow10(10) == 10000000000;
    assert Pow10(11) == 100000000000;
    assert Pow10(12) == 1000000000000;
    assert Pow10(13) == 10000000000000;
    assert Pow10(14) == 100000000000000;
    assert Pow10(15) == 1000000000000000;
    assert Pow10(16) == 10000000000000000;
    assert Pow10(17) == 100000000000000000;
    assert Pow10(18) == 1000000000000000000;
  }

  /** Two runs of at most 18 digits of equal length and equal `long`
      value are the same run. */
  lemma RunValueInjective(d: string, e: string)
    requires forall i :: 0 <= i < |d| ==> IsDigit(d[i])
    requires forall i :: 0 <= i < |e| ==> IsDigit(e[i])
    ensures |d| == |e| <= 18 && LongValue(d) == LongValue(e) ==> d == e
  {
    if |d| == |e| <= 18 && LongValue(d) == LongValue(e) {
      ShortRunIsExact(d);
      ShortRunIsExact(e);
      DigitsValueInjective(d, e);
    }
  }

  /** Every digit run of `s` has at most 18 digits: no suffix starts
      with more. */
  predicate ShortRuns(s: string)
    decreases |s|
  {
    s == [] || (DigitRun(s) <= 18 && ShortRuns(s[1..]))
  }

  lemma {:induction false} ShortRunsSuffix(s: string, k: nat)
    requires ShortRuns(s) && k <= |s|
    ensures ShortRuns(s[k..])
    decreases k
  {
    if k > 0 {
      ShortRunsSuffix(s[1..], k - 1);
      assert s[1..][k - 1..] == s[k..];
    }
  }

  /** Numeric-aware comparison: runs of digits compare by their `long`
      values, and equal values by run length (shorter first); other
      characters compare ordinally; a string that runs out first is less. */
  function NumericCompare(a: string, b: string): (r: int)
    ensures r == -1 || r == 0 || r == 1
    decreases |a|
  {
    if a == [] || b == [] then (if a == [] && b == [] then 0 else if a == [] then -1 else 1)
    else if IsDigit(a[0]) && IsDigit(b[0]) then
      var la, lb := DigitRun(a), DigitRun(b);
      var na, nb := LongValue(a[..la]), LongValue(b[..lb]);
      if na != nb then (if na < nb then -1 else 1)
      else if la != lb then (if la < lb then -1 else 1)
      else NumericCompare(a[la..], b[lb..])
    else if a[0] != b[0] then (if a[0] < b[0] then -1 else 1)
    else NumericCompare(a[1..], b[1..])
  }

  /** Equal strings compare as 0; when every digit run has at most 18
      digits, only equal strings do. */
  lemma {:induction false} NumericCompareZeroIffEqual(a: string, b: string)
    ensures a == b ==> NumericCompare(a, b) == 0
    ensures ShortRuns(a) && ShortRuns(b) && NumericCompare(a, b) == 0 ==> a == b
    decreases |a|, 1
  {
    if a != [] && b != [] {
      if IsDigit(a[0]) && IsDigit(b[0]) {
        ZeroIffEqualAtRuns(a, b);
      } else if a[0] == b[0] {
        ZeroIffEqualAtChar(a, b);
      }
    }
  }

  lemma {:induction false} ZeroIffEqualAtRuns(a: string, b: string)
    requires a != [] && b != [] && IsDigit(a[0]) && IsDigit(b[0])
    ensures a == b ==> NumericCompare(a, b) == 0
    ensures ShortRuns(a) && ShortRuns(b) && NumericCompare(a, b) == 0 ==> a == b
    decreases |a|, 0
  {
    var la, lb := DigitRun(a), DigitRun(b);
    if a == b {
      NumericCompareZeroIffEqual(a[la..], b[lb..]);
    }
    if ShortRuns(a) && ShortRuns(b) && NumericCompare(a, b) == 0 {
      assert LongValue(a[..la]) == LongValue(b[..lb]) && la == lb;
      assert ShortRuns(a[la..]) && ShortRuns(b[lb..]) by {
        ShortRunsSuffix(a, la);
        ShortRunsSuffix(b, lb);
      }
      assert a[la..] == b[lb..] by {
        NumericCompareZeroIffEqual(a[la..], b[lb..]);
      }
      assert a[..la] == b[..lb] by {
        RunValueInjective(a[..la], b[..lb]);
      }
      assert a == a[..la] + a[la..] && b == b[..lb] + b[lb..];
    }
  }

  lemma {:induction false} ZeroIffEqualAtChar(a: string, b: string)
    requires a != [] && b != [] && !(IsDigit(a[0]) && IsDigit(b[0])) && a[0] == b[0]
    ensures a == b ==> NumericCompare(a, b) == 0
    ensures ShortRuns(a) && ShortRuns(b) && NumericCompare(a, b) == 0 ==> a == b
    decreases |a|, 0
  {
    if ShortRuns(a) && ShortRuns(b) {
      ShortRunsSuffix(a, 1);
      ShortRunsSuffix(b, 1);
    }
    NumericCompareZeroIffEqual(a[1..], b[1..]);
    assert a == [a[0]] + a[1..] && b == [b[0]] + b[1..];
  }

  predicate AllDigits(d: string)
  {
    forall i :: 0 <= i < |d| ==> IsDigit(d[i])
  }

  lemma {:induction false} DigitRunAll(s: string)
    requires AllDigits(s)
    ensures DigitRun(s) == |s|
  {
    if s != [] {
      DigitRunAll(s[1..]);
    }
  }

  /** The value of a run's first `k + 1` digits extends that of its first `k`. */
  lemma DigitsValueStep(d: string, k: nat)
    requires AllDigits(d) && k < |d|
    ensures DigitsValue(d[..k + 1]) == DigitsValue(d[..k]) * 10 + (d[k] as int - '0' as int)
  {
    assert d[..k + 1][..k] == d[..k];
  }

  lemma {:induction false} DigitsValueZeros(d: string)
    requires forall i :: 0 <= i < |d| ==> d[i] == '0'
    ensures DigitsValue(d) == 0
  {
    if d != [] {
      DigitsValueZeros(d[..|d| - 1]);
    }
  }

  /** The twenty digits of 2^64. */
  lemma DigitsValue2To64(d: string)
    requires |d| == 20
    requires d[0] == '1' && d[1] == '8' && d[2] == '4' && d[3] == '4' && d[4] == '6' && d[5] == '7' && d[6] == '4' && d[7] == '4' && d[8] == '0' && d[9] == '7' && d[10] == '3' && d[11] == '7' && d[12] == '0' && d[13] == '9' && d[14] == '5' && d[15] == '5' && d[16] == '1' && d[17] == '6' && d[18] == '1' && d[19] == '6'
    ensures AllDigits(d) && DigitsValue(d) == TwoTo64
  {
    assert d[..0] == [];
    assert AllDigits(d);
    assert DigitsValue(d[..1]) == 1 by { DigitsValueStep(d, 0); }
    assert DigitsValue(d[..2]) == 18 by { DigitsValueStep(d, 1); }
    assert DigitsValue(d[..3]) == 184 by { DigitsValueStep(d, 2); }
    assert DigitsValue(d[..4]) == 1844 by { DigitsValueStep(d, 3); }
    assert DigitsValue(d[..5]) == 18446 by { DigitsValueStep(d, 4); }
    assert DigitsValue(d[..6]) == 184467 by { DigitsValueStep(d, 5); }
    assert DigitsValue(d[..7]) == 1844674 by { DigitsValueStep(d, 6); }
    assert DigitsValue(d[..8]) == 18446744 by { DigitsValueStep(d, 7); }
    assert DigitsValue(d[..9]) == 184467440 by { DigitsValueStep(d, 8); }
    assert DigitsValue(d[..10]) == 1844674407 by { DigitsValueStep(d, 9); }
    assert DigitsValue(d[..11]) == 18446744073 by { DigitsValueStep(d, 10); }
    assert DigitsValue(d[..12]) == 184467440737 by { DigitsValueStep(d, 11); }
    assert DigitsValue(d[..13]) == 1844674407370 by { DigitsValueStep(d, 12); }
    assert DigitsValue(d[..14]) == 18446744073709 by { DigitsValueStep(d, 13); }
    assert DigitsValue(d[..15]) == 184467440737095 by { DigitsValueStep(d, 14); }
    assert DigitsValue(d[..16]) == 1844674407370955 by { DigitsValueStep(d, 15); }
    assert DigitsValue(d[..17]) == 18446744073709551 by { DigitsValueStep(d, 16); }
    assert DigitsValue(d[..18]) == 184467440737095516 by { DigitsValueStep(d, 17); }
    assert DigitsValue(d[..19]) == 1844674407370955161 by { DigitsValueStep(d, 18); }
    assert DigitsValue(d[..20]) == 18446744073709551616 by { DigitsValueStep(d, 19); }
    assert d[..20] == d;
  }

  /** The nineteen digits of 2^63. */
  lemma DigitsValue2To63(d: string)
    requires |d| == 19
    requires d[0] == '9' && d[1] == '2' && d[2] == '2' && d[3] == '3' && d[4] == '3' && d[5] == '7' && d[6] == '2' && d[7] == '0' && d[8] == '3' && d[9] == '6' && d[10] == '8' && d[11] == '5' && d[12] == '4' && d[13] == '7' && d[14] == '7' && d[15] == '5' && d[16] == '8' && d[17] == '0' && d[18] == '8'
    ensures AllDigits(d) && DigitsValue(d) == TwoTo63
  {
    assert d[..0] == [];
    assert AllDigits(d);
    assert DigitsValue(d[..1]) == 9 by { DigitsValueStep(d, 0); }
    assert DigitsValue(d[..2]) == 92 by { DigitsValueStep(d, 1); }
    assert DigitsValue(d[..3]) == 922 by { DigitsValueStep(d, 2); }
    assert DigitsValue(d[..4]) == 9223 by { DigitsValueStep(d, 3); }
    assert DigitsValue(d[..5]) == 92233 by { DigitsValueStep(d, 4); }
    assert DigitsValue(d[..6]) == 922337 by { DigitsValueStep(d, 5); }
    assert DigitsValue(d[..7]) == 9223372 by { DigitsValueStep(d, 6); }
    assert DigitsValue(d[..8]) == 92233720 by { DigitsValueStep(d, 7); }
    assert DigitsValue(d[..9]) == 922337203 by { DigitsValueStep(d, 8); }
    assert DigitsValue(d[..10]) == 9223372036 by { DigitsValueStep(d, 9); }
    assert DigitsValue(d[..11]) == 92233720368 by { DigitsValueStep(d, 10); }
    assert DigitsValue(d[..12]) == 922337203685 by { DigitsValueStep(d, 11); }
    assert DigitsValue(d[..13]) == 9223372036854 by { DigitsValueStep(d, 12); }
    assert DigitsValue(d[..14]) == 92233720368547 by { DigitsValueStep(d, 13); }
    assert DigitsValue(d[..15]) == 922337203685477 by { DigitsValueStep(d, 14); }
    assert DigitsValue(d[..16]) == 9223372036854775 by { DigitsValueStep(d, 15); }
    assert DigitsValue(d[..17]) == 92233720368547758 by { DigitsValueStep(d, 16); }
    assert DigitsValue(d[..18]) == 922337203685477580 by { DigitsValueStep(d, 17); }
    assert DigitsValue(d[..19]) == 9223372036854775808 by { DigitsValueStep(d, 18); }
    assert d[..19] == d;
  }

  /** Two strings of digits compare by their `long` values, then by
      length. */
  lemma CompareWholeRuns(a: string, b: string)
    requires a != [] && b != [] && AllDigits(a) && AllDigits(b)
    ensures NumericCompare(a, b)
      == if LongValue(a) != LongValue(b) then (if LongValue(a) < LongValue(b) then -1 else 1)
         else if |a| != |b| then (if |a| < |b| then -1 else 1)
         else 0
  {
    DigitRunAll(a);
    DigitRunAll(b);
    assert a[..|a|] == a && b[..|b|] == b;
    assert a[|a|..] == [] && b[|b|..] == [];
  }

  /** Past 18 digits the `long` wraps: "18446744073709551616" (2^64) and
      twenty zeros both read as 0, so two different strings compare as
      equal. */
  lemma NumericCompareWrapCollision(a: string, b: string)
    requires a == "18446744073709551616" && b == "00000000000000000000"
    ensures a != b && NumericCompare(a, b) == 0
  {
    assert a[0] != b[0];
    DigitsValue2To64(a);
    DigitsValueZeros(b);
    CompareWholeRuns(a, b);
  }

  /** "9223372036854775808" (2^63) wraps to the least `long`, so it
      sorts before "1". */
  lemma NumericCompareWrapNegative(a: string, b: string)
    requires a == "9223372036854775808" && b == "1"
    ensures NumericCompare(a, b) == -1
  {
    DigitsValue2To63(a);
    assert DigitsValue(b) == DigitsValue(b[..0]) * 10 + 1;
    CompareWholeRuns(a, b);
  }

  lemma {:induction false} NumericCompareAntisymmetric(a: string, b: string)
    ensures NumericCompare(a, b) == -NumericCompare(b, a)
    decreases |a|
  {
    if a != [] && b != [] {
      if IsDigit(a[0]) && IsDigit(b[0]) {
        NumericCompareAntisymmetric(a[DigitRun(a)..], b[DigitRun(b)..]);
      } else if a[0] == b[0] {
        NumericCompareAntisymmetric(a[1..], b[1..]);
      }
    }
  }

  predicate NoDigits(s: string)
  {
    forall i :: 0 <= i < |s| ==> !IsDigit(s[i])
  }

  /** Without digits, numeric-aware comparison is ordinal comparison. */
  lemma {:induction false} NumericCompareWithoutDigits(a: string, b: string)
    requires NoDigits(a) && NoDigits(b)
    ensures NumericCompare(a, b) == OrdinalCompare(a, b)
  {
    if a != [] && b != [] && a[0] == b[0] {
      assert !IsDigit(a[0]);
      NumericCompareWithoutDigits(a[1..], b[1..]);
    }
  }

  /** `NumericAwareCompare`: the loop over the indices `ia` and `ib`. */
  method NumericAwareCompare(a: string, b: string) returns (r: int)
    ensures r == NumericCompare(a, b)
  {
    var ia, ib := 0, 0;
    while ia < |a| && ib < |b|
      invariant 0 <= ia <= |a| && 0 <= ib <= |b|
      invariant NumericCompare(a[ia..], b[ib..]) == NumericCompare(a, b)
      decreases |a| - ia
    {
      var ca, cb := a[ia], b[ib];
      if IsDigit(ca) && IsDigit(cb) {
        var sa, sb := ia, ib;
        var na, nb;
        na, ia := ScanDigits(a, ia);
        nb, ib := ScanDigits(b, ib);
        CompareDigitRuns(a, b, sa, sb, ia, ib);
        if na != nb {
          return if na < nb then -1 else 1;
        }
        var la, lb := ia - sa, ib - sb;
        if la != lb {
          return if la < lb then -1 else 1;
        }
        continue;
      }
      CompareChars(a, b, ia, ib);
      if ca != cb {
        return if ca < cb then -1 else 1;
      }
      ia, ib := ia + 1, ib + 1;
    }
    if ia == |a| && ib == |b| {
      return 0;
    }
    return if ia == |a| then -1 else 1;
  }

  /** At two digits the comparison is decided by the runs' values, then
      their lengths, and otherwise continues after both runs. */
  lemma CompareDigitRuns(a: string, b: string, sa: nat, sb: nat, ea: nat, eb: nat)
    requires sa < |a| && sb < |b| && IsDigit(a[sa]) && IsDigit(b[sb])
    requires ea == sa + DigitRun(a[sa..]) && eb == sb + DigitRun(b[sb..])
    ensures ea <= |a| && eb <= |b|
    ensures var na, nb := LongValue(a[sa..ea]), LongValue(b[sb..eb]);
      NumericCompare(a[sa..], b[sb..])
        == if na != nb then (if na < nb then -1 else 1)
           else if ea - sa != eb - sb then (if ea - sa < eb - sb then -1 else 1)
           else NumericCompare(a[ea..], b[eb..])
  {
    assert a[sa..][..ea - sa] == a[sa..ea] && b[sb..][..eb - sb] == b[sb..eb];
    assert a[sa..][ea - sa..] == a[ea..] && b[sb..][eb - sb..] == b[eb..];
  }

  /** At two characters that are not both digits the comparison is
      decided by them, or continues after them. */
  lemma CompareChars(a: string, b: string, ia: nat, ib: nat)
    requires ia < |a| && ib < |b| && !(IsDigit(a[ia]) && IsDigit(b[ib]))
    ensures NumericCompare(a[ia..], b[ib..])
      == if a[ia] != b[ib] then (if a[ia] < b[ib] then -1 else 1) else NumericCompare(a[ia + 1..], b[ib + 1..])
  {
    assert a[ia..][1..] == a[ia + 1..] && b[ib..][1..] == b[ib + 1..];
  }

  /** The inner digit loops: the `long` value of the digit run starting
      at `start`, which wraps modulo 2^64 past 18 digits, and the index
      just past the run. */
  method ScanDigits(s: string, start: nat) returns (n: int, i: nat)
    requires start <= |s|
    ensures i == start + DigitRun(s[start..])
    ensures n == LongValue(s[start..i])
    ensures i - start <= 18 ==> n == DigitsValue(s[start..i])
  {
    n := 0;
    i := start;
    assert LongValue(s[start..i]) == 0;
    while i < |s| && IsDigit(s[i])
      invariant start <= i <= |s|
      invariant forall j :: start <= j < i ==> IsDigit(s[j])
      invariant i - start + DigitRun(s[i..]) == DigitRun(s[start..])
      invariant n == LongValue(s[start..i])
    {
      LongStep(s, start, i);
      n := AccumulateDigit(n, s[i]);
      i := i + 1;
    }
    assert DigitRun(s[i..]) == 0;
    if i - start <= 18 {
      ShortRunIsExact(s[start..i]);
    }
  }

  /** One more digit: the run from `i` is one longer than the run after
      it, and the value of the digits so far gains a decimal place. */
  lemma DigitStep(s: string, start: nat, i: nat)
    requires start <= i < |s| && IsDigit(s[i])
    requires forall j :: start <= j < i ==> IsDigit(s[j])
    ensures DigitRun(s[i..]) == 1 + DigitRun(s[i + 1..])
    ensures DigitsValue(s[start..i + 1]) == DigitsValue(s[start..i]) * 10 + (s[i] as int - '0' as int)
  {
    assert s[i..][1..] == s[i + 1..];
    assert s[start..i + 1][..i - start] == s[start..i];
  }

  /** `n = n * 10 + (c - '0')` on a `long`. */
  function AccumulateDigit(n: int, c: char): int
  {
    ToLong(n * 10 + (c as int - '0' as int))
  }

  /** One more digit in the `long` accumulator. */
  lemma LongStep(s: string, start: nat, i: nat)
    requires start <= i < |s| && IsDigit(s[i])
    requires forall j :: start <= j < i ==> IsDigit(s[j])
    ensures DigitRun(s[i..]) == 1 + DigitRun(s[i + 1..])
    ensures LongValue(s[start..i + 1]) == AccumulateDigit(LongValue(s[start..i]), s[i])
  {
    DigitStep(s, start, i);
    ToLongStep(DigitsValue(s[start..i]), s[i] as int - '0' as int);
  }

  /** `localeCompare(other, locales, options)`: locales are ignored; with
      `numeric: true` the comparison is numeric-aware, otherwise ordinal;
      the result is -1, 0 or 1.  Equal strings give 0; without `numeric`,
      or when no digit run exceeds 18 digits, only equal strings do. */
  method LocaleCompare(input: string, other: string, numeric: bool) returns (r: int)
    ensures !numeric ==> r == OrdinalCompare(input, other)
    ensures numeric ==> r == NumericCompare(input, other)
    ensures r == -1 || r == 0 || r == 1
    ensures input == other ==> r == 0
    ensures r == 0 && (!numeric || (ShortRuns(input) && ShortRuns(other))) ==> input == other
  {
    if !numeric {
      OrdinalCompareZeroIffEqual(input, other);
      return OrdinalCompare(input, other);
    }
    NumericCompareZeroIffEqual(input, other);
    r := NumericAwareCompare(input, other);
  }
}
