/** Splitting a section's clause table of the ECMA-262 coverage documents
    into one document per subsection: the older status rollup, counting
    the rows of a subsection document, deciding whether a subsection
    document may be regenerated, and grouping rows by subsection. */
module SectionSplit {
  import opened JsValues
  import opened Text
  import opened ScriptText
  import opened PipeTable
  import StatusRollup

  // ---------------------------------------------------------------------
  // The older rollup
  // ---------------------------------------------------------------------

  /** The trimmed, non-blank statuses (`(s ?? '').trim()`, then a filter). */
  function NonBlank(statuses: seq<Option<string>>): (r: seq<string>)
    ensures forall y :: y in r <==> exists k :: 0 <= k < |statuses| && y == JsTrim(StatusRollup.StatusText(statuses[k])) && y != ""
  {
    if |statuses| == 0 then []
    else
      var t := JsTrim(StatusRollup.StatusText(statuses[0]));
      var rest := NonBlank(statuses[1..]);
      assert forall k :: 1 <= k < |statuses| ==> statuses[1..][k - 1] == statuses[k];
      (if t == "" then [] else [t]) + rest
  }

  /** `getRollupStatus(statuses)` of the splitting script: the first of
      Not Yet Supported (or the legacy "Not Supported"), Partially
      Supported and Supported that occurs, else Untracked. */
  function SplitRollupStatus(statuses: seq<Option<string>>): (r: string)
  {
    var norm := NonBlank(statuses);
    if StatusRollup.NotYet in norm then StatusRollup.NotYet
    else if StatusRollup.LegacyNotSupported in norm then StatusRollup.NotYet
    else if StatusRollup.LegacyPartially in norm then StatusRollup.LegacyPartially
    else if StatusRollup.Supported in norm then StatusRollup.Supported
    else StatusRollup.Untracked
  }

  /** The precedence of a status: Not Yet Supported > Partially Supported >
      Supported > anything else. */
  function Rank(s: string): nat
  {
    if s == StatusRollup.NotYet || s == StatusRollup.LegacyNotSupported then 3
    else if s == StatusRollup.LegacyPartially then 2
    else if s == StatusRollup.Supported then 1
    else 0
  }

  function RankName(n: nat): string
  {
    if n == 3 then StatusRollup.NotYet
    else if n == 2 then StatusRollup.LegacyPartially
    else if n == 1 then StatusRollup.Supported
    else StatusRollup.Untracked
  }

  /** The highest precedence among `s`, 0 for none. */
  function MaxRank(s: seq<string>): (r: nat)
    ensures r <= 3
    ensures forall y :: y in s ==> Rank(y) <= r
    ensures r > 0 ==> exists y :: y in s && Rank(y) == r
  {
    if |s| == 0 then 0
    else
      var m := MaxRank(s[1..]);
      assert forall y :: y in s[1..] ==> y in s;
      if Rank(s[0]) >= m then Rank(s[0]) else m
  }

  /** The older rollup is the name of the highest precedence that occurs. */
  lemma SplitRollupIsHighestRank(statuses: seq<Option<string>>)
    ensures SplitRollupStatus(statuses) == RankName(MaxRank(NonBlank(statuses)))
  {
    var norm := NonBlank(statuses);
    var m := MaxRank(norm);
    RankLevels(norm);
    if StatusRollup.NotYet in norm || StatusRollup.LegacyNotSupported in norm {
      assert m == 3;
    } else if StatusRollup.LegacyPartially in norm {
      assert m == 2;
    } else if StatusRollup.Supported in norm {
      assert m == 1;
    } else {
      assert m == 0;
    }
  }

  /** Which statuses are present decides the highest precedence. */
  lemma RankLevels(norm: seq<string>)
    ensures MaxRank(norm) == 3 <==> StatusRollup.NotYet in norm || StatusRollup.LegacyNotSupported in norm
    ensures MaxRank(norm) >= 2 <==> StatusRollup.NotYet in norm || StatusRollup.LegacyNotSupported in norm || StatusRollup.LegacyPartially in norm
    ensures MaxRank(norm) >= 1 <==> StatusRollup.NotYet in norm || StatusRollup.LegacyNotSupported in norm || StatusRollup.LegacyPartially in norm || StatusRollup.Supported in norm
  {
    var m := MaxRank(norm);
    if m > 0 {
      var y :| y in norm && Rank(y) == m;
      RankOf(y);
    }
    RankOf(StatusRollup.NotYet);
    RankOf(StatusRollup.LegacyNotSupported);
    RankOf(StatusRollup.LegacyPartially);
    RankOf(StatusRollup.Supported);
  }

  lemma RankOf(y: string)
    ensures Rank(y) == 3 <==> y == StatusRollup.NotYet || y == StatusRollup.LegacyNotSupported
    ensures Rank(y) == 2 <==> y == StatusRollup.LegacyPartially
    ensures Rank(y) == 1 <==> y == StatusRollup.Supported
  {
  }

  // ---------------------------------------------------------------------
  // Reading a subsection document
  // ---------------------------------------------------------------------

  // Written in short pieces so that the verifier can look at their characters.
  const Marker := "<!-- AUTO-" + "GENERATED: " + "splitEcma262" + "SectionsInto" + "Subsections" + ".ps1 -->"
  const ClauseHeader := "| Clause | " + "Title | " + "Status | " + "Link |"

  /** `readLines`: the lines of the text, without the empty line after a
      final line break. */
  function ReadLines(text: string): (r: seq<string>)
    ensures |r| <= |SplitLines(text)|
    ensures r == SplitLines(text) || r + [""] == SplitLines(text)
  {
    var lines := SplitLines(text);
    if lines[|lines| - 1] == "" then lines[..|lines| - 1] else lines
  }

  /** The first index of `needle` in `lines`, or -1. */
  function LineIndex(lines: seq<string>, needle: string): (r: int)
    ensures r == -1 <==> needle !in lines
    ensures r >= 0 ==> r < |lines| && lines[r] == needle && needle !in lines[..r]
  {
    if |lines| == 0 then -1
    else if lines[0] == needle then 0
    else
      var t := LineIndex(lines[1..], needle);
      assert lines[1..][..(if t >= 0 then t else 0)] == lines[1..(if t >= 0 then t else 0) + 1];
      if t < 0 then -1 else t + 1
  }

  /** `findLineIndex(lines, needle)`. */
  method FindLineIndex(lines: seq<string>, needle: string) returns (r: int)
    ensures r == LineIndex(lines, needle)
  {
    var i := 0;
    while i < |lines|
      invariant 0 <= i <= |lines|
      invariant needle !in lines[..i]
      decreases |lines| - i
    {
      if lines[i] == needle {
        FirstAt(lines, needle, i);
        return i;
      }
      assert lines[..i + 1] == lines[..i] + [lines[i]];
      i := i + 1;
    }
    assert lines[..i] == lines;
    return -1;
  }

  lemma FirstAt(lines: seq<string>, needle: string, i: nat)
    requires i < |lines| && lines[i] == needle && needle !in lines[..i]
    ensures LineIndex(lines, needle) == i
  {
    var r := LineIndex(lines, needle);
    assert r >= 0;
  }

  /** The number of clause rows among `lines[i..]`. */
  function RowsFrom(lines: seq<string>, i: nat): (n: nat)
    requires i <= |lines|
    ensures n <= |lines| - i
    decreases |lines| - i
  {
    if i == |lines| then 0
    else (if ParseClauseTableRow(lines[i]).Some? then 1 else 0) + RowsFrom(lines, i + 1)
  }

  /** The data rows of the clause table: the clause rows after the header
      and its separator line, 0 without a header. */
  function TableRowCount(lines: seq<string>): (n: nat)
  {
    var h := LineIndex(lines, ClauseHeader);
    if h < 0 || h + 2 > |lines| then 0 else RowsFrom(lines, h + 2)
  }

  /** The counting loop of `getSubsectionDocTableRowCount`, over the lines
      of an existing file. */
  method CountTableRows(lines: seq<string>) returns (count: nat)
    ensures count == TableRowCount(lines)
  {
    var headerIndex := FindLineIndex(lines, ClauseHeader);
    if headerIndex < 0 {
      return 0;
    }
    if headerIndex + 2 > |lines| {
      return 0;
    }
    count := CountRowsFrom(lines, headerIndex + 2);
    TableRowCountAt(lines, headerIndex);
  }

  /** The loop itself: the clause rows among `lines[start..]`. */
  method CountRowsFrom(lines: seq<string>, start: nat) returns (count: nat)
    requires start <= |lines|
    ensures count == RowsFrom(lines, start)
  {
    count := 0;
    var i := start;
    while i < |lines|
      invariant start <= i <= |lines|
      invariant count + RowsFrom(lines, i) == RowsFrom(lines, start)
      decreases |lines| - i
    {
      RowsFromStep(lines, i);
      var t := JsTrim(lines[i]);
      if |t| == 0 || t[0] != '|' {
        NotAPipeRow(lines[i]);
      } else if ParseClauseTableRow(lines[i]).Some? {
        count := count + 1;
      }
      i := i + 1;
    }
  }

  lemma RowsFromStep(lines: seq<string>, i: nat)
    requires i < |lines|
    ensures RowsFrom(lines, i) == (if ParseClauseTableRow(lines[i]).Some? then 1 else 0) + RowsFrom(lines, i + 1)
  {
  }

  /** A line whose trimmed text does not start with '|' is no clause row. */
  lemma NotAPipeRow(l: string)
    requires |JsTrim(l)| == 0 || JsTrim(l)[0] != '|'
    ensures ParseClauseTableRow(l).None?
  {
  }

  /** `shouldOverwriteSubsectionDoc`, over the file's text (`None` when it
      does not exist): a missing file, the generator's marker among the
      first 20 lines, or a table with at most one data row. */
  function ShouldOverwriteSubsectionDoc(file: Option<string>): (r: bool)
    ensures file.None? ==> r
    ensures file.Some? && Marker in SplitLines(file.value)[..Min(20, |SplitLines(file.value)|)] ==> r
    ensures file.Some? && !r ==> TableRowCount(ReadLines(file.value)) >= 2
    ensures file.Some? ==>
      (r <==> Marker in SplitLines(file.value)[..Min(20, |SplitLines(file.value)|)]
              || TableRowCount(ReadLines(file.value)) <= 1)
  {
    if file.None? then true
    else
      var lines := SplitLines(file.value);
      var firstChunk := lines[..Min(20, |lines|)];
      if Marker in firstChunk then true
      else TableRowCount(ReadLines(file.value)) <= 1
  }

  // ---------------------------------------------------------------------
  // Grouping rows by subsection
  // ---------------------------------------------------------------------

  /** `new RegExp(`^${n}\.(\d+)(\.|$)`).exec(clause)`: the digits after
      "n." when they end the clause or a '.' follows them. */
  function GroupKey(n: nat, clause: string): (r: Option<string>)
    ensures r.Some? ==> IsDigits(r.value)
  {
    KeyAfter(NatToString(n) + ".", clause)
  }

  /** The digits after the prefix `p` when they end the clause or a '.'
      follows them. */
  function KeyAfter(p: string, clause: string): (r: Option<string>)
    ensures r.Some? ==> IsDigits(r.value)
  {
    if !IsPrefix(p, clause) then None
    else
      var rest := clause[|p|..];
      var d := LeadingDigits(rest);
      if d > 0 && (d == |rest| || rest[d] == '.') then Some(rest[..d]) else None
  }

  /** The keys of the subsection map in insertion order: each key once, in
      the order of its first row. */
  method GroupKeys(n: nat, rows: seq<ClauseRow>) returns (keys: seq<string>)
    ensures forall a, b :: 0 <= a < b < |keys| ==> keys[a] != keys[b]
    ensures forall k :: k in keys <==> exists i :: 0 <= i < |rows| && GroupKey(n, rows[i].clause) == Some(k)
  {
    keys := [];
    var i := 0;
    while i < |rows|
      invariant 0 <= i <= |rows|
      invariant forall a, b :: 0 <= a < b < |keys| ==> keys[a] != keys[b]
      invariant forall k :: k in keys <==> exists j :: 0 <= j < i && GroupKey(n, rows[j].clause) == Some(k)
      decreases |rows| - i
    {
      var m := GroupKey(n, rows[i].clause);
      if m.Some? && m.value !in keys {
        keys := keys + [m.value];
      }
      i := i + 1;
    }
  }

  predicate SortedNats(s: seq<nat>)
  {
    forall a, b :: 0 <= a < b < |s| ==> s[a] <= s[b]
  }

  /** `x` put before the first element of `s` that is not smaller. */
  function Insert(x: nat, s: seq<nat>): (r: seq<nat>)
    ensures multiset(r) == multiset(s) + multiset{x}
  {
    if |s| == 0 then [x]
    else if x <= s[0] then [x] + s
    else
      assert s == [s[0]] + s[1..];
      [s[0]] + Insert(x, s[1..])
  }

  lemma {:induction false} InsertSorted(x: nat, s: seq<nat>)
    requires SortedNats(s)
    ensures SortedNats(Insert(x, s))
    decreases |s|
  {
    if |s| > 0 && x > s[0] {
      InsertSorted(x, s[1..]);
      var t := Insert(x, s[1..]);
      forall i | 0 <= i < |t| ensures s[0] <= t[i] {
        assert t[i] in multiset(t);
        assert t[i] == x || t[i] in multiset(s[1..]);
        assert t[i] == x || t[i] in s[1..];
      }
    }
  }

  /** `.sort((a, b) => a - b)` on natural numbers. */
  function SortNats(s: seq<nat>): (r: seq<nat>)
    ensures SortedNats(r) && multiset(r) == multiset(s)
  {
    if |s| == 0 then []
    else
      assert s == [s[0]] + s[1..];
      InsertSorted(s[0], SortNats(s[1..]));
      Insert(s[0], SortNats(s[1..]))
  }

  function KeyValues(keys: seq<string>): (r: seq<nat>)
    requires forall i, j :: 0 <= i < |keys| && 0 <= j < |keys[i]| ==> IsAsciiDigit(keys[i][j])
    ensures |r| == |keys| && forall i :: 0 <= i < |keys| ==> r[i] == DigitsToNat(keys[i])
  {
    if |keys| == 0 then [] else [DigitsToNat(keys[0])] + KeyValues(keys[1..])
  }

  /** The subsections in numeric order (`parseInt`, sort, `String`). */
  function SubsectionOrder(keys: seq<string>): (r: seq<nat>)
    requires forall i, j :: 0 <= i < |keys| && 0 <= j < |keys[i]| ==> IsAsciiDigit(keys[i][j])
    ensures SortedNats(r)
    ensures multiset(r) == multiset(KeyValues(keys))
  {
    SortNats(KeyValues(keys))
  }

  /** "n.k". */
  function SubClause(n: nat, k: nat): string
  {
    NatToString(n) + "." + NatToString(k)
  }

  /** The rows of subsection n.k: its own row and the rows below it. */
  function SubRows(n: nat, k: nat, rows: seq<ClauseRow>): (r: seq<ClauseRow>)
    ensures forall x :: x in r <==> x in rows && (x.clause == SubClause(n, k) || IsPrefix(SubClause(n, k) + ".", x.clause))
  {
    if |rows| == 0 then []
    else
      var x := rows[0];
      var keep := x.clause == SubClause(n, k) || IsPrefix(SubClause(n, k) + ".", x.clause);
      assert forall y :: y in rows <==> y == x || y in rows[1..];
      (if keep then [x] else []) + SubRows(n, k, rows[1..])
  }

  /** A row belongs to subsection n.k exactly when its group key is k
      written in decimal. */
  lemma SubRowsMatchGroupKey(n: nat, k: nat, clause: string)
    ensures clause == SubClause(n, k) || IsPrefix(SubClause(n, k) + ".", clause)
      <==> GroupKey(n, clause) == Some(NatToString(k))
  {
    var p := NatToString(n) + ".";
    var ks := NatToString(k);
    assert SubClause(n, k) == p + ks;
    assert IsDigits(ks);
    if clause == p + ks || IsPrefix(p + ks + ".", clause) {
      KeyAfterOwnClause(p, ks, clause);
    }
    if KeyAfter(p, clause) == Some(ks) {
      KeyAfterMeansOwnClause(p, ks, clause);
    }
  }

  /** The clause `p + ks` and the clauses below it have the key `ks`. */
  lemma KeyAfterOwnClause(p: string, ks: string, clause: string)
    requires IsDigits(ks)
    requires clause == p + ks || IsPrefix(p + ks + ".", clause)
    ensures KeyAfter(p, clause) == Some(ks)
  {
    if clause == p + ks {
      assert clause[..|p|] == p;
      assert clause[|p|..] == ks;
      DigitsRun(ks, "");
      assert ks + "" == ks;
    } else {
      assert clause[..|p|] == p;
      var rest := clause[|p|..];
      assert rest == ks + ("." + clause[|p| + |ks| + 1..]);
      DigitsRun(ks, "." + clause[|p| + |ks| + 1..]);
    }
  }

  /** A clause with the key `ks` is `p + ks` or below it. */
  lemma KeyAfterMeansOwnClause(p: string, ks: string, clause: string)
    requires KeyAfter(p, clause) == Some(ks)
    ensures clause == p + ks || IsPrefix(p + ks + ".", clause)
  {
    var rest := clause[|p|..];
    var d := LeadingDigits(rest);
    assert rest[..d] == ks;
    assert clause[..|p|] == p;
    if d == |rest| {
      assert clause == p + ks;
    } else {
      assert clause[..|p + ks + "."|] == p + ks + ".";
    }
  }

  /** The digit run at the start of `ks + tail` is `ks` when the tail does
      not start with a digit. */
  lemma DigitsRun(ks: string, tail: string)
    requires IsDigits(ks)
    requires |tail| == 0 || !IsAsciiDigit(tail[0])
    ensures LeadingDigits(ks + tail) == |ks|
    ensures (ks + tail)[..|ks|] == ks
  {
    var s := ks + tail;
    assert forall i :: 0 <= i < |ks| ==> s[i] == ks[i];
    assert |tail| > 0 ==> s[|ks|] == tail[0];
  }

  /** The subsection's title: its own row's title, else the first row's. */
  function SubTitle(n: nat, k: nat, subRows: seq<ClauseRow>): string
    requires |subRows| > 0
  {
    if exists i :: 0 <= i < |subRows| && subRows[i].clause == SubClause(n, k) then
      subRows[FirstWithClause(subRows, SubClause(n, k))].title
    else subRows[0].title
  }

  function FirstWithClause(rows: seq<ClauseRow>, clause: string): (i: nat)
    requires exists i :: 0 <= i < |rows| && rows[i].clause == clause
    ensures i < |rows| && rows[i].clause == clause
    ensures forall j :: 0 <= j < i ==> rows[j].clause != clause
  {
    if rows[0].clause == clause then 0
    else
      assert exists i :: 0 <= i < |rows[1..]| && rows[1..][i].clause == clause by {
        var i :| 0 <= i < |rows| && rows[i].clause == clause;
        assert rows[1..][i - 1].clause == clause;
      }
      1 + FirstWithClause(rows[1..], clause)
  }

  /** The lines of a generated subsection document. */
  function SubsectionDoc(n: nat, k: nat, title: string, subRows: seq<ClauseRow>): (r: seq<string>)
    ensures |r| == 8 + |subRows| && r[0] == Marker && r[6] == ClauseHeader
  {
    HeadLines(n, k, title) + RowLines(subRows)
  }

  /** The marker, the title, the back links and the table header. */
  function HeadLines(n: nat, k: nat, title: string): (r: seq<string>)
    ensures |r| == 8 && r[0] == Marker && r[6] == ClauseHeader
  {
    [Marker, "", "# Section " + SubClause(n, k) + ": " + title, "",
     "[Back to Section" + NatToString(n) + "](Section" + NatToString(n) + ".md) | [Back to Index](../Index.md)", "",
     ClauseHeader, "|---:|---|---|---|"]
  }

  /** No line before the table header is the header. */
  lemma HeadLinesBeforeHeader(n: nat, k: nat, title: string)
    ensures ClauseHeader !in HeadLines(n, k, title)[..6]
  {
    var h := HeadLines(n, k, title);
    assert h[0][0] == '<' && h[2][0] == '#' && h[4][0] == '[';
    assert ClauseHeader[0] == '|';
    assert |h[1]| == 0 && |h[3]| == 0 && |h[5]| == 0;
  }

  /** `| ${Clause} | ${Title} | ${Status} | ${Link} |` for each row. */
  function RowLines(rows: seq<ClauseRow>): (r: seq<string>)
    ensures |r| == |rows|
    ensures forall i :: 0 <= i < |rows| ==> r[i] == RenderRow([rows[i].clause, rows[i].title, rows[i].status, rows[i].link])
  {
    if |rows| == 0 then []
    else [RenderRow([rows[0].clause, rows[0].title, rows[0].status, rows[0].link])] + RowLines(rows[1..])
  }

  /** A table cell text for every field of the row. */
  predicate IsCellRow(r: ClauseRow)
  {
    IsCellText(r.clause) && IsCellText(r.title) && IsCellText(r.status) && IsCellText(r.link)
  }

  /** Every row written into a generated document is counted when the
      document is read back. */
  lemma GeneratedDocCountsItsRows(n: nat, k: nat, title: string, subRows: seq<ClauseRow>)
    requires forall i :: 0 <= i < |subRows| ==> IsCellRow(subRows[i])
    ensures TableRowCount(SubsectionDoc(n, k, title, subRows)) == |subRows|
  {
    var doc := SubsectionDoc(n, k, title, subRows);
    HeaderAtSix(n, k, title, subRows);
    assert RowsFrom(doc, 8) == |subRows| by {
      var rows := RowLines(subRows);
      assert forall j :: 0 <= j < |subRows| ==> doc[8 + j] == rows[j];
      RowsReadBack(doc, 8, subRows);
    }
    TableRowCountAt(doc, 6);
  }

  /** The count, once the header's line is known. */
  lemma TableRowCountAt(lines: seq<string>, h: nat)
    requires LineIndex(lines, ClauseHeader) == h && h + 2 <= |lines|
    ensures TableRowCount(lines) == RowsFrom(lines, h + 2)
  {
  }

  lemma HeaderAtSix(n: nat, k: nat, title: string, subRows: seq<ClauseRow>)
    ensures LineIndex(SubsectionDoc(n, k, title, subRows), ClauseHeader) == 6
  {
    var doc := SubsectionDoc(n, k, title, subRows);
    HeadLinesBeforeHeader(n, k, title);
    assert doc[..6] == HeadLines(n, k, title)[..6];
    FirstAt(doc, ClauseHeader, 6);
  }

  lemma {:induction false} RowsReadBack(doc: seq<string>, i: nat, rows: seq<ClauseRow>)
    requires i + |rows| == |doc|
    requires forall j :: 0 <= j < |rows| ==> IsCellRow(rows[j])
    requires forall j :: 0 <= j < |rows| ==> doc[i + j] == RenderRow([rows[j].clause, rows[j].title, rows[j].status, rows[j].link])
    ensures RowsFrom(doc, i) == |rows|
    decreases |rows|
  {
    if |rows| > 0 {
      RowIsCounted(doc[i], rows[0]);
      var rest := rows[1..];
      forall j | 0 <= j < |rest|
        ensures doc[i + 1 + j] == RenderRow([rest[j].clause, rest[j].title, rest[j].status, rest[j].link])
      {
        assert rest[j] == rows[j + 1];
      }
      RowsReadBack(doc, i + 1, rest);
    }
  }

  lemma RowIsCounted(line: string, r: ClauseRow)
    requires IsCellRow(r)
    requires line == RenderRow([r.clause, r.title, r.status, r.link])
    ensures ParseClauseTableRow(line).Some?
  {
    ClauseRowRoundTrip(r, []);
    assert [r.clause, r.title, r.status, r.link] + [] == [r.clause, r.title, r.status, r.link];
  }

  /** A generated document, written with LF line ends, may be regenerated:
      its first line is the marker. */
  lemma GeneratedDocIsOverwritable(n: nat, k: nat, title: string, subRows: seq<ClauseRow>)
    ensures ShouldOverwriteSubsectionDoc(Some(JoinWith(SubsectionDoc(n, k, title, subRows), '\n') + "\n"))
  {
    var doc := SubsectionDoc(n, k, title, subRows);
    var text := JoinWith(doc, '\n') + "\n";
    var lines := SplitLines(text);
    JoinStartsWith(doc);
    assert text[..|Marker| + 1] == Marker + "\n";
    assert text[..|Marker|] == Marker && text[|Marker|] == '\n';
    FirstLineIsMarker(text);
    assert lines[..Min(20, |lines|)][0] == Marker;
  }

  lemma JoinStartsWith(doc: seq<string>)
    requires |doc| >= 1
    ensures IsPrefix(doc[0] + "\n", JoinWith(doc, '\n') + "\n")
  {
    var j := JoinWith(doc, '\n');
    if |doc| > 1 {
      assert j == doc[0] + ['\n'] + JoinWith(doc[1..], '\n');
      assert (j + "\n")[..|doc[0]| + 1] == doc[0] + "\n";
    }
  }

  lemma FirstLineIsMarker(text: string)
    requires IsPrefix(Marker, text) && |text| > |Marker| && text[|Marker|] == '\n'
    ensures SplitLines(text)[0] == Marker
  {
    assert forall i :: 0 <= i < |Marker| ==> Marker[i] != '\n';
    assert forall i :: 0 <= i < |Marker| ==> text[i] == Marker[i];
    IndexOfCharAt(text, '\n', 0, |Marker|);
    assert text[..|Marker|] == Marker;
  }
}
