/** The markdown pipe tables of the ECMA-262 coverage documents: reading a
    row into its cells, reading a clause row, and escaping a cell's text. */
module PipeTable {
  import opened JsValues
  import opened Text
  import opened ScriptText

  /** `parts.map((p) => p.trim())`. */
  function TrimAll(parts: seq<string>): (r: seq<string>)
    ensures |r| == |parts| && forall k :: 0 <= k < |parts| ==> r[k] == JsTrim(parts[k])
  {
    if |parts| == 0 then [] else [JsTrim(parts[0])] + TrimAll(parts[1..])
  }

  /** `parsePipeRow(line)`: `None` unless the trimmed line starts with '|';
      otherwise the trimmed '|'-separated cells, without the empty cell
      before the first '|' and an empty cell after the last. */
  function ParsePipeRow(line: string): (r: Option<seq<string>>)
    ensures r.None? <==> |JsTrim(line)| == 0 || JsTrim(line)[0] != '|'
  {
    var trimmed := JsTrim(line);
    if |trimmed| == 0 || trimmed[0] != '|' then None
    else
      var parts := TrimAll(SplitOn(trimmed, '|'));
      var a := if parts[0] == "" then parts[1..] else parts;
      var b := if |a| > 0 && a[|a| - 1] == "" then a[..|a| - 1] else a;
      Some(b)
  }

  /** Every cell of a pipe row is cell text: trimmed, and without '|'. */
  lemma ParsePipeRowCells(line: string)
    requires ParsePipeRow(line).Some?
    ensures forall k :: 0 <= k < |ParsePipeRow(line).value| ==> IsCellText(ParsePipeRow(line).value[k])
  {
    var trimmed := JsTrim(line);
    var parts := TrimAll(SplitOn(trimmed, '|'));
    TrimmedPiecesAreCells(trimmed);
    var a := if parts[0] == "" then parts[1..] else parts;
    assert forall k :: 0 <= k < |a| ==> IsCellText(a[k]);
  }

  /** Every trimmed piece of a split on '|' is cell text. */
  lemma TrimmedPiecesAreCells(t: string)
    ensures forall k :: 0 <= k < |TrimAll(SplitOn(t, '|'))| ==> IsCellText(TrimAll(SplitOn(t, '|'))[k])
  {
    var pieces := SplitOn(t, '|');
    forall k | 0 <= k < |pieces| ensures IsCellText(JsTrim(pieces[k])) {
      JsTrimIdempotent(pieces[k]);
      JsTrimIsSlice(pieces[k]);
    }
  }

  /** A row as the scripts write it: "| c0 | c1 | … |". */
  function RenderRow(cells: seq<string>): string
  {
    "|" + RenderCells(cells)
  }

  function RenderCells(cells: seq<string>): (r: string)
    ensures |r| > 0 ==> r[|r| - 1] == '|'
  {
    if |cells| == 0 then "" else " " + cells[0] + " |" + RenderCells(cells[1..])
  }

  /** A cell padded by one blank on either side. */
  function Padded(c: string): string
  {
    " " + c + " "
  }

  function PaddedAll(cells: seq<string>): (r: seq<string>)
    ensures |r| == |cells| && forall k :: 0 <= k < |cells| ==> r[k] == Padded(cells[k])
  {
    if |cells| == 0 then [] else [Padded(cells[0])] + PaddedAll(cells[1..])
  }

  /** The cell text a table can hold: trimmed and without '|'. */
  predicate IsCellText(c: string)
  {
    JsTrim(c) == c && forall i :: 0 <= i < |c| ==> c[i] != '|'
  }

  lemma {:induction false} SplitRenderedCells(cells: seq<string>)
    requires forall k :: 0 <= k < |cells| ==> IsCellText(cells[k])
    ensures SplitOn(RenderCells(cells), '|') == PaddedAll(cells) + [""]
    decreases |cells|
  {
    if |cells| == 0 {
      SplitNone("", '|');
    } else {
      var c := cells[0];
      var rest := RenderCells(cells[1..]);
      calc {
        SplitOn(RenderCells(cells), '|');
        == { assert RenderCells(cells) == Padded(c) + ['|'] + rest; }
        SplitOn(Padded(c) + ['|'] + rest, '|');
        == { PaddedNoPipe(c); SplitCons(Padded(c), rest, '|'); }
        [Padded(c)] + SplitOn(rest, '|');
        == { SplitRenderedCells(cells[1..]); }
        [Padded(c)] + (PaddedAll(cells[1..]) + [""]);
        == { assert PaddedAll(cells) == [Padded(c)] + PaddedAll(cells[1..]); }
        PaddedAll(cells) + [""];
      }
    }
  }

  lemma PaddedNoPipe(c: string)
    requires IsCellText(c)
    ensures forall i :: 0 <= i < |Padded(c)| ==> Padded(c)[i] != '|'
  {
    assert forall i :: 1 <= i < |Padded(c)| - 1 ==> Padded(c)[i] == c[i - 1];
  }

  /** Trimming a padded cell gives the cell back. */
  lemma TrimPadded(c: string)
    requires JsTrim(c) == c
    ensures JsTrim(Padded(c)) == c
  {
    var s := Padded(c);
    if |c| == 0 {
      assert forall i :: 0 <= i < |s| ==> IsJsSpace(s[i]);
    } else {
      assert !IsJsSpace(c[0]) && !IsJsSpace(c[|c| - 1]);
      assert s[1] == c[0] && s[|s| - 2] == c[|c| - 1];
      var a := LeadingJsSpace(s);
      assert a == 1;
      var rest := s[1..];
      assert rest == c + " ";
      var b := TrailingJsSpace(rest);
      assert rest[|rest| - 2] == c[|c| - 1];
      assert b == 1;
      assert rest[..|rest| - 1] == c;
    }
  }

  lemma {:induction false} TrimPaddedAll(cells: seq<string>)
    requires forall k :: 0 <= k < |cells| ==> JsTrim(cells[k]) == cells[k]
    ensures TrimAll(PaddedAll(cells) + [""]) == cells + [""]
  {
    var t := TrimAll(PaddedAll(cells) + [""]);
    forall k | 0 <= k < |cells| ensures t[k] == cells[k] {
      TrimPadded(cells[k]);
    }
    assert JsTrim("") == "";
    assert t == cells + [""];
  }

  /** Reading a written row gives its cells back. */
  lemma ParseRenderedRow(cells: seq<string>)
    requires forall k :: 0 <= k < |cells| ==> IsCellText(cells[k])
    ensures ParsePipeRow(RenderRow(cells)) == Some(cells)
  {
    var row := RenderRow(cells);
    assert row[0] == '|' && row[|row| - 1] == '|';
    JsTrimKeepsTrimmed(row);
    assert row == "" + ['|'] + RenderCells(cells);
    SplitCons("", RenderCells(cells), '|');
    SplitRenderedCells(cells);
    assert SplitOn(row, '|') == [""] + (PaddedAll(cells) + [""]);
    TrimPaddedAll(cells);
    assert TrimAll([""] + (PaddedAll(cells) + [""])) == [JsTrim("")] + TrimAll(PaddedAll(cells) + [""]);
    assert JsTrim("") == "";
  }

  /** A row of the clause tables. */
  datatype ClauseRow = ClauseRow(clause: string, title: string, status: string, link: string)

  /** `parseClauseTableRow(line)`: the first four cells of a pipe row that
      has at least four. */
  function ParseClauseTableRow(line: string): (r: Option<ClauseRow>)
    ensures r.Some? <==> ParsePipeRow(line).Some? && |ParsePipeRow(line).value| >= 4
    ensures r.Some? ==> var cells := ParsePipeRow(line).value;
      r.value == ClauseRow(cells[0], cells[1], cells[2], cells[3])
  {
    var parts := ParsePipeRow(line);
    if parts.None? || |parts.value| < 4 then None
    else Some(ClauseRow(parts.value[0], parts.value[1], parts.value[2], parts.value[3]))
  }

  /** A written clause row reads back as the same row, and a row of fewer
      than four cells is not a clause row. */
  lemma ClauseRowRoundTrip(row: ClauseRow, extra: seq<string>)
    requires IsCellText(row.clause) && IsCellText(row.title) && IsCellText(row.status) && IsCellText(row.link)
    requires forall k :: 0 <= k < |extra| ==> IsCellText(extra[k])
    ensures ParseClauseTableRow(RenderRow([row.clause, row.title, row.status, row.link] + extra)) == Some(row)
    ensures |extra| < 4 ==> ParseClauseTableRow(RenderRow(extra)) == None
  {
    var cells := [row.clause, row.title, row.status, row.link] + extra;
    ParseRenderedRow(cells);
    ParseRenderedRow(extra);
  }

  // ---------------------------------------------------------------------
  // Escaping cell text
  // ---------------------------------------------------------------------

  /** `escapePipes(text)`: `replace(/\|/g, '\\|')`. */
  function EscapePipes(text: string): (r: string)
  {
    ReplaceAll(text, "|", "\\|")
  }

  /** Every '|' of the escaped text is preceded by a backslash, and the
      escaped text does not start with '|'. */
  lemma {:induction false} PipesEscaped(text: string)
    ensures var r := EscapePipes(text);
      (|r| > 0 ==> r[0] != '|')
      && forall i :: 0 <= i < |r| && r[i] == '|' ==> i > 0 && r[i - 1] == '\\'
    decreases |text|
  {
    if |text| > 0 {
      PipesEscaped(text[1..]);
      var rest := EscapePipes(text[1..]);
      if text[0] == '|' {
        assert text[..1] == "|";
        assert EscapePipes(text) == "\\|" + rest;
      } else {
        assert text[..1] != "|";
        assert EscapePipes(text) == [text[0]] + rest;
      }
    }
  }

  /** The inverse: "\|" read back as '|', everything else kept. */
  function UnescapePipes(s: string): string
    decreases |s|
  {
    if |s| >= 2 && s[0] == '\\' && s[1] == '|' then "|" + UnescapePipes(s[2..])
    else if |s| == 0 then ""
    else [s[0]] + UnescapePipes(s[1..])
  }

  lemma {:induction false} UnescapeEscape(text: string)
    ensures UnescapePipes(EscapePipes(text)) == text
    decreases |text|
  {
    if |text| > 0 {
      UnescapeEscape(text[1..]);
      PipesEscaped(text[1..]);
      var rest := EscapePipes(text[1..]);
      if text[0] == '|' {
        assert text[..1] == "|";
        assert EscapePipes(text) == "\\|" + rest;
        assert ("\\|" + rest)[2..] == rest;
      } else {
        assert text[..1] != "|";
        assert EscapePipes(text) == [text[0]] + rest;
        assert ([text[0]] + rest)[1..] == rest;
      }
      assert text == [text[0]] + text[1..];
    }
  }

  /** `s.replace(/\r?\n/g, '<br>')`: every line feed, with the carriage
      return before it, becomes "<br>". */
  function BreakLines(s: string): (r: string)
    ensures forall i :: 0 <= i < |r| ==> r[i] != '\n'
    ensures |r| > 0 && r[0] == '|' ==> |s| > 0 && s[0] == '|'
    ensures (forall i :: 0 <= i < |s| && s[i] == '|' ==> i > 0 && s[i - 1] == '\\')
      ==> forall i :: 0 <= i < |r| && r[i] == '|' ==> i > 0 && r[i - 1] == '\\'
    decreases |s|
  {
    if |s| == 0 then ""
    else if |s| >= 2 && s[0] == '\r' && s[1] == '\n' then "<br>" + BreakLines(s[2..])
    else if s[0] == '\n' then "<br>" + BreakLines(s[1..])
    else [s[0]] + BreakLines(s[1..])
  }

  /** `formatTableCellText(text)`: the text escaped for a table cell, with
      line breaks as "<br>"; no line feed is left and every '|' is escaped. */
  function FormatTableCellText(text: string): (r: string)
    ensures forall i :: 0 <= i < |r| ==> r[i] != '\n'
    ensures forall i :: 0 <= i < |r| && r[i] == '|' ==> i > 0 && r[i - 1] == '\\'
  {
    PipesEscaped(text);
    BreakLines(EscapePipes(text))
  }
}
