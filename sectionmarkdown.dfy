/** The checks of the generator that writes a subsection's markdown page from
    its JSON description: the `--section` argument, the required string
    fields, the allowed statuses, the clause check of `render` and the
    clause row it writes. */
module SectionMarkdown {
  import opened JsValues
  import opened Text
  import opened ScriptText
  import opened PipeTable
  import StatusRollup

  /** `parseClause(section)`: the trimmed argument must be `^([0-9]+)\.([0-9]+)$`;
      the result is its parent and subsection numbers. */
  function ParseClause(section: string): (r: Attempt<(string, string)>)
    ensures r.Returns? <==> IsTwoPartClause(JsTrim(section))
    ensures r.Returns? ==>
      IsDigits(r.value.0) && IsDigits(r.value.1) && JsTrim(section) == r.value.0 + "." + r.value.1
  {
    var t := JsTrim(section);
    if IsTwoPartClause(t) then
      var parts := SplitOn(t, '.');
      JoinSplitOn(t, '.');
      assert JoinWith(parts, '.') == parts[0] + "." + JoinWith(parts[1..], '.');
      assert JoinWith(parts[1..], '.') == parts[1];
      Returns((parts[0], parts[1]))
    else Throws
  }

  /** The clause "p.s" of two digit groups is accepted, with white space
      around it or without, and split back into its groups. */
  lemma ParseClauseOf(p: string, s: string, pad: string)
    requires IsDigits(p) && IsDigits(s)
    requires forall i :: 0 <= i < |pad| ==> IsJsSpace(pad[i])
    ensures ParseClause(pad + p + "." + s + pad) == Returns((p, s))
  {
    var c := p + "." + s;
    assert pad + p + "." + s + pad == pad + c + pad;
    assert c[0] == p[0] && c[|c| - 1] == s[|s| - 1];
    PaddedTrim(c, pad);
    TwoPartOf(p, s);
  }

  /** `validateStatus(status)`: throws unless the status is one of the four
      a subsection page may carry (Untracked, Not Yet Supported, Partially
      Supported, Supported). */
  function ValidateStatus(status: string): (r: Attempt<()>)
  {
    if status == StatusRollup.Untracked || status == StatusRollup.NotYet
      || status == StatusRollup.LegacyPartially || status == StatusRollup.Supported
    then Returns(())
    else Throws
  }

  /** Every status this page generator accepts is one the status rollup
      accepts, and the rollup reads it as one of its current statuses. */
  lemma ValidatedStatusRollsUp(status: string)
    requires ValidateStatus(status).Returns?
    ensures StatusRollup.IsAllowedStatus(status)
    ensures StatusRollup.IsCurrentStatus(StatusRollup.NormalizeLegacyStatus(Some(status)))
    ensures status == StatusRollup.LegacyPartially ==> StatusRollup.NormalizeLegacyStatus(Some(status)) == StatusRollup.Limitations
  {
    assert StatusRollup.IsAllowedStatus(status);
    JsTrimKeepsTrimmed(status);
    StatusRollup.ValidatedNormalisesToCurrent(status);
  }

  /** The statuses the rollup uses besides these four are refused here. */
  lemma RollupOnlyStatusesRefused()
    ensures ValidateStatus(StatusRollup.Limitations) == Throws
    ensures ValidateStatus(StatusRollup.Incomplete) == Throws
    ensures ValidateStatus(StatusRollup.Informational) == Throws
    ensures ValidateStatus(StatusRollup.LegacyNotSupported) == Throws
  {
  }

  /** `requireString(obj, key)`, over the field's value (`None` when it is
      missing or not a string): the trimmed text, or a throw when it is blank. */
  function RequireString(v: Option<string>): (r: Attempt<string>)
    ensures r.Returns? <==> v.Some? && exists i :: 0 <= i < |v.value| && !IsJsSpace(v.value[i])
    ensures r.Returns? ==> |r.value| > 0 && r.value == JsTrim(v.value) && JsTrim(r.value) == r.value
  {
    if v.None? then Throws
    else
      var t := JsTrim(v.value);
      JsTrimIdempotent(v.value);
      if |t| == 0 then Throws else Returns(t)
  }

  /** `toPosixPath(p)`: every backslash replaced by '/'. */
  function ToPosixPath(p: string): (r: string)
  {
    ReplaceAll(p, "\\", "/")
  }

  /** The path keeps its length and every character but the backslashes,
      and has no backslash left. */
  lemma ToPosixPathPointwise(p: string)
    ensures |ToPosixPath(p)| == |p|
    ensures forall i :: 0 <= i < |p| ==> ToPosixPath(p)[i] == (if p[i] == '\\' then '/' else p[i])
    ensures forall i :: 0 <= i < |p| ==> ToPosixPath(p)[i] != '\\'
  {
    ReplaceAllOneChar(p, '\\', "/");
    SlashesPointwise(p);
  }

  lemma {:induction false} SlashesPointwise(p: string)
    ensures |ReplaceEachChar(p, '\\', "/")| == |p|
    ensures forall i :: 0 <= i < |p| ==> ReplaceEachChar(p, '\\', "/")[i] == (if p[i] == '\\' then '/' else p[i])
    decreases |p|
  {
    if |p| > 0 {
      SlashesPointwise(p[1..]);
      var rest := ReplaceEachChar(p[1..], '\\', "/");
      var head := if p[0] == '\\' then "/" else [p[0]];
      assert ReplaceEachChar(p, '\\', "/") == head + rest;
      assert forall i :: 1 <= i < |p| ==> (head + rest)[i] == rest[i - 1];
    }
  }

  /** `toPosixPath` changes nothing on a path that is already POSIX. */
  lemma ToPosixPathIdempotent(p: string)
    ensures ToPosixPath(ToPosixPath(p)) == ToPosixPath(p)
  {
    var q := ToPosixPath(p);
    ToPosixPathPointwise(p);
    ToPosixPathPointwise(q);
  }

  /** The top-level fields of a subsection's JSON description (`None` for
      a field that is missing or not a string). */
  datatype SectionJson = SectionJson(clause: Option<string>, title: Option<string>, status: Option<string>, specUrl: Option<string>)

  /** The clause row of the page: the four checked, trimmed fields. */
  datatype SectionHeader = SectionHeader(clause: string, title: string, status: string, specUrl: string)

  /** The checks at the start of `render`: the four fields are required
      strings, the status is one of the four, and the clause must be the
      requested section. */
  function CheckSection(doc: SectionJson, sectionClause: string): (r: Attempt<SectionHeader>)
    ensures r.Returns? ==> r.value.clause == sectionClause
    ensures r.Returns? ==> ValidateStatus(r.value.status).Returns?
    ensures r.Returns? ==>
      RequireString(doc.title) == Returns(r.value.title) && RequireString(doc.specUrl) == Returns(r.value.specUrl)
      && RequireString(doc.status) == Returns(r.value.status) && RequireString(doc.clause) == Returns(r.value.clause)
    ensures RequireString(doc.clause).Returns? && RequireString(doc.clause).value != sectionClause ==> r == Throws
  {
    var clause := RequireString(doc.clause);
    var title := RequireString(doc.title);
    var status := RequireString(doc.status);
    var specUrl := RequireString(doc.specUrl);
    if clause.Throws? || title.Throws? || status.Throws? || specUrl.Throws? then Throws
    else if ValidateStatus(status.value).Throws? then Throws
    else if clause.value != sectionClause then Throws
    else Returns(SectionHeader(clause.value, title.value, status.value, specUrl.value))
  }

  /** A description whose fields are present, whose status is allowed and
      whose clause is the requested one passes the checks unchanged. */
  lemma CheckSectionAccepts(h: SectionHeader)
    requires |h.clause| > 0 && |h.title| > 0 && |h.status| > 0 && |h.specUrl| > 0
    requires JsTrim(h.clause) == h.clause && JsTrim(h.title) == h.title
    requires JsTrim(h.status) == h.status && JsTrim(h.specUrl) == h.specUrl
    requires ValidateStatus(h.status).Returns?
    ensures CheckSection(SectionJson(Some(h.clause), Some(h.title), Some(h.status), Some(h.specUrl)), h.clause) == Returns(h)
  {
    assert !IsJsSpace(h.clause[0]) && !IsJsSpace(h.title[0]);
    assert !IsJsSpace(h.status[0]) && !IsJsSpace(h.specUrl[0]);
  }

  /** `asSpecLink(url)`. */
  function AsSpecLink(url: string): string
  {
    "[tc39.es](" + url + ")"
  }

  /** The clause row `| clause | title | status | [tc39.es](url) |`. */
  function SectionRow(h: SectionHeader): string
  {
    RenderRow([h.clause, h.title, h.status, AsSpecLink(h.specUrl)])
  }

  /** Text without '|' between a non-blank first and last character is cell text. */
  lemma CellTextOf(c: string)
    requires c == [] || (!IsJsSpace(c[0]) && !IsJsSpace(c[|c| - 1]))
    requires forall i :: 0 <= i < |c| ==> c[i] != '|'
    ensures IsCellText(c)
  {
    JsTrimKeepsTrimmed(c);
  }

  /** The clause row of a checked header is read back by the clause-table
      reader of the other scripts as the same clause, title and status. */
  lemma SectionRowReadsBack(h: SectionHeader)
    requires IsCellText(h.clause) && IsCellText(h.title) && IsCellText(h.status)
    requires forall i :: 0 <= i < |h.specUrl| ==> h.specUrl[i] != '|'
    ensures ParseClauseTableRow(SectionRow(h)) == Some(ClauseRow(h.clause, h.title, h.status, AsSpecLink(h.specUrl)))
  {
    var link := AsSpecLink(h.specUrl);
    assert forall i :: 0 <= i < |link| ==> link[i] != '|' by {
      assert forall i :: 10 <= i < 10 + |h.specUrl| ==> link[i] == h.specUrl[i - 10];
    }
    assert link[0] == '[' && link[|link| - 1] == ')';
    CellTextOf(link);
    var row := ClauseRow(h.clause, h.title, h.status, link);
    ClauseRowRoundTrip(row, []);
    assert [h.clause, h.title, h.status, link] + [] == [h.clause, h.title, h.status, link];
  }
}
