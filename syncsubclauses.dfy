/** The synchronisation of a subsection's JSON description with the clause
    headings of the published ECMA-262 text: the `--section` filter, the
    clean-up of heading text, the choice of the subclauses under a clause,
    and the two edits made to the description (appending the missing
    subclauses, filling blank fields). */
module SubclauseSync {
  import opened JsValues
  import opened Text
  import opened ScriptText

  // ---------------------------------------------------------------------
  // The --section filter and clause numbers
  // ---------------------------------------------------------------------

  /** `String(v ?? '')`. */
  function TextOf(v: Option<string>): string
  {
    if v.Some? then v.value else ""
  }

  /** `normalizeClauseFilter(v)`: "" for a blank argument, the trimmed
      argument when it is `^\d+\.\d+$`, a throw otherwise. */
  function NormalizeClauseFilter(v: Option<string>): (r: Attempt<string>)
    ensures r == Returns("") <==> forall i :: 0 <= i < |TextOf(v)| ==> IsJsSpace(TextOf(v)[i])
    ensures r.Returns? && r.value != "" ==> IsTwoPartClause(r.value) && r.value == JsTrim(TextOf(v))
    ensures r.Throws? <==> JsTrim(TextOf(v)) != "" && !IsTwoPartClause(JsTrim(TextOf(v)))
  {
    var s := JsTrim(TextOf(v));
    if s == "" then Returns("")
    else if IsTwoPartClause(s) then Returns(s)
    else Throws
  }

  /** A clause "p.q", padded or not, is accepted as it is. */
  lemma NormalizeClauseFilterOf(p: string, q: string, pad: string)
    requires IsDigits(p) && IsDigits(q)
    requires forall i :: 0 <= i < |pad| ==> IsJsSpace(pad[i])
    ensures NormalizeClauseFilter(Some(pad + p + "." + q + pad)) == Returns(p + "." + q)
  {
    var c := p + "." + q;
    assert pad + p + "." + q + pad == pad + c + pad;
    assert c[0] == p[0] && c[|c| - 1] == q[|q| - 1];
    PaddedTrim(c, pad);
    TwoPartOf(p, q);
  }

  /** `isNumericClauseNumber(s)`: `^\d+(\.\d+)+$`, two or more digit groups
      separated by dots. */
  predicate IsNumericClauseNumber(s: string)
  {
    var parts := SplitOn(s, '.');
    |parts| >= 2 && forall k :: 0 <= k < |parts| ==> IsDigits(parts[k])
  }

  /** The clause numbers are exactly the dot-joined runs of two or more
      digit groups. */
  lemma NumericClauseOf(parts: seq<string>)
    requires |parts| >= 2 && forall k :: 0 <= k < |parts| ==> IsDigits(parts[k])
    ensures IsNumericClauseNumber(JoinWith(parts, '.'))
  {
    SplitOnJoin(parts, '.');
  }

  lemma NumericClauseIsJoin(s: string)
    requires IsNumericClauseNumber(s)
    ensures exists parts :: |parts| >= 2 && (forall k :: 0 <= k < |parts| ==> IsDigits(parts[k])) && s == JoinWith(parts, '.')
  {
    JoinSplitOn(s, '.');
  }

  /** The first piece of a split is a prefix of the string. */
  lemma SplitHeadIsPrefix(s: string, c: char)
    ensures IsPrefix(SplitOn(s, c)[0], s)
  {
  }

  /** Annex clauses ("A.1", "B.3.2") and other lettered numbers are refused. */
  lemma AnnexRejected(s: string)
    requires |s| > 0 && IsAsciiLetter(s[0])
    ensures !IsNumericClauseNumber(s)
  {
    var parts := SplitOn(s, '.');
    SplitHeadIsPrefix(s, '.');
    assert |parts[0]| > 0 ==> parts[0][0] == s[0];
  }

  // ---------------------------------------------------------------------
  // Heading text
  // ---------------------------------------------------------------------

  /** No '<' is followed, anywhere later, by a '>': the text holds no tag. */
  predicate NoTag(s: string)
  {
    forall i, j :: 0 <= i < j < |s| && s[i] == '<' ==> s[j] != '>'
  }

  /** `.replace(/<[^>]*>/g, ' ')`: each '<' up to the next '>' becomes a
      blank; a '<' with no '>' after it stays. */
  function RemoveTags(s: string): string
    decreases |s|
  {
    if |s| == 0 then ""
    else
      var j := IndexOfChar(s, '>', 1);
      if s[0] == '<' && j >= 0 then " " + RemoveTags(s[j + 1..])
      else [s[0]] + RemoveTags(s[1..])
  }

  /** Text without '>' keeps none. */
  lemma {:induction false} RemoveTagsNoGt(s: string)
    requires NoGt(s)
    ensures NoGt(RemoveTags(s))
    decreases |s|
  {
    if |s| > 0 {
      assert IndexOfChar(s, '>', 1) < 0;
      NoGtTail(s);
      RemoveTagsNoGt(s[1..]);
    }
  }

  lemma NoGtTail(s: string)
    requires |s| > 0 && NoGt(s)
    ensures NoGt(s[1..])
  {
    assert forall i :: 0 <= i < |s[1..]| ==> s[1..][i] == s[i + 1];
  }

  /** No '>' at all. */
  predicate NoGt(s: string)
  {
    forall i :: 0 <= i < |s| ==> s[i] != '>'
  }

  /** A character put before text without tags makes no tag unless it is a
      '<' and a '>' follows. */
  lemma NoTagCons(c: char, rest: string)
    requires NoTag(rest)
    requires c == '<' ==> NoGt(rest)
    ensures NoTag([c] + rest)
  {
    var s := [c] + rest;
    forall i, j | 0 <= i < j < |s| && s[i] == '<'
      ensures s[j] != '>'
    {
      assert s[j] == rest[j - 1];
      if i > 0 {
        assert s[i] == rest[i - 1];
      }
    }
  }

  /** What the replacement leaves holds no tag. */
  lemma {:induction false} RemoveTagsNoTag(s: string)
    ensures NoTag(RemoveTags(s))
    decreases |s|, 1
  {
    if |s| > 0 {
      var j := IndexOfChar(s, '>', 1);
      if s[0] == '<' && j >= 0 {
        TagReplaced(s, j);
      } else {
        CharKept(s, j);
      }
    }
  }

  lemma {:induction false} TagReplaced(s: string, j: int)
    requires |s| > 0 && s[0] == '<' && j == IndexOfChar(s, '>', 1) && j >= 0
    ensures NoTag(RemoveTags(s))
    decreases |s|, 0
  {
    var t := s[j + 1..];
    RemoveTagsNoTag(t);
    assert RemoveTags(s) == [' '] + RemoveTags(t);
    NoTagCons(' ', RemoveTags(t));
  }

  lemma {:induction false} CharKept(s: string, j: int)
    requires |s| > 0 && j == IndexOfChar(s, '>', 1) && !(s[0] == '<' && j >= 0)
    ensures NoTag(RemoveTags(s))
    decreases |s|, 0
  {
    var t := s[1..];
    RemoveTagsNoTag(t);
    assert RemoveTags(s) == [s[0]] + RemoveTags(t);
    if s[0] == '<' {
      assert forall i :: 0 <= i < |t| ==> t[i] == s[i + 1];
      RemoveTagsNoGt(t);
    }
    NoTagCons(s[0], RemoveTags(t));
  }

  /** `.replace(/\s+/g, ' ')`: every run of white space becomes one blank. */
  function CollapseSpace(s: string): (r: string)
    ensures forall i :: 0 <= i < |r| && IsJsSpace(r[i]) ==> r[i] == ' '
    ensures forall i :: 0 <= i < |r| - 1 && r[i] == ' ' ==> !IsJsSpace(r[i + 1])
    ensures NoGt(s) ==> NoGt(r)
    decreases |s|
  {
    if |s| == 0 then ""
    else if IsJsSpace(s[0]) then
      var n := LeadingJsSpace(s);
      assert forall i :: 0 <= i < |s[n..]| ==> s[n..][i] == s[n + i];
      " " + CollapseSpace(s[n..])
    else
      assert forall i :: 0 <= i < |s[1..]| ==> s[1..][i] == s[1 + i];
      [s[0]] + CollapseSpace(s[1..])
  }

  /** Collapsing white space makes no tag. */
  lemma {:induction false} CollapseSpaceNoTag(s: string)
    requires NoTag(s)
    ensures NoTag(CollapseSpace(s))
    decreases |s|
  {
    if |s| > 0 {
      var n := if IsJsSpace(s[0]) then LeadingJsSpace(s) else 1;
      var t := s[n..];
      assert forall i :: 0 <= i < |t| ==> t[i] == s[n + i];
      assert NoTag(t);
      CollapseSpaceNoTag(t);
      assert s[0] == '<' ==> NoGt(t);
      NoTagCons(if IsJsSpace(s[0]) then ' ' else s[0], CollapseSpace(t));
    }
  }

  /** `stripTags(html)`: tags removed, white space collapsed, trimmed. The
      text holds no tag, no white space at either end and only single
      blanks between words. */
  function StripTags(html: string): (r: string)
    ensures NoTag(r)
    ensures r == [] || (!IsJsSpace(r[0]) && !IsJsSpace(r[|r| - 1]))
    ensures forall i :: 0 <= i < |r| && IsJsSpace(r[i]) ==> r[i] == ' ' && !IsJsSpace(r[i + 1])
  {
    var c := CollapseSpace(RemoveTags(html));
    RemoveTagsNoTag(html);
    CollapseSpaceNoTag(RemoveTags(html));
    TrimmedCollapsed(c);
    JsTrim(c)
  }

  /** Trimming keeps a text free of tags and of white-space runs. */
  lemma TrimmedCollapsed(c: string)
    requires NoTag(c)
    requires forall i :: 0 <= i < |c| && IsJsSpace(c[i]) ==> c[i] == ' '
    requires forall i :: 0 <= i < |c| - 1 && c[i] == ' ' ==> !IsJsSpace(c[i + 1])
    ensures NoTag(JsTrim(c))
    ensures forall i :: 0 <= i < |JsTrim(c)| && IsJsSpace(JsTrim(c)[i]) ==> JsTrim(c)[i] == ' ' && !IsJsSpace(JsTrim(c)[i + 1])
  {
    var r := JsTrim(c);
    JsTrimIsSlice(c);
    var a, b :| 0 <= a <= b <= |c| && r == c[a..b];
    SliceNoTag(c, a, b);
    forall i | 0 <= i < |r| && IsJsSpace(r[i])
      ensures r[i] == ' ' && !IsJsSpace(r[i + 1])
    {
      assert i < |r| - 1;
      assert r[i] == c[a + i] && r[i + 1] == c[a + i + 1];
    }
  }

  lemma SliceNoTag(c: string, a: nat, b: nat)
    requires a <= b <= |c| && NoTag(c)
    ensures NoTag(c[a..b])
  {
    var r := c[a..b];
    forall i, j | 0 <= i < j < |r| && r[i] == '<'
      ensures r[j] != '>'
    {
      assert r[i] == c[a + i] && r[j] == c[a + j];
    }
  }

  /** `decodeEntities(text)` as written: five global replacements one after
      another, "&amp;" first. */
  function DecodeEntitiesAsWritten(text: string): string
  {
    var a := ReplaceAll(text, "&amp;", "&");
    var b := ReplaceAll(a, "&lt;", "<");
    var c := ReplaceAll(b, "&gt;", ">");
    var d := ReplaceAll(c, "&quot;", "\"");
    ReplaceAll(d, "&#39;", "'")
  }

  /** The escaped form of a character in HTML text. */
  function EncodeChar(c: char): (r: string)
    ensures |r| > 0 && (r[0] == '&' <==> c in "&<>\"'")
  {
    if c == '&' then "&amp;"
    else if c == '<' then "&lt;"
    else if c == '>' then "&gt;"
    else if c == '"' then "&quot;"
    else if c == '\'' then "&#39;"
    else [c]
  }

  /** HTML text for `s`: the five special characters escaped. */
  function EncodeEntities(s: string): (r: string)
    ensures forall i :: 0 <= i < |r| ==> r[i] != '<' && r[i] != '>'
  {
    if |s| == 0 then "" else EncodeChar(s[0]) + EncodeEntities(s[1..])
  }

  /** Decoding in sequence decodes the text "&lt;", which HTML writes as
      "&amp;lt;", to "<": an escaped ampersand is decoded twice. */
  lemma DecodedTwice()
    ensures EncodeEntities("&lt;") == "&amp;lt;"
    ensures DecodeEntitiesAsWritten("&amp;lt;") == "<"
    ensures DecodeEntities("&amp;lt;") == "&lt;"
  {
    EncodesLt();
    AsWrittenDecodesLt();
    DecodesOnce();
  }

  lemma EncodesLt()
    ensures EncodeEntities("&lt;") == "&amp;lt;"
  {
    assert "&lt;"[1..] == "lt;";
    assert "lt;"[1..] == "t;";
    assert "t;"[1..] == ";";
    assert ";"[1..] == "";
  }

  lemma AsWrittenDecodesLt()
    ensures DecodeEntitiesAsWritten("&amp;lt;") == "<"
  {
    var s := "&amp;lt;";
    assert s[..5] == "&amp;" && s[5..] == "lt;";
    assert ReplaceAll("lt;", "&amp;", "&") == "lt;";
    var a := "&lt;";
    assert a == ReplaceAll(s, "&amp;", "&");
    assert a[..4] == "&lt;" && a[4..] == "";
    assert ReplaceAll(a, "&lt;", "<") == "<";
    assert ReplaceAll("<", "&gt;", ">") == "<";
    assert ReplaceAll("<", "&quot;", "\"") == "<";
    assert ReplaceAll("<", "&#39;", "'") == "<";
  }

  lemma DecodesOnce()
    ensures DecodeEntities("&amp;lt;") == "&lt;"
  {
    var s := "&amp;lt;";
    assert s[..5] == "&amp;" && s[5..] == "lt;";
    assert IsPrefix("&amp;", s);
    var t := "lt;";
    assert !IsPrefix("&amp;", t) && !IsPrefix("&lt;", t) && !IsPrefix("&gt;", t);
    assert !IsPrefix("&quot;", t) && !IsPrefix("&#39;", t);
    var u := "t;";
    assert !IsPrefix("&amp;", u) && !IsPrefix("&lt;", u) && !IsPrefix("&gt;", u);
    assert !IsPrefix("&quot;", u) && !IsPrefix("&#39;", u);
    var w := ";";
    assert !IsPrefix("&amp;", w) && !IsPrefix("&lt;", w) && !IsPrefix("&gt;", w);
    assert !IsPrefix("&quot;", w) && !IsPrefix("&#39;", w);
    assert DecodeEntities(w) == ";";
    assert DecodeEntities(u) == "t;";
    assert DecodeEntities(t) == "lt;";
  }

  /** `decodeEntities(text)`, decoding each entity once, left to right:
      "&amp;", "&lt;", "&gt;", "&quot;" and "&#39;". */
  function DecodeEntities(s: string): (r: string)
    ensures |r| <= |s|
    decreases |s|
  {
    if |s| == 0 then ""
    else if IsPrefix("&amp;", s) then "&" + DecodeEntities(s[5..])
    else if IsPrefix("&lt;", s) then "<" + DecodeEntities(s[4..])
    else if IsPrefix("&gt;", s) then ">" + DecodeEntities(s[4..])
    else if IsPrefix("&quot;", s) then "\"" + DecodeEntities(s[6..])
    else if IsPrefix("&#39;", s) then "'" + DecodeEntities(s[5..])
    else [s[0]] + DecodeEntities(s[1..])
  }

  /** Decoding the escaped form of one character gives the character. */
  lemma DecodeEncodedChar(c: char, rest: string)
    ensures DecodeEntities(EncodeChar(c) + rest) == [c] + DecodeEntities(rest)
  {
    if c == '&' {
      DecodeAt("&amp;", rest);
    } else if c == '<' {
      DecodeAt("&lt;", rest);
    } else if c == '>' {
      DecodeAt("&gt;", rest);
    } else if c == '"' {
      DecodeAt("&quot;", rest);
    } else if c == '\'' {
      DecodeAt("&#39;", rest);
    } else {
      var s := [c] + rest;
      assert s[0] == c && s[1..] == rest;
    }
  }

  /** Each entity decodes to its character, and decoding goes on after it. */
  lemma DecodeAt(e: string, rest: string)
    requires e in ["&amp;", "&lt;", "&gt;", "&quot;", "&#39;"]
    ensures DecodeEntities(e + rest) == [EntityChar(e)] + DecodeEntities(rest)
  {
    var s := e + rest;
    assert s[..|e|] == e && s[|e|..] == rest;
    assert s[0] == '&' && s[1] == e[1];
    if e == "&amp;" {
      assert IsPrefix("&amp;", s);
    } else if e == "&lt;" {
      assert !IsPrefix("&amp;", s) by { assert s[1] == 'l'; }
      assert IsPrefix("&lt;", s);
    } else if e == "&gt;" {
      assert !IsPrefix("&amp;", s) && !IsPrefix("&lt;", s) by { assert s[1] == 'g'; }
      assert IsPrefix("&gt;", s);
    } else if e == "&quot;" {
      assert !IsPrefix("&amp;", s) && !IsPrefix("&lt;", s) && !IsPrefix("&gt;", s) by { assert s[1] == 'q'; }
      assert IsPrefix("&quot;", s);
    } else {
      assert !IsPrefix("&amp;", s) && !IsPrefix("&lt;", s) && !IsPrefix("&gt;", s)
        && !IsPrefix("&quot;", s) by { assert s[1] == '#'; }
      assert IsPrefix("&#39;", s);
    }
  }

  function EntityChar(e: string): char
  {
    if e == "&amp;" then '&' else if e == "&lt;" then '<' else if e == "&gt;" then '>'
    else if e == "&quot;" then '"' else '\''
  }

  /** Decoding inverts escaping: every text is recovered from its HTML form. */
  lemma {:induction false} DecodeEncode(s: string)
    ensures DecodeEntities(EncodeEntities(s)) == s
    decreases |s|
  {
    if |s| > 0 {
      DecodeEncode(s[1..]);
      DecodeEncodedChar(s[0], EncodeEntities(s[1..]));
      assert s == [s[0]] + s[1..];
    }
  }

  // ---------------------------------------------------------------------
  // Subclauses of a clause
  // ---------------------------------------------------------------------

  /** A clause heading of the specification: number, anchor id and title. */
  datatype ClauseEntry = ClauseEntry(number: string, id: string, title: string)

  /** A subclause proposed by the specification. */
  datatype SpecSub = SpecSub(clause: string, title: string, specUrl: string)

  const SpecBase := "https://tc39.es/ecma262/#"

  function SpecSubOf(e: ClauseEntry): SpecSub
  {
    SpecSub(e.number, e.title, SpecBase + e.id)
  }

  /** `buildSubclausesFor(prefixClause, entries)`: the entries numbered
      "prefixClause.…", in document order, with their links. */
  function BuildSubclausesFor(prefixClause: string, entries: seq<ClauseEntry>): (r: seq<SpecSub>)
    ensures |r| <= |entries|
    ensures forall k :: 0 <= k < |r| ==> IsPrefix(prefixClause + ".", r[k].clause) && IsPrefix(SpecBase, r[k].specUrl)
  {
    if |entries| == 0 then []
    else
      (if IsPrefix(prefixClause + ".", entries[0].number) then [SpecSubOf(entries[0])] else [])
      + BuildSubclausesFor(prefixClause, entries[1..])
  }

  /** Document order: the subclauses of a concatenation are those of its parts in turn. */
  lemma {:induction false} BuildSubclausesAppend(p: string, a: seq<ClauseEntry>, b: seq<ClauseEntry>)
    ensures BuildSubclausesFor(p, a + b) == BuildSubclausesFor(p, a) + BuildSubclausesFor(p, b)
    decreases |a|
  {
    if |a| == 0 {
      assert a + b == b;
    } else {
      BuildSubclausesAppend(p, a[1..], b);
      assert (a + b)[1..] == a[1..] + b;
    }
  }

  /** Exactly the entries under the clause are kept. */
  lemma {:induction false} BuildSubclausesKeepsExactly(p: string, entries: seq<ClauseEntry>)
    ensures forall k :: 0 <= k < |entries| && IsPrefix(p + ".", entries[k].number) ==> SpecSubOf(entries[k]) in BuildSubclausesFor(p, entries)
    ensures forall x :: x in BuildSubclausesFor(p, entries) ==> exists k :: 0 <= k < |entries| && IsPrefix(p + ".", entries[k].number) && x == SpecSubOf(entries[k])
    decreases |entries|
  {
    if |entries| > 0 {
      BuildSubclausesKeepsExactly(p, entries[1..]);
      var rest := BuildSubclausesFor(p, entries[1..]);
      forall x | x in rest
        ensures exists k :: 0 <= k < |entries| && IsPrefix(p + ".", entries[k].number) && x == SpecSubOf(entries[k])
      {
        var k :| 0 <= k < |entries[1..]| && IsPrefix(p + ".", entries[1..][k].number) && x == SpecSubOf(entries[1..][k]);
        assert entries[k + 1] == entries[1..][k];
      }
      forall k | 1 <= k < |entries| && IsPrefix(p + ".", entries[k].number)
        ensures SpecSubOf(entries[k]) in rest
      {
        assert entries[1..][k - 1] == entries[k];
      }
    }
  }

  // ---------------------------------------------------------------------
  // The subsection description and its two edits
  // ---------------------------------------------------------------------

  /** An entry of `subclauses`: something that is not an object, or an
      object with its string fields (`None`: missing or not a string). */
  datatype Item = NonObject | Item(clause: Option<string>, title: Option<string>, status: Option<string>, specUrl: Option<string>)

  /** `isNonEmptyString(x)`. */
  predicate IsNonEmptyString(x: Option<string>)
  {
    x.Some? && JsTrim(x.value) != ""
  }

  /** The trimmed, non-empty clause strings of the existing entries. */
  function ExistingClauses(items: seq<Item>): (r: set<string>)
    ensures forall k :: 0 <= k < |items| && HasClause(items[k]) ==> JsTrim(items[k].clause.value) in r
    ensures "" !in r
  {
    if |items| == 0 then {}
    else
      var x := items[0];
      var rest := ExistingClauses(items[1..]);
      assert forall k :: 1 <= k < |items| ==> items[k] == items[1..][k - 1];
      if HasClause(x) then {JsTrim(x.clause.value)} + rest else rest
  }

  /** An object entry with a non-blank string clause. */
  predicate HasClause(x: Item)
  {
    x.Item? && x.clause.Some? && JsTrim(x.clause.value) != ""
  }

  const UntrackedStatus := "Untracked"

  /** The entry appended for a subclause the description lacks. */
  function UntrackedItem(s: SpecSub): Item
  {
    Item(Some(s.clause), Some(s.title), Some(UntrackedStatus), Some(s.specUrl))
  }

  /** The entries to append: the proposed subclauses whose clause is not
      among the existing ones, in order, as Untracked entries. */
  function Missing(specSubs: seq<SpecSub>, existing: set<string>): (r: seq<Item>)
    ensures |r| <= |specSubs|
    ensures forall k :: 0 <= k < |r| ==> (r[k].Item? && r[k].status == Some(UntrackedStatus)
      && r[k].clause.Some? && r[k].clause.value !in existing)
  {
    if |specSubs| == 0 then []
    else
      (if specSubs[0].clause in existing then [] else [UntrackedItem(specSubs[0])])
      + Missing(specSubs[1..], existing)
  }

  /** The number of proposed subclauses with clause `c`. */
  function SpecCount(specSubs: seq<SpecSub>, c: string): nat
  {
    if |specSubs| == 0 then 0 else (if specSubs[0].clause == c then 1 else 0) + SpecCount(specSubs[1..], c)
  }

  /** The number of entries with clause `c`. */
  function ItemCount(items: seq<Item>, c: string): nat
  {
    if |items| == 0 then 0
    else (if items[0].Item? && items[0].clause == Some(c) then 1 else 0) + ItemCount(items[1..], c)
  }

  /** A clause the description has is never appended; a missing one is
      appended as often as the specification proposes it, so once when the
      specification's numbers are distinct. */
  lemma {:induction false} MissingCounts(specSubs: seq<SpecSub>, existing: set<string>, c: string)
    ensures ItemCount(Missing(specSubs, existing), c) == if c in existing then 0 else SpecCount(specSubs, c)
    decreases |specSubs|
  {
    if |specSubs| > 0 {
      MissingCounts(specSubs[1..], existing, c);
      var head := if specSubs[0].clause in existing then [] else [UntrackedItem(specSubs[0])];
      ItemCountAppend(head, Missing(specSubs[1..], existing), c);
    }
  }

  lemma {:induction false} ItemCountAppend(a: seq<Item>, b: seq<Item>, c: string)
    ensures ItemCount(a + b, c) == ItemCount(a, c) + ItemCount(b, c)
    decreases |a|
  {
    if |a| == 0 {
      assert a + b == b;
    } else {
      ItemCountAppend(a[1..], b, c);
      assert (a + b)[1..] == a[1..] + b;
    }
  }

  /** A clause proposed at most once is counted at most once. */
  lemma {:induction false} DistinctCountsOnce(specSubs: seq<SpecSub>, c: string)
    requires forall i, j :: 0 <= i < j < |specSubs| ==> specSubs[i].clause != specSubs[j].clause
    ensures SpecCount(specSubs, c) <= 1
    ensures SpecCount(specSubs, c) == 1 <==> exists k :: 0 <= k < |specSubs| && specSubs[k].clause == c
    decreases |specSubs|
  {
    if |specSubs| > 0 {
      var rest := specSubs[1..];
      DistinctCountsOnce(rest, c);
      if specSubs[0].clause == c {
        assert forall k :: 0 <= k < |rest| ==> rest[k].clause != c by {
          assert forall k :: 0 <= k < |rest| ==> rest[k] == specSubs[k + 1];
        }
        assert SpecCount(rest, c) == 0;
      } else {
        assert forall k :: 1 <= k < |specSubs| ==> specSubs[k] == rest[k - 1];
      }
    }
  }

  /** The specification's subclause with the clause `key`; the last one
      wins, as in `new Map(pairs)`. */
  function SpecByClause(specSubs: seq<SpecSub>): (m: map<string, SpecSub>)
    ensures forall key :: key in m ==> m[key].clause == key
    ensures forall k :: 0 <= k < |specSubs| ==> specSubs[k].clause in m
  {
    if |specSubs| == 0 then map[]
    else
      var last := specSubs[|specSubs| - 1];
      var init := specSubs[..|specSubs| - 1];
      assert forall k :: 0 <= k < |init| ==> init[k] == specSubs[k];
      SpecByClause(init)[last.clause := last]
  }

  /** One entry after the fill-blanks step: a blank title or link is taken
      from the specification's subclause with the same trimmed clause. */
  function Filled(item: Item, specMap: map<string, SpecSub>): Item
  {
    if item.NonObject? || !IsNonEmptyString(item.clause) then item
    else
      var key := JsTrim(item.clause.value);
      if key !in specMap then item
      else
        var spec := specMap[key];
        item.(title := if !IsNonEmptyString(item.title) && IsNonEmptyString(Some(spec.title)) then Some(spec.title) else item.title,
              specUrl := if !IsNonEmptyString(item.specUrl) && IsNonEmptyString(Some(spec.specUrl)) then Some(spec.specUrl) else item.specUrl)
  }

  /** Filling never touches the clause or the status and never overwrites
      a non-empty title or link; a field it sets is the specification's. */
  lemma FillNeverOverwrites(item: Item, specMap: map<string, SpecSub>)
    ensures Filled(item, specMap).Item? == item.Item?
    ensures item.Item? ==> Filled(item, specMap).clause == item.clause && Filled(item, specMap).status == item.status
    ensures item.Item? && IsNonEmptyString(item.title) ==> Filled(item, specMap).title == item.title
    ensures item.Item? && IsNonEmptyString(item.specUrl) ==> Filled(item, specMap).specUrl == item.specUrl
    ensures item.Item? && Filled(item, specMap).title != item.title ==>
      JsTrim(item.clause.value) in specMap && Filled(item, specMap).title == Some(specMap[JsTrim(item.clause.value)].title)
    ensures item.Item? && Filled(item, specMap).specUrl != item.specUrl ==>
      JsTrim(item.clause.value) in specMap && Filled(item, specMap).specUrl == Some(specMap[JsTrim(item.clause.value)].specUrl)
  {
  }

  /** Filling twice fills nothing more. */
  lemma FillIdempotent(item: Item, specMap: map<string, SpecSub>)
    ensures Filled(Filled(item, specMap), specMap) == Filled(item, specMap)
  {
    FillNeverOverwrites(item, specMap);
  }

  function FilledAll(items: seq<Item>, specMap: map<string, SpecSub>): (r: seq<Item>)
    ensures |r| == |items| && forall k :: 0 <= k < |items| ==> r[k] == Filled(items[k], specMap)
  {
    if |items| == 0 then [] else [Filled(items[0], specMap)] + FilledAll(items[1..], specMap)
  }

  /** The loop of the fill-blanks step: each entry filled from the
      specification, and whether any entry changed. */
  method FillItems(before: seq<Item>, specMap: map<string, SpecSub>) returns (items: seq<Item>, changed: bool)
    ensures items == FilledAll(before, specMap)
    ensures changed <==> items != before
  {
    changed := false;
    items := before;
    var k := 0;
    while k < |items|
      invariant 0 <= k <= |items| && |items| == |before|
      invariant forall m :: 0 <= m < k ==> items[m] == Filled(before[m], specMap)
      invariant forall m :: k <= m < |items| ==> items[m] == before[m]
      invariant changed <==> exists m :: 0 <= m < k && items[m] != before[m]
      decreases |items| - k
    {
      var item := items[k];
      var next := Filled(item, specMap);
      if next != item {
        items := items[k := next];
        changed := true;
      }
      k := k + 1;
    }
    assert changed <==> items != before by {
      if items != before {
        var m :| 0 <= m < |items| && items[m] != before[m];
      }
    }
    assert items == FilledAll(before, specMap);
  }

  /** The first loop of the missing-only append: an Untracked entry for
      each subclause of the specification whose clause is not yet listed. */
  method CollectMissing(specSubs: seq<SpecSub>, existing: set<string>) returns (toAppend: seq<Item>)
    ensures toAppend == Missing(specSubs, existing)
  {
    toAppend := [];
    var i := 0;
    while i < |specSubs|
      invariant 0 <= i <= |specSubs|
      invariant toAppend + Missing(specSubs[i..], existing) == Missing(specSubs, existing)
      decreases |specSubs| - i
    {
      assert specSubs[i..][1..] == specSubs[i + 1..];
      if specSubs[i].clause !in existing {
        toAppend := toAppend + [UntrackedItem(specSubs[i])];
      }
      i := i + 1;
    }
    assert specSubs[i..] == [];
  }

  /** Each old entry keeps its clause, its status and its non-empty fields. */
  predicate Keeps(before: seq<Item>, after: seq<Item>)
  {
    |before| <= |after| && forall k :: 0 <= k < |before| ==> KeepsItem(before[k], after[k])
  }

  predicate KeepsItem(x: Item, y: Item)
  {
    y.Item? == x.Item?
    && (x.Item? ==>
      y.clause == x.clause && y.status == x.status
      && (IsNonEmptyString(x.title) ==> y.title == x.title)
      && (IsNonEmptyString(x.specUrl) ==> y.specUrl == x.specUrl))
  }

  /** The items of `subclauses`, [] when it is not an array. */
  function ItemsOf(subs: Option<seq<Item>>): seq<Item>
  {
    if subs.Some? then subs.value else []
  }

  /** The description's clause, trimmed; "" when it has none. */
  function TrimmedClause(clause: Option<string>): string
  {
    if clause.Some? then JsTrim(clause.value) else ""
  }

  /** `subclauses` after the missing-only append: unchanged when nothing
      is missing, else the old entries followed by the missing ones. */
  function Appended(subs: Option<seq<Item>>, specSubs: seq<SpecSub>): Option<seq<Item>>
  {
    var missing := Missing(specSubs, ExistingClauses(ItemsOf(subs)));
    if |missing| > 0 then Some(ItemsOf(subs) + missing) else subs
  }

  /** `subclauses` after one synchronisation that reaches the
      specification: the append, then the fill-blanks step when asked and
      `subclauses` is an array. */
  function Synced(subs: Option<seq<Item>>, specSubs: seq<SpecSub>, fillBlanks: bool): Option<seq<Item>>
  {
    var a := Appended(subs, specSubs);
    if fillBlanks && a.Some? then Some(FilledAll(a.value, SpecByClause(specSubs))) else a
  }

  /** How one description fared. */
  datatype Outcome = NotASubsection | FilteredOut | NoSpecMatches | Unchanged | Updated

  /** A subsection's JSON description. */
  class SectionDoc {
    /** `doc.clause` (`None`: missing or not a string). */
    const clause: Option<string>
    /** `doc.subclauses` (`None`: missing or not an array). */
    var subclauses: Option<seq<Item>>

    constructor(clause: Option<string>, subclauses: Option<seq<Item>>)
      ensures this.clause == clause && this.subclauses == subclauses
    {
      this.clause := clause;
      this.subclauses := subclauses;
    }

    /** The missing-only append: the specification's subclauses that the
        description lacks are appended as Untracked entries; existing
        entries stay as they are. */
    method AppendMissing(specSubs: seq<SpecSub>) returns (changed: bool)
      modifies this
      ensures var missing := Missing(specSubs, ExistingClauses(ItemsOf(old(subclauses))));
        changed == (|missing| > 0)
        && subclauses == if changed then Some(ItemsOf(old(subclauses)) + missing) else old(subclauses)
    {
      var existing := ExistingClauses(ItemsOf(subclauses));
      var toAppend := CollectMissing(specSubs, existing);
      changed := |toAppend| > 0;
      if changed {
        if subclauses.None? {
          subclauses := Some([]);
        }
        var j := 0;
        ghost var start := subclauses.value;
        assert start == ItemsOf(old(subclauses));
        assert start + toAppend[..0] == start;
        while j < |toAppend|
          invariant 0 <= j <= |toAppend|
          invariant subclauses == Some(start + toAppend[..j])
          decreases |toAppend| - j
        {
          assert start + toAppend[..j + 1] == (start + toAppend[..j]) + [toAppend[j]];
          subclauses := Some(subclauses.value + [toAppend[j]]);
          j := j + 1;
        }
        assert toAppend[..j] == toAppend;
      }
    }

    /** The fill-blanks step over the entries, when `subclauses` is an array. */
    method FillBlanks(specSubs: seq<SpecSub>) returns (changed: bool)
      modifies this
      ensures old(subclauses).None? ==> subclauses == old(subclauses) && !changed
      ensures old(subclauses).Some? ==> subclauses == Some(FilledAll(old(subclauses).value, SpecByClause(specSubs)))
      ensures changed <==> subclauses != old(subclauses)
    {
      changed := false;
      if subclauses.None? {
        return;
      }
      var specMap := SpecByClause(specSubs);
      var items;
      items, changed := FillItems(subclauses.value, specMap);
      subclauses := Some(items);
    }

    /** One pass of the synchronisation over this description: it must be a
        subsection "N.k" (and the filtered one, when a filter is given) with
        subclauses in the specification; then the missing ones are appended
        and, when asked, blanks filled. */
    method Sync(clauseFilter: string, entries: seq<ClauseEntry>, fillBlanks: bool) returns (outcome: Outcome)
      modifies this
      ensures var c := TrimmedClause(clause);
        && (outcome == NotASubsection <==> !IsTwoPartClause(c))
        && (outcome == FilteredOut <==> IsTwoPartClause(c) && clauseFilter != "" && c != clauseFilter)
        && (outcome == NoSpecMatches <==>
              IsTwoPartClause(c) && (clauseFilter == "" || c == clauseFilter) && |BuildSubclausesFor(c, entries)| == 0)
      ensures outcome in {NotASubsection, FilteredOut, NoSpecMatches} ==> subclauses == old(subclauses)
      ensures outcome in {Unchanged, Updated} ==>
        subclauses == Synced(old(subclauses), BuildSubclausesFor(TrimmedClause(clause), entries), fillBlanks)
      ensures outcome == Updated <==> subclauses != old(subclauses)
      ensures Keeps(ItemsOf(old(subclauses)), ItemsOf(subclauses))
      ensures forall c :: c in ExistingClauses(ItemsOf(old(subclauses))) ==>
        ItemCount(ItemsOf(subclauses), c) == ItemCount(ItemsOf(old(subclauses)), c)
    {
      var c := TrimmedClause(clause);
      if !IsTwoPartClause(c) {
        return NotASubsection;
      }
      if clauseFilter != "" && c != clauseFilter {
        return FilteredOut;
      }
      var specSubs := BuildSubclausesFor(c, entries);
      if |specSubs| == 0 {
        return NoSpecMatches;
      }
      ghost var before := ItemsOf(subclauses);
      var appended := AppendMissing(specSubs);
      ghost var mid := ItemsOf(subclauses);
      AppendKeeps(before, specSubs, mid);
      var filled := false;
      if fillBlanks {
        filled := FillBlanks(specSubs);
        FillKeeps(before, mid, SpecByClause(specSubs));
      }
      assert appended ==> |ItemsOf(subclauses)| > |before|;
      outcome := if appended || filled then Updated else Unchanged;
    }
  }

  /** After the append, every old entry is kept and no existing clause is
      counted more often. */
  lemma AppendKeeps(before: seq<Item>, specSubs: seq<SpecSub>, mid: seq<Item>)
    requires mid == before + Missing(specSubs, ExistingClauses(before)) || mid == before
    ensures Keeps(before, mid)
    ensures forall c :: c in ExistingClauses(before) ==> ItemCount(mid, c) == ItemCount(before, c)
  {
    var existing := ExistingClauses(before);
    forall c | c in existing
      ensures ItemCount(mid, c) == ItemCount(before, c)
    {
      MissingCounts(specSubs, existing, c);
      ItemCountAppend(before, Missing(specSubs, existing), c);
    }
    assert forall k :: 0 <= k < |before| ==> mid[k] == before[k];
  }

  /** Filling after the append keeps what the append kept. */
  lemma FillKeeps(before: seq<Item>, mid: seq<Item>, specMap: map<string, SpecSub>)
    requires Keeps(before, mid)
    requires forall c :: c in ExistingClauses(before) ==> ItemCount(mid, c) == ItemCount(before, c)
    ensures Keeps(before, FilledAll(mid, specMap))
    ensures forall c :: c in ExistingClauses(before) ==> ItemCount(FilledAll(mid, specMap), c) == ItemCount(before, c)
  {
    forall c | c in ExistingClauses(before)
      ensures ItemCount(FilledAll(mid, specMap), c) == ItemCount(before, c)
    {
      FilledKeepsCounts(mid, specMap, c);
    }
    var after := FilledAll(mid, specMap);
    forall k | 0 <= k < |before|
      ensures KeepsItem(before[k], after[k])
    {
      FillNeverOverwrites(mid[k], specMap);
    }
  }

  /** Filling keeps the clause of every entry, so the counts of clauses. */
  lemma {:induction false} FilledKeepsCounts(items: seq<Item>, specMap: map<string, SpecSub>, c: string)
    ensures ItemCount(FilledAll(items, specMap), c) == ItemCount(items, c)
    decreases |items|
  {
    if |items| > 0 {
      FillNeverOverwrites(items[0], specMap);
      FilledKeepsCounts(items[1..], specMap, c);
      assert FilledAll(items, specMap)[1..] == FilledAll(items[1..], specMap);
    }
  }
}
