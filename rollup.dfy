/** The status rollup of the ECMA-262 coverage documents: the statuses a
    clause may carry, the legacy spellings, and how the statuses of a
    section's clauses combine into the section's status. */
module StatusRollup {
  import opened JsValues
  import opened ScriptText

  const Untracked := "Untracked"
  const Informational := "N/A (informational)"
  const NotYet := "Not Yet Supported"
  const Incomplete := "Incomplete"
  const Limitations := "Supported with Limitations"
  const Supported := "Supported"
  const LegacyPartially := "Partially Supported"
  const LegacyNotSupported := "Not Supported"

  /** The statuses in use today. */
  predicate IsCurrentStatus(s: string)
  {
    s == Untracked || s == Informational || s == NotYet || s == Incomplete
    || s == Limitations || s == Supported
  }

  /** The statuses `validateStatus` accepts: the current ones and the two
      legacy spellings. */
  predicate IsAllowedStatus(s: string)
  {
    IsCurrentStatus(s) || s == LegacyPartially || s == LegacyNotSupported
  }

  /** `validateStatus(status)`: throws for a status outside the allowed list. */
  function ValidateStatus(status: string): (r: Attempt<()>)
    ensures r.Returns? <==> IsAllowedStatus(status)
  {
    if IsAllowedStatus(status) then Returns(()) else Throws
  }

  /** The legacy spellings replaced by their current names. */
  function Modernise(s: string): (r: string)
    ensures s != LegacyNotSupported && s != LegacyPartially ==> r == s
    ensures IsAllowedStatus(s) ==> IsCurrentStatus(r)
  {
    if s == LegacyNotSupported then NotYet
    else if s == LegacyPartially then Limitations
    else s
  }

  /** `String(status ?? '')`: null and undefined read as "". */
  function StatusText(status: Option<string>): string
  {
    if status.Some? then status.value else ""
  }

  /** `normalizeLegacyStatus(status)`: trimmed, with "Not Supported" read as
      "Not Yet Supported" and "Partially Supported" as "Supported with
      Limitations". */
  function NormalizeLegacyStatus(status: Option<string>): (r: string)
    ensures JsTrim(StatusText(status)) == LegacyNotSupported ==> r == NotYet
    ensures JsTrim(StatusText(status)) == LegacyPartially ==> r == Limitations
    ensures r != LegacyNotSupported && r != LegacyPartially
  {
    Modernise(JsTrim(StatusText(status)))
  }

  /** A validated status normalises to a current one. */
  lemma ValidatedNormalisesToCurrent(status: string)
    requires ValidateStatus(status).Returns?
    ensures IsCurrentStatus(NormalizeLegacyStatus(Some(status)))
  {
    JsTrimKeepsTrimmed(status);
  }

  /** The statuses of the `norm` list: trimmed, blanks dropped, legacy
      spellings modernised. */
  function Norm(statuses: seq<Option<string>>): (r: seq<string>)
    ensures forall k :: 0 <= k < |r| ==> r[k] != "" && r[k] != LegacyNotSupported && r[k] != LegacyPartially
  {
    if |statuses| == 0 then []
    else
      var t := JsTrim(StatusText(statuses[0]));
      (if t == "" then [] else [Modernise(t)]) + Norm(statuses[1..])
  }

  /** `norm.filter((s) => s !== 'N/A (informational)')`. */
  function WithoutInformational(norm: seq<string>): (r: seq<string>)
    ensures forall y :: y in r <==> y in norm && y != Informational
  {
    if |norm| == 0 then []
    else (if norm[0] == Informational then [] else [norm[0]]) + WithoutInformational(norm[1..])
  }

  /** `getRollupStatus(statuses)`.  Informational entries are neutral unless
      there is nothing else; then, in order: only untracked work is
      Untracked, only unimplemented work is Not Yet Supported, any
      Incomplete or a mix of implemented and unimplemented work is
      Incomplete, and otherwise the best summary present wins. */
  function GetRollupStatus(statuses: seq<Option<string>>): (r: string)
    ensures IsCurrentStatus(r)
  {
    var norm := Norm(statuses);
    var effective := WithoutInformational(norm);
    if |norm| > 0 && |effective| == 0 then Informational
    else
      Decide(Untracked in effective, NotYet in effective, Incomplete in effective,
        Limitations in effective, Supported in effective)
  }

  /** The rollup's decision once informational entries are set aside, from
      which of the five statuses occur. */
  function Decide(hasUntracked: bool, hasNotYet: bool, hasIncomplete: bool,
                  hasLimitations: bool, hasSupported: bool): (r: string)
    ensures IsCurrentStatus(r) && r != Informational
  {
    if !hasNotYet && !hasIncomplete && !hasLimitations && !hasSupported && hasUntracked then Untracked
    else if hasNotYet && !hasIncomplete && !hasLimitations && !hasSupported then NotYet
    else if hasIncomplete then Incomplete
    else if hasSupported && hasNotYet then Incomplete
    else if hasLimitations && hasNotYet then Incomplete
    else if hasLimitations then Limitations
    else if hasSupported then Supported
    else if hasNotYet then NotYet
    else Untracked
  }

  // ---------------------------------------------------------------------
  // A reference definition over the set of statuses that occur
  // ---------------------------------------------------------------------

  /** The normalised status of one entry, if it is not blank. */
  function NormOne(status: Option<string>): Option<string>
  {
    var t := JsTrim(StatusText(status));
    if t == "" then None else Some(Modernise(t))
  }

  /** The normalised statuses that occur, as a set. */
  function Occurring(statuses: seq<Option<string>>): (r: set<string>)
    ensures forall y :: y in r <==> exists k :: 0 <= k < |statuses| && NormOne(statuses[k]) == Some(y)
  {
    set k | 0 <= k < |statuses| && NormOne(statuses[k]).Some? :: NormOne(statuses[k]).value
  }

  /** The rollup as a function of the set of statuses that occur. */
  function RollupOfSet(s: set<string>): (r: string)
  {
    if s != {} && s <= {Informational} then Informational
    else if Incomplete in s then Incomplete
    else if NotYet in s && (Supported in s || Limitations in s) then Incomplete
    else if Limitations in s then Limitations
    else if Supported in s then Supported
    else if NotYet in s then NotYet
    else Untracked
  }

  lemma {:induction false} NormMembers(statuses: seq<Option<string>>)
    ensures forall y :: y in Norm(statuses) <==> y in Occurring(statuses)
    decreases |statuses|
  {
    if |statuses| > 0 {
      NormMembers(statuses[1..]);
      var tail := statuses[1..];
      assert forall k :: 0 <= k < |tail| ==> tail[k] == statuses[k + 1];
      forall y | y in Occurring(statuses) ensures y in Norm(statuses) {
        var k :| 0 <= k < |statuses| && NormOne(statuses[k]) == Some(y);
        if k > 0 {
          assert NormOne(tail[k - 1]) == Some(y);
        }
      }
      forall y | y in Norm(tail) ensures y in Occurring(statuses) {
        var k :| 0 <= k < |tail| && NormOne(tail[k]) == Some(y);
        assert NormOne(statuses[k + 1]) == Some(y);
      }
    }
  }

  /** The rollup equals the reference definition on the set of statuses
      that occur. */
  lemma RollupBySet(statuses: seq<Option<string>>)
    ensures GetRollupStatus(statuses) == RollupOfSet(Occurring(statuses))
  {
    NormMembers(statuses);
    RollupOfMembers(Norm(statuses), Occurring(statuses));
  }

  /** The decision on a list of normalised statuses agrees with the
      reference on the set of its members. */
  lemma RollupOfMembers(norm: seq<string>, s: set<string>)
    requires forall y :: y in norm <==> y in s
    ensures (var effective := WithoutInformational(norm);
      if |norm| > 0 && |effective| == 0 then Informational
      else Decide(Untracked in effective, NotYet in effective, Incomplete in effective,
        Limitations in effective, Supported in effective)) == RollupOfSet(s)
  {
    var effective := WithoutInformational(norm);
    assert |norm| > 0 <==> s != {} by {
      if |norm| > 0 { assert norm[0] in s; }
      if s != {} { var y :| y in s; assert y in norm; }
    }
    assert |effective| == 0 <==> s <= {Informational} by {
      if |effective| > 0 { assert effective[0] in norm; }
      if !(s <= {Informational}) {
        var y :| y in s && y != Informational;
        assert y in effective;
      }
    }
    DecideBySet(s);
  }

  /** `Decide` on the statuses of a set agrees with the reference. */
  lemma DecideBySet(s: set<string>)
    ensures !(s != {} && s <= {Informational}) ==>
      Decide(Untracked in s, NotYet in s, Incomplete in s, Limitations in s, Supported in s) == RollupOfSet(s)
  {
  }

  /** The rollup depends only on which statuses occur, not on their order
      or how often they occur. */
  lemma RollupIgnoresOrderAndRepeats(a: seq<Option<string>>, b: seq<Option<string>>)
    requires forall x :: x in a <==> x in b
    ensures GetRollupStatus(a) == GetRollupStatus(b)
  {
    RollupBySet(a);
    RollupBySet(b);
    forall y | y in Occurring(a) ensures y in Occurring(b) {
      var k :| 0 <= k < |a| && NormOne(a[k]) == Some(y);
      assert a[k] in b;
      var j :| 0 <= j < |b| && b[j] == a[k];
    }
    forall y | y in Occurring(b) ensures y in Occurring(a) {
      var k :| 0 <= k < |b| && NormOne(b[k]) == Some(y);
      assert b[k] in a;
      var j :| 0 <= j < |a| && a[j] == b[k];
    }
    assert Occurring(a) == Occurring(b);
  }

  /** Only informational entries roll up to informational; otherwise they
      are ignored. */
  lemma RollupInformational(statuses: seq<Option<string>>)
    ensures Occurring(statuses) == {Informational} ==> GetRollupStatus(statuses) == Informational
    ensures !(Occurring(statuses) <= {Informational}) ==>
      GetRollupStatus(statuses) == RollupOfSet(Occurring(statuses) - {Informational})
  {
    RollupBySet(statuses);
    InformationalNeutral(Occurring(statuses));
  }

  lemma InformationalNeutral(s: set<string>)
    ensures s == {Informational} ==> RollupOfSet(s) == Informational
    ensures !(s <= {Informational}) ==> RollupOfSet(s) == RollupOfSet(s - {Informational})
  {
    if !(s <= {Informational}) {
      var t := s - {Informational};
      assert !(t <= {Informational});
      assert Incomplete in s <==> Incomplete in t;
      assert NotYet in s <==> NotYet in t;
      assert Supported in s <==> Supported in t;
      assert Limitations in s <==> Limitations in t;
    }
  }

  /** Any Incomplete entry, or implemented work mixed with "Not Yet
      Supported", rolls up to Incomplete. */
  lemma RollupIncomplete(statuses: seq<Option<string>>)
    ensures var s := Occurring(statuses);
      Incomplete in s || (NotYet in s && (Supported in s || Limitations in s))
      <==> GetRollupStatus(statuses) == Incomplete
  {
    RollupBySet(statuses);
    IncompleteBySet(Occurring(statuses));
  }

  lemma IncompleteBySet(s: set<string>)
    ensures Incomplete in s || (NotYet in s && (Supported in s || Limitations in s))
      <==> RollupOfSet(s) == Incomplete
  {
    if Incomplete in s || NotYet in s {
      assert !(s <= {Informational});
    }
  }

  /** Only untracked entries, or none, give Untracked; only unimplemented
      ones (with untracked) give Not Yet Supported. */
  lemma RollupFallbacks(statuses: seq<Option<string>>)
    ensures Occurring(statuses) <= {Untracked} ==> GetRollupStatus(statuses) == Untracked
    ensures NotYet in Occurring(statuses) && Occurring(statuses) <= {NotYet, Untracked, Informational}
      ==> GetRollupStatus(statuses) == NotYet
  {
    RollupBySet(statuses);
    FallbacksBySet(Occurring(statuses));
  }

  lemma FallbacksBySet(s: set<string>)
    ensures s <= {Untracked} ==> RollupOfSet(s) == Untracked
    ensures NotYet in s && s <= {NotYet, Untracked, Informational} ==> RollupOfSet(s) == NotYet
  {
    if s <= {Untracked} {
      assert Informational !in s && Incomplete !in s && NotYet !in s;
      assert Limitations !in s && Supported !in s;
      assert s == {} || !(s <= {Informational});
    }
    if NotYet in s && s <= {NotYet, Untracked, Informational} {
      assert Incomplete !in s && Limitations !in s && Supported !in s;
      assert !(s <= {Informational});
    }
  }

  /** "Supported with Limitations" wins over "Supported" unless the mix is
      Incomplete. */
  lemma LimitationsDominateSupported(statuses: seq<Option<string>>)
    requires Limitations in Occurring(statuses)
    requires Incomplete !in Occurring(statuses) && NotYet !in Occurring(statuses)
    ensures GetRollupStatus(statuses) == Limitations
  {
    RollupBySet(statuses);
    LimitationsOfSet(Occurring(statuses));
  }

  lemma LimitationsOfSet(s: set<string>)
    requires Limitations in s && Incomplete !in s && NotYet !in s
    ensures RollupOfSet(s) == Limitations
  {
    assert !(s <= {Informational});
  }
}
