/** What the controller does with the engine's answer to one request:
    PdpController.reportPolicyViolation and getPolicyId. The engine's
    results are plain values here; which violation (if any) is recorded and
    which decision is reported are functions of them and of the stored rows. */
module Decisions {
  import opened Domain

  /** org.apache.openaz.xacml.api.Decision: the four XACML decisions and
      the three extended Indeterminate values (Indeterminate{P}, {D}, {DP}). */
  datatype Decision =
    | Permit | Deny | Indeterminate | NotApplicable
    | IndeterminatePermit | IndeterminateDeny | IndeterminateDenyPermit

  /** One XACML result: its decision and the identifiers of the policies and
      policy sets that produced it. */
  datatype EngineResult = EngineResult(decision: Decision, policyIdentifiers: seq<string>, policySetIdentifiers: seq<string>)

  /** What singletonOptionalCollector makes of a stream of identifiers:
      an empty Optional, the one identifier, or an exception. */
  datatype Resolution = Unresolved | Resolved(id: string) | Refused

  /** The only behaviour of singletonOptionalCollector the model relies on:
      no element gives an empty Optional, one element gives that element.
      What it does with two or more elements is left open. */
  ghost predicate SingletonCollector(collect: seq<string> -> Resolution) {
    && collect([]) == Unresolved
    && forall id :: collect([id]) == Resolved(id)
  }

  /** The results that count as violations: DENY or INDETERMINATE. */
  predicate DenyOrIndeterminate(result: EngineResult) {
    result.decision == Deny || result.decision == Indeterminate
  }

  /** The results.stream().filter(...) of reportPolicyViolation. */
  function DeniesOrIndeterminates(results: seq<EngineResult>): (r: seq<EngineResult>)
    ensures forall x :: x in r <==> x in results && (x.decision == Deny || x.decision == Indeterminate)
    ensures r == [] <==> forall x :: x in results ==> x.decision != Deny && x.decision != Indeterminate
    ensures forall i :: (0 <= i < |results| && DenyOrIndeterminate(results[i])
              && (forall j :: 0 <= j < i ==> !DenyOrIndeterminate(results[j]))) ==> r != [] && r[0] == results[i]
  {
    var r := Filter(results, DenyOrIndeterminate);
    forall i | 0 <= i < |results| && DenyOrIndeterminate(results[i])
        && (forall j :: 0 <= j < i ==> !DenyOrIndeterminate(results[j]))
      ensures r != [] && r[0] == results[i]
    {
      FilterHead(results, DenyOrIndeterminate, i);
    }
    assert r != [] ==> r[0] in r;
    r
  }

  /** getPolicyId: the identifier of the first flagged result. Its policy
      identifiers take precedence; its policy-set identifiers are used only
      when it has no policy identifiers. */
  function GetPolicyId(flagged: seq<EngineResult>, collect: seq<string> -> Resolution): (r: Resolution)
    requires flagged != []
    ensures SingletonCollector(collect) ==>
              && (|flagged[0].policyIdentifiers| == 1 ==> r == Resolved(flagged[0].policyIdentifiers[0]))
              && (flagged[0].policyIdentifiers == [] && |flagged[0].policySetIdentifiers| == 1 ==>
                    r == Resolved(flagged[0].policySetIdentifiers[0]))
              && (flagged[0].policyIdentifiers == [] && flagged[0].policySetIdentifiers == [] ==> r == Unresolved)
  {
    var result := flagged[0];
    if result.policyIdentifiers != [] then
      assert |result.policyIdentifiers| == 1 ==> result.policyIdentifiers == [result.policyIdentifiers[0]];
      collect(result.policyIdentifiers)
    else
      assert |result.policySetIdentifiers| == 1 ==> result.policySetIdentifiers == [result.policySetIdentifiers[0]];
      collect(result.policySetIdentifiers)
  }

  /** Precedence in getPolicyId: only the first flagged result is looked
      at, and its policy-set identifiers only when it has no policy
      identifiers; then they alone decide. */
  lemma GetPolicyIdPrecedence(flagged: seq<EngineResult>, collect: seq<string> -> Resolution)
    requires flagged != []
    ensures forall rest :: GetPolicyId([flagged[0]] + rest, collect) == GetPolicyId(flagged, collect)
    ensures forall sets :: flagged[0].policyIdentifiers != [] ==>
              GetPolicyId([flagged[0].(policySetIdentifiers := sets)], collect) == GetPolicyId(flagged, collect)
    ensures forall ids :: flagged[0].policyIdentifiers == [] ==>
              GetPolicyId([flagged[0].(policySetIdentifiers := ids)], collect) == collect(ids)
  {
  }

  /** The identifier reportPolicyViolation looks up, Unresolved when no
      result is flagged (getPolicyId is not called then). */
  function ViolatedPolicyId(results: seq<EngineResult>, collect: seq<string> -> Resolution): (r: Resolution)
    ensures (forall x :: x in results ==> !DenyOrIndeterminate(x)) ==> r == Unresolved
  {
    var flagged := DeniesOrIndeterminates(results);
    if flagged == [] then Unresolved else GetPolicyId(flagged, collect)
  }

  /** The test of findFirstByPolicyIdAndLatestRevision(policyId, true). */
  function LatestWithPolicyId(policyId: string): PdpPolicy -> bool {
    (row: PdpPolicy) => row.policyId == policyId && row.latestRevision
  }

  /** findFirstByPolicyIdAndLatestRevision(policyId, true).stream().findFirst(). */
  function FindLatestByPolicyId(rows: seq<PdpPolicy>, policyId: string): (r: Option<PdpPolicy>)
    ensures r.None? <==> forall row :: row in rows ==> !(row.policyId == policyId && row.latestRevision)
    ensures r.Some? ==> r.value in rows && r.value.policyId == policyId && r.value.latestRevision
  {
    Find(rows, LatestWithPolicyId(policyId))
  }

  /** The effect of one reportPolicyViolation call: the decision it returns
      and the violation it saves, if any. */
  datatype Report = Report(decision: Decision, violation: Option<Violation>)

  /** reportPolicyViolation. A flagged result whose identifier the collector
      refuses raises before anything is saved; an empty result collection
      raises when the decision of the first result is read, after the
      (then necessarily empty) violation step. */
  function ReportPolicyViolation(results: seq<EngineResult>, response: string, payload: string, isPlayground: bool,
                                 rows: seq<PdpPolicy>, collect: seq<string> -> Resolution): (r: Result<Report>)
    ensures r == Err(NoResult) <==> results == []
    ensures r == Err(AmbiguousIdentifier) <==> ViolatedPolicyId(results, collect) == Refused
    ensures r.Err? ==> r == Err(NoResult) || r == Err(AmbiguousIdentifier)
    // the decision reported is the first result's, whatever is recorded
    ensures r.Ok? ==> results != [] && r.value.decision == results[0].decision
    // a violation is recorded exactly when an identifier resolves to a latest revision
    ensures r.Ok? ==> (r.value.violation.Some? <==>
              && (exists x :: x in results && DenyOrIndeterminate(x))
              && ViolatedPolicyId(results, collect).Resolved?
              && FindLatestByPolicyId(rows, ViolatedPolicyId(results, collect).id).Some?)
    ensures r.Ok? && r.value.violation.Some? ==>
              var v := r.value.violation.value;
              && v.payload == payload && v.response == response && v.isPlayground == isPlayground
              && exists row :: row in rows && row.id == v.policy && row.latestRevision
                   && row.policyId == ViolatedPolicyId(results, collect).id
  {
    var resolution := ViolatedPolicyId(results, collect);
    if resolution == Refused then Err(AmbiguousIdentifier)
    else
      var violation :=
        if resolution.Resolved? then
          match FindLatestByPolicyId(rows, resolution.id)
          case Some(row) => Some(Violation(row.id, payload, response, isPlayground))
          case None => None
        else None;
      if results == [] then Err(NoResult)
      else Ok(Report(results[0].decision, violation))
  }

  /** Identifier resolution looks only at the first DENY or INDETERMINATE
      result: results before it are not flagged, and whatever follows it
      does not change the identifier. */
  lemma {:induction false} ResolutionUsesFirstFlagged(results: seq<EngineResult>, i: nat, collect: seq<string> -> Resolution)
    requires i < |results| && DenyOrIndeterminate(results[i])
    requires forall j :: 0 <= j < i ==> !DenyOrIndeterminate(results[j])
    ensures ViolatedPolicyId(results, collect) == GetPolicyId([results[i]], collect)
    ensures forall s :: i < |s| && s[..i + 1] == results[..i + 1] ==>
              ViolatedPolicyId(s, collect) == ViolatedPolicyId(results, collect)
  {
    var flagged := DeniesOrIndeterminates(results);
    assert flagged != [] && flagged[0] == results[i];
    assert GetPolicyId(flagged, collect) == GetPolicyId([flagged[0]] + flagged[1..], collect);
    forall s | i < |s| && s[..i + 1] == results[..i + 1]
      ensures ViolatedPolicyId(s, collect) == ViolatedPolicyId(results, collect)
    {
      assert s[i] == s[..i + 1][i] == results[i];
      forall j | 0 <= j < i ensures !DenyOrIndeterminate(s[j]) { assert s[j] == s[..i + 1][j] == results[j]; }
      var f := DeniesOrIndeterminates(s);
      assert f != [] && f[0] == results[i];
      assert GetPolicyId(f, collect) == GetPolicyId([f[0]] + f[1..], collect);
    }
  }

  /** With a well-behaved collector, a flagged result that names exactly one
      policy records a violation against the latest revision carrying that
      policy id, whenever there is one. */
  lemma SinglePolicyRecorded(results: seq<EngineResult>, response: string, payload: string, isPlayground: bool,
                             rows: seq<PdpPolicy>, collect: seq<string> -> Resolution, row: PdpPolicy)
    requires SingletonCollector(collect)
    requires results != [] && DenyOrIndeterminate(results[0]) && results[0].policyIdentifiers == [row.policyId]
    requires row in rows && row.latestRevision
    ensures var r := ReportPolicyViolation(results, response, payload, isPlayground, rows, collect);
      && r.Ok? && r.value.decision == results[0].decision
      && r.value.violation.Some? && r.value.violation.value.isPlayground == isPlayground
  {
    ResolutionUsesFirstFlagged(results, 0, collect);
    assert GetPolicyId([results[0]], collect) == Resolved(row.policyId);
    assert ViolatedPolicyId(results, collect) == Resolved(row.policyId);
    assert FindLatestByPolicyId(rows, row.policyId).Some?;
  }

  /** A response whose results are neither DENY nor plain INDETERMINATE
      (PERMIT, NOT_APPLICABLE, or one of the extended Indeterminate values,
      which the equality test does not catch) records nothing and reports
      the first decision as it is. */
  lemma NothingFlaggedNothingRecorded(results: seq<EngineResult>, response: string, payload: string, isPlayground: bool,
                                      rows: seq<PdpPolicy>, collect: seq<string> -> Resolution)
    requires results != []
    requires forall x :: x in results ==> x.decision != Deny && x.decision != Indeterminate
    ensures var r := ReportPolicyViolation(results, response, payload, isPlayground, rows, collect);
      r == Ok(Report(results[0].decision, None))
  {
  }
}
