/** The read-only listings of PdpController: conflicts(), the definitions
    behind policyDefinitions() and revisionsByPolicyId(), and the decision
    whether checkConflicts() sends mail. The parser, registry, access
    enforcer and conflict service are the uninterpreted functions of
    `Services`. */
module Listings {
  import opened Domain
  import opened Services

  /** The key conflicts() files definitions with an unknown service provider under. */
  const InvalidKey: string := "Invalid"

  /** addEntityMetaData: service provider name and enforcement flag when the
      registry knows the provider, the invalid flag when it does not, and
      the identity provider names. */
  function AddEntityMetaData(svc: Services, pd: PolicyDefinition): (r: PolicyDefinition)
    ensures r.serviceProviderInvalidOrMissing <==> svc.serviceProvider(pd.serviceProviderId).None?
    ensures svc.serviceProvider(pd.serviceProviderId).Some? ==>
              && r.serviceProviderName == svc.serviceProvider(pd.serviceProviderId).value.nameEn
              && r.activatedSr == svc.serviceProvider(pd.serviceProviderId).value.policyEnforcementDecisionRequired
    ensures svc.serviceProvider(pd.serviceProviderId).None? ==>
              r.serviceProviderName == pd.serviceProviderName && r.activatedSr == pd.activatedSr
    ensures r.identityProviderNames == svc.identityProviderNames(pd.identityProviderIds)
    // nothing else changes
    ensures r.(serviceProviderInvalidOrMissing := pd.serviceProviderInvalidOrMissing,
               serviceProviderName := pd.serviceProviderName, activatedSr := pd.activatedSr,
               identityProviderNames := pd.identityProviderNames) == pd
  {
    var sp := svc.serviceProvider(pd.serviceProviderId);
    var flagged := pd.(serviceProviderInvalidOrMissing := sp.None?);
    var named :=
      if sp.Some? then flagged.(serviceProviderName := sp.value.nameEn, activatedSr := sp.value.policyEnforcementDecisionRequired)
      else flagged;
    named.(identityProviderNames := svc.identityProviderNames(pd.identityProviderIds))
  }

  /** addAccessRules: whether the current user may change the policy, and
      the name of the institution that wrote it. */
  function AddAccessRules(svc: Services, row: PdpPolicy, pd: PolicyDefinition): (r: PolicyDefinition)
    // WRITE is asked for the definition's providers, on behalf of the stored row
    ensures r.actionsAllowed == svc.actionAllowedIndicator(row, Write, pd.serviceProviderId, pd.identityProviderIds)
    // the institution named is the one the row's author authenticated with
    ensures r.authenticatingAuthorityName == svc.identityProviderName(row.author.authenticatingAuthority)
    // nothing else changes
    ensures r.(actionsAllowed := pd.actionsAllowed, authenticatingAuthorityName := pd.authenticatingAuthorityName) == pd
  {
    pd.(actionsAllowed := svc.actionAllowedIndicator(row, Write, pd.serviceProviderId, pd.identityProviderIds),
        authenticatingAuthorityName := svc.identityProviderName(row.author.authenticatingAuthority))
  }

  /** The definition conflicts() makes of a stored row. */
  function Classified(svc: Services): PdpPolicy -> PolicyDefinition {
    (row: PdpPolicy) => AddEntityMetaData(svc, svc.parse(row))
  }

  /** The definition policyDefinitions() and revisionsByPolicyId() make of a stored row. */
  function Described(svc: Services): PdpPolicy -> PolicyDefinition {
    (row: PdpPolicy) => AddEntityMetaData(svc, AddAccessRules(svc, row, svc.parse(row)))
  }

  /** The registry does not know the service provider of the row's policy. */
  function ProviderUnknown(svc: Services): PdpPolicy -> bool {
    (row: PdpPolicy) => svc.serviceProvider(svc.parse(row).serviceProviderId).None?
  }

  function ProviderKnown(svc: Services): PdpPolicy -> bool {
    (row: PdpPolicy) => svc.serviceProvider(svc.parse(row).serviceProviderId).Some?
  }

  predicate Invalid(pd: PolicyDefinition) {
    pd.serviceProviderInvalidOrMissing
  }

  predicate ProviderResolved(pd: PolicyDefinition) {
    !pd.serviceProviderInvalidOrMissing
  }

  /** conflicts(): the conflict service's map, plus the "Invalid" bucket. */
  function Conflicts(svc: Services, rows: seq<PdpPolicy>): (r: ConflictMap)
    // with every provider known, the map is the conflict service's
    ensures (forall row :: row in rows ==> ProviderKnown(svc)(row)) ==>
              r == svc.conflictsOf(MapSeq(rows, Classified(svc)))
    // otherwise "Invalid" holds the definitions of exactly the rows whose provider is unknown, in order
    ensures (exists row :: row in rows && ProviderUnknown(svc)(row)) ==>
              && InvalidKey in r
              && r[InvalidKey] == MapSeq(Filter(rows, ProviderUnknown(svc)), Classified(svc))
    // the other keys are the conflict service's
    ensures forall k :: k != InvalidKey ==>
              (k in r <==> k in svc.conflictsOf(MapSeq(rows, Classified(svc))))
              && (k in r ==> r[k] == svc.conflictsOf(MapSeq(rows, Classified(svc)))[k])
  {
    var policies := MapSeq(rows, Classified(svc));
    var conflicts := svc.conflictsOf(policies);
    var invalid := Filter(policies, Invalid);
    FilterMapSeq(rows, Classified(svc), Invalid, ProviderUnknown(svc));
    assert invalid == [] ==> forall row :: row in rows ==> ProviderKnown(svc)(row) by {
      if invalid == [] {
        forall row | row in rows ensures ProviderKnown(svc)(row) {
        }
      }
    }
    assert invalid != [] ==> exists row :: row in rows && ProviderUnknown(svc)(row) by {
      if invalid != [] {
        assert invalid[0] in MapSeq(Filter(rows, ProviderUnknown(svc)), Classified(svc));
        assert Filter(rows, ProviderUnknown(svc))[0] in Filter(rows, ProviderUnknown(svc));
      }
    }
    if invalid != [] then conflicts[InvalidKey := invalid] else conflicts
  }

  /** The definitions policyDefinitions() keeps: those whose provider is known. */
  function ValidDefinitions(svc: Services, rows: seq<PdpPolicy>): (r: seq<PolicyDefinition>)
    ensures r == MapSeq(Filter(rows, ProviderKnown(svc)), Described(svc))
  {
    forall row ensures ProviderKnown(svc)(row) == ProviderResolved(Described(svc)(row)) {
      assert AddAccessRules(svc, row, svc.parse(row)).serviceProviderId == svc.parse(row).serviceProviderId;
    }
    FilterMapSeq(rows, Described(svc), ProviderResolved, ProviderKnown(svc));
    Filter(MapSeq(rows, Described(svc)), ProviderResolved)
  }

  /** policyDefinitions() drops exactly the definitions conflicts() files
      under "Invalid": every stored row is in one of the two lists, once. */
  lemma {:induction false} ListingsPartitionRows(svc: Services, rows: seq<PdpPolicy>)
    ensures |ValidDefinitions(svc, rows)| + |Filter(rows, ProviderUnknown(svc))| == |rows|
    ensures forall row :: row in rows ==>
              (Described(svc)(row) in ValidDefinitions(svc, rows) || row in Filter(rows, ProviderUnknown(svc)))
    ensures forall row :: row in rows && ProviderUnknown(svc)(row) ==> Described(svc)(row) !in ValidDefinitions(svc, rows)
  {
    FilterPartition(rows, ProviderKnown(svc), ProviderUnknown(svc));
    forall row | row in rows && ProviderKnown(svc)(row) ensures Described(svc)(row) in ValidDefinitions(svc, rows) {
      MapSeqHas(Filter(rows, ProviderKnown(svc)), Described(svc), row);
    }
    forall row | row in rows && ProviderUnknown(svc)(row) ensures Described(svc)(row) !in ValidDefinitions(svc, rows) {
      assert Described(svc)(row).serviceProviderInvalidOrMissing;
    }
  }

  /** The violations recorded against the row with id `id`. */
  function OnPolicy(id: nat): Violation -> bool {
    (v: Violation) => v.policy == id
  }

  /** The rows that are revisions of the root with id `id`. */
  function RevisionOf(id: nat): PdpPolicy -> bool {
    (a: PdpPolicy) => a.parent == Some(id)
  }

  /** findCountPerPolicyId: for each row that has violations, how many. */
  function ViolationCountPerPolicyId(violations: seq<Violation>): (m: map<nat, nat>)
    ensures forall id :: id in m ==> m[id] == |Filter(violations, OnPolicy(id))| && m[id] > 0
    ensures forall v :: v in violations ==> v.policy in m
  {
    var m := map id | id in (set v | v in violations :: v.policy) :: |Filter(violations, OnPolicy(id))|;
    assert forall id :: id in m ==> m[id] > 0 by {
      forall id | id in m ensures m[id] > 0 {
        var v :| v in violations && v.policy == id;
        assert v in Filter(violations, OnPolicy(id));
      }
    }
    m
  }

  /** findRevisionCountPerId: for each root that has revisions, how many. */
  function RevisionCountPerId(rows: seq<PdpPolicy>): (m: map<nat, nat>)
    ensures forall id :: id in m ==> m[id] == |Filter(rows, RevisionOf(id))| && m[id] > 0
    ensures forall a :: a in rows && a.parent.Some? ==> a.parent.value in m
  {
    var m := map id | id in (set a | a in rows && a.parent.Some? :: a.parent.value) :: |Filter(rows, RevisionOf(id))|;
    assert forall id :: id in m ==> m[id] > 0 by {
      forall id | id in m ensures m[id] > 0 {
        var a :| a in rows && a.parent.Some? && a.parent.value == id;
        assert a in Filter(rows, RevisionOf(id));
      }
    }
    m
  }

  /** Map.getOrDefault(id, 0). */
  function CountOrZero(m: map<nat, nat>, id: Option<nat>): nat {
    if id.Some? && id.value in m then m[id.value] else 0
  }

  /** The numbers policyDefinitions() writes into a definition are the true
      counts, 0 for a row without violations or revisions. */
  lemma CountsDefaultToZero(violations: seq<Violation>, rows: seq<PdpPolicy>, id: nat)
    ensures CountOrZero(ViolationCountPerPolicyId(violations), Some(id)) == |Filter(violations, OnPolicy(id))|
    ensures CountOrZero(RevisionCountPerId(rows), Some(id)) == |Filter(rows, RevisionOf(id))|
    ensures (forall v :: v in violations ==> v.policy != id) ==> CountOrZero(ViolationCountPerPolicyId(violations), Some(id)) == 0
  {
  }

  /** The two forEach setters of policyDefinitions(), applied to one definition. */
  function WithCounts(violationCounts: map<nat, nat>, revisionCounts: map<nat, nat>): PolicyDefinition -> PolicyDefinition {
    (pd: PolicyDefinition) => pd.(numberOfViolations := CountOrZero(violationCounts, pd.id),
                                  numberOfRevisions := CountOrZero(revisionCounts, pd.id))
  }

  /** policyDefinitions(): the definitions of the rows whose provider is
      known, with their counts, as the access enforcer lets the user see them. */
  function PolicyDefinitions(svc: Services, rows: seq<PdpPolicy>, violations: seq<Violation>): seq<PolicyDefinition> {
    svc.filterPolicies(MapSeq(ValidDefinitions(svc, rows),
                              WithCounts(ViolationCountPerPolicyId(violations), RevisionCountPerId(rows))))
  }

  /** checkConflicts: mail goes out when the written definition's service
      provider is known and its English name is a key of the conflict map. */
  predicate ConflictMailDue(svc: Services, pd: PolicyDefinition, conflicts: ConflictMap) {
    svc.serviceProvider(pd.serviceProviderId).Some? && svc.serviceProvider(pd.serviceProviderId).value.nameEn in conflicts
  }
}
