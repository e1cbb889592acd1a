/** pdp.web.PdpController: the REST controller around the XACML engines.
    Its state is the policy and violation repositories, the production
    engine it swaps on refresh, and the conflict mails it has sent. */
module Web {
  import opened Domain
  import opened Revisions
  import opened Decisions
  import opened Services
  import opened Listings

  /** findPolicyById: an unknown id raises not-found; for a stored row the
      access enforcer is asked, with the provider and identity providers of
      the row's own definition, before the row is handed out. */
  function FindPolicyById(svc: Services, rows: seq<PdpPolicy>, id: nat, access: Access): (r: Result<PdpPolicy>)
    ensures r == Err(PolicyNotFound) <==> forall a :: a in rows ==> a.id != id
    ensures r.Ok? ==> r.value in rows && r.value.id == id
    ensures r.Ok? ==> svc.actionAllowed(r.value, access, svc.parse(r.value).serviceProviderId,
                                        svc.parse(r.value).identityProviderIds)
    ensures FindOne(rows, id).Some? ==>
              var row := FindOne(rows, id).value;
              r.Err? <==> !svc.actionAllowed(row, access, svc.parse(row).serviceProviderId, svc.parse(row).identityProviderIds)
    ensures r.Err? ==> r == Err(PolicyNotFound) || r == Err(AccessDenied)
  {
    match FindOne(rows, id)
    case None => Err(PolicyNotFound)
    case Some(policy) =>
      var definition := svc.parse(policy);
      if svc.actionAllowed(policy, access, definition.serviceProviderId, definition.identityProviderIds)
      then Ok(policy)
      else Err(AccessDenied)
  }

  /** The rows revisionsByPolicyId describes: after the READ check on the
      requested row, its root and all the root's revisions. */
  function RevisionRows(svc: Services, rows: seq<PdpPolicy>, id: nat): (r: Result<seq<PdpPolicy>>)
    requires WellFormed(rows)
    ensures r.Err? <==> FindPolicyById(svc, rows, id, Read).Err?
    ensures r.Err? ==> r.failure == FindPolicyById(svc, rows, id, Read).failure
    ensures r.Ok? ==>
              var asked := FindPolicyById(svc, rows, id, Read).value;
              var root := RootOf(rows, asked);
              && asked in r.value && root in r.value
              && forall a :: a in r.value <==> a in rows && a.id in ChainIds(root)
  {
    match FindPolicyById(svc, rows, id, Read)
    case Err(f) => Err(f)
    case Ok(policy) =>
      var parent := RootOf(rows, policy);
      RevisionChainIsRootAndRevisions(rows, parent);
      ChainMembership(rows, parent);
      Ok(RevisionChain(rows, parent.id))
  }

  /** revisionsByPolicyId: the listed rows, each described with its access
      rules and registry metadata. */
  function RevisionsByPolicyId(svc: Services, rows: seq<PdpPolicy>, id: nat): (r: Result<seq<PolicyDefinition>>)
    requires WellFormed(rows)
    ensures r.Err? <==> RevisionRows(svc, rows, id).Err?
    ensures r.Err? ==> r.failure == FindPolicyById(svc, rows, id, Read).failure
    ensures r.Ok? ==> |r.value| == |RevisionRows(svc, rows, id).value|
    ensures r.Ok? ==> forall i :: 0 <= i < |r.value| ==> r.value[i] == Described(svc)(RevisionRows(svc, rows, id).value[i])
  {
    match RevisionRows(svc, rows, id)
    case Err(f) => Err(f)
    case Ok(listed) => Ok(MapSeq(listed, Described(svc)))
  }

  /** What a successful write hands to the repository: the rows afterwards
      and the row passed to save (the root of the chain). */
  datatype Written = Written(rows: seq<PdpPolicy>, saved: PdpPolicy)

  /** The part of createPdpPolicy before the repository save: render and
      check the XML, then either revise the chain of the stored policy the
      definition names or create a new root after a WRITE check. */
  function WritePolicy(svc: Services, rows: seq<PdpPolicy>, newId: nat, pd: PolicyDefinition, author: Author): (r: Result<Written>)
    requires WellFormed(rows)
    ensures r.Ok? ==> |r.value.rows| == |rows| + 1
  {
    var policyXml := svc.createPolicyXml(pd);
    if !svc.policyXmlParses(policyXml) then Err(InvalidPolicyXml)
    else if pd.id.Some? then
      match FindPolicyById(svc, rows, pd.id.value, Write)
      case Err(f) => Err(f)
      case Ok(fromDB) =>
        var policy := RootOf(rows, fromDB);
        var revised := Revision(rows, policy, newId, svc.policyIdOf(policyXml), policyXml, pd.name, author, pd.active);
        Ok(Written(revised, policy.(latestRevision := false, revisions := policy.revisions + {newId})))
    else
      var policy := NewRoot(newId, svc.policyIdOf(policyXml), policyXml, pd.name, author, pd.active);
      if svc.actionAllowed(policy, Write, pd.serviceProviderId, pd.identityProviderIds)
      then Ok(Written(rows + [policy], policy))
      else Err(AccessDenied)
  }

  /** createPdpPolicy's guards and what a write produces. The XML must
      parse; a revision first looks the named row up with the WRITE check
      and then works on its root; a new policy is checked for WRITE against
      the definition's own providers. */
  lemma WritePolicyContract(svc: Services, rows: seq<PdpPolicy>, newId: nat, pd: PolicyDefinition, author: Author)
    requires WellFormed(rows)
    ensures var r := WritePolicy(svc, rows, newId, pd, author);
      var xml := svc.createPolicyXml(pd);
      && (!svc.policyXmlParses(xml) ==> r == Err(InvalidPolicyXml))
      // revising: not-found and the WRITE check on the stored row come first
      && (svc.policyXmlParses(xml) && pd.id.Some? ==>
            && (r.Err? <==> FindPolicyById(svc, rows, pd.id.value, Write).Err?)
            && (r.Err? ==> r.failure == FindPolicyById(svc, rows, pd.id.value, Write).failure))
      // creating: the new row must pass the WRITE check for the definition's providers
      && (svc.policyXmlParses(xml) && pd.id.None? ==>
            && (r.Err? <==> !svc.actionAllowed(NewRoot(newId, svc.policyIdOf(xml), xml, pd.name, author, pd.active),
                                               Write, pd.serviceProviderId, pd.identityProviderIds))
            && (r.Err? ==> r == Err(AccessDenied)))
    ensures var r := WritePolicy(svc, rows, newId, pd, author);
      var xml := svc.createPolicyXml(pd);
      r.Ok? ==>
        var added := r.value.rows[|rows|];
        && svc.policyXmlParses(xml)
        && r.value.saved in r.value.rows && r.value.saved.parent.None?
        && added.id == newId && added.latestRevision
        && added.policyXml == xml && added.policyId == svc.policyIdOf(xml)
        && added.name == pd.name && added.author == author && added.active == pd.active
    // a revision is filed under the root of the named row, numbered after its predecessors
    ensures var r := WritePolicy(svc, rows, newId, pd, author);
      r.Ok? && pd.id.Some? ==>
        var root := RootOf(rows, FindOne(rows, pd.id.value).value);
        && r.value.saved.id == root.id
        && r.value.rows[|rows|].parent == Some(root.id)
        && r.value.rows[|rows|].revisionNbr == |root.revisions| + 1
    // a new policy is a fresh root appended to the rows
    ensures var r := WritePolicy(svc, rows, newId, pd, author);
      r.Ok? && pd.id.None? ==>
        && r.value.saved == r.value.rows[|rows|]
        && r.value.saved.revisionNbr == 0 && r.value.saved.revisions == {}
        && r.value.rows[..|rows|] == rows
  {
  }

  /** Revising a chain keeps the repository well formed, loses no row id,
      and the next free id stays above every stored id. */
  lemma RevisionKeepsStore(rows: seq<PdpPolicy>, root: PdpPolicy, newId: nat, policyId: string, policyXml: string,
                           name: string, author: Author, active: bool)
    requires WellFormed(rows) && root in rows && root.parent.None?
    requires forall a :: a in rows ==> a.id < newId
    ensures var revised := Revision(rows, root, newId, policyId, policyXml, name, author, active);
      && WellFormed(revised)
      && (forall a :: a in revised ==> a.id < newId + 1)
      && (forall a :: a in rows ==> FindOne(revised, a.id).Some?)
  {
    var revised := Revision(rows, root, newId, policyId, policyXml, name, author, active);
    RevisionWellFormed(rows, root, newId, policyId, policyXml, name, author, active);
    var f := Retire(root, newId);
    var rev := NewRevision(root, newId, policyId, policyXml, name, author, active);
    assert revised == MapSeq(rows, f) + [rev];
    forall a | a in revised ensures a.id < newId + 1 {
      if a != rev {
        RetiredFrom(rows, root, newId, a);
      }
    }
    forall a | a in rows ensures FindOne(revised, a.id).Some? {
      MapSeqHas(rows, f, a);
      assert f(a) in revised;
    }
  }

  /** A write keeps the repository well formed, loses no row id, and the
      next free id stays above every stored id. */
  lemma WritePolicyKeepsStore(svc: Services, rows: seq<PdpPolicy>, newId: nat, pd: PolicyDefinition, author: Author)
    requires WellFormed(rows) && forall a :: a in rows ==> a.id < newId
    ensures var r := WritePolicy(svc, rows, newId, pd, author);
      r.Ok? ==>
        && WellFormed(r.value.rows)
        && (forall a :: a in r.value.rows ==> a.id < newId + 1)
        && (forall a :: a in rows ==> FindOne(r.value.rows, a.id).Some?)
  {
    var r := WritePolicy(svc, rows, newId, pd, author);
    if r.Ok? {
      var policyXml := svc.createPolicyXml(pd);
      if pd.id.Some? {
        var fromDB := FindPolicyById(svc, rows, pd.id.value, Write).value;
        var root := RootOf(rows, fromDB);
        assert r.value.rows == Revision(rows, root, newId, svc.policyIdOf(policyXml), policyXml, pd.name, author, pd.active);
        RevisionKeepsStore(rows, root, newId, svc.policyIdOf(policyXml), policyXml, pd.name, author, pd.active);
      } else {
        var root := NewRoot(newId, svc.policyIdOf(policyXml), policyXml, pd.name, author, pd.active);
        assert r.value.rows == rows + [root];
        NewRootKeepsStore(rows, root);
      }
    }
  }

  /** Adding a fresh root keeps the repository well formed, loses no row
      id, and the next free id stays above every stored id. */
  lemma NewRootKeepsStore(rows: seq<PdpPolicy>, root: PdpPolicy)
    requires WellFormed(rows) && forall a :: a in rows ==> a.id < root.id
    requires root.parent.None? && root.revisions == {} && root.revisionNbr == 0 && root.latestRevision
    ensures WellFormed(rows + [root])
    ensures forall a :: a in rows + [root] ==> a.id < root.id + 1
    ensures forall a :: a in rows ==> FindOne(rows + [root], a.id).Some?
  {
    NewRootWellFormed(rows, root);
    forall a | a in rows ensures FindOne(rows + [root], a.id).Some? {
      assert a in rows + [root];
    }
  }

  /** After a successful write the repositories keep their invariant. */
  lemma WrittenStoreValid(svc: Services, policies: seq<PdpPolicy>, violations: seq<Violation>, nextId: nat,
                          pd: PolicyDefinition, author: Author)
    requires StoreValid(policies, violations, nextId)
    ensures var w := WritePolicy(svc, policies, nextId, pd, author);
      w.Ok? ==> StoreValid(w.value.rows, violations, nextId + 1)
  {
    var w := WritePolicy(svc, policies, nextId, pd, author);
    if w.Ok? {
      WritePolicyKeepsStore(svc, policies, nextId, pd, author);
      forall v | v in violations ensures FindOne(w.value.rows, v.policy).Some? {
        var a := FindOne(policies, v.policy).value;
      }
    }
  }

  /** Deleting the chain of a stored root keeps the repositories' invariant
      and removes exactly the rows of that chain. */
  lemma DeletedStoreValid(policies: seq<PdpPolicy>, violations: seq<Violation>, nextId: nat, root: PdpPolicy)
    requires StoreValid(policies, violations, nextId) && root in policies && root.parent.None?
    ensures StoreValid(DeleteChain(policies, root.id), DeleteViolations(violations, ChainIds(root)), nextId)
    ensures forall a :: a in DeleteChain(policies, root.id) <==> a in policies && a.id !in ChainIds(root)
  {
    DeleteWellFormed(policies, root, violations);
  }

  /** The repository effect and answer of one decide call, given the engine
      that evaluates it: an unreadable request or a failed violation step
      changes nothing; otherwise the response is returned and at most the
      one violation ReportPolicyViolation yields is appended. */
  ghost predicate Decided(svc: Services, engine: Engine, payload: string, isPlayground: bool, rows: seq<PdpPolicy>,
                          before: seq<Violation>, after: seq<Violation>, r: Result<string>)
  {
    match svc.evaluate(engine, payload)
    case None => r == Err(UnreadableRequest) && after == before
    case Some(evaluation) =>
      match ReportPolicyViolation(evaluation.results, evaluation.response, payload, isPlayground, rows, svc.collect)
      case Err(f) => r == Err(f) && after == before
      case Ok(report) =>
        && r == Ok(evaluation.response)
        && after == before + (if report.violation.Some? then [report.violation.value] else [])
  }

  /** A decide call keeps the violations recorded so far, appends at most
      one, marked with the mode it was made in, and appends none when it
      fails. */
  lemma DecidedAppendsAtMostOne(svc: Services, engine: Engine, payload: string, isPlayground: bool, rows: seq<PdpPolicy>,
                                before: seq<Violation>, after: seq<Violation>, r: Result<string>)
    requires Decided(svc, engine, payload, isPlayground, rows, before, after, r)
    ensures |before| <= |after| <= |before| + 1 && after[..|before|] == before
    ensures r.Err? ==> after == before
    ensures |after| == |before| + 1 ==>
              && after[|before|].isPlayground == isPlayground && after[|before|].payload == payload
              && exists a :: a in rows && a.id == after[|before|].policy && a.latestRevision
  {
  }

  /** The repositories' invariant: well-formed chains, ids below the next
      free id, and every violation pointing at a stored row. */
  ghost predicate StoreValid(policies: seq<PdpPolicy>, violations: seq<Violation>, nextId: nat) {
    && WellFormed(policies)
    && (forall a :: a in policies ==> a.id < nextId)
    && (forall v :: v in violations ==> FindOne(policies, v.policy).Some?)
  }

  class PdpController {
    const svc: Services
    const cachePolicies: bool
    const playgroundPdpEngine: Engine
    var pdpEngine: Engine
    // how many engines PDPEngineHolder.newPdpEngine has built
    var enginesBuilt: nat
    // PdpPolicyRepository, in repository order
    var policies: seq<PdpPolicy>
    // PdpPolicyViolationRepository
    var violations: seq<Violation>
    // the id the repository gives the next saved row
    var nextId: nat
    // the conflict maps MailBox.sendConflictsMail was called with
    var conflictMails: seq<ConflictMap>

    ghost predicate Valid()
      reads this
    {
      && StoreValid(policies, violations, nextId)
      && playgroundPdpEngine.generation < enginesBuilt
      && pdpEngine.generation < enginesBuilt
    }

    /** The playground engine is built first, without caching; then the
        production engine with the configured caching. */
    constructor(svc: Services, cachePolicies: bool, policies: seq<PdpPolicy>, violations: seq<Violation>, nextId: nat)
      requires WellFormed(policies) && forall a :: a in policies ==> a.id < nextId
      requires forall v :: v in violations ==> FindOne(policies, v.policy).Some?
      ensures Valid()
      ensures this.svc == svc && this.cachePolicies == cachePolicies
      ensures playgroundPdpEngine == Engine(0, false, true) && pdpEngine == Engine(1, cachePolicies, false)
      ensures enginesBuilt == 2
      ensures this.policies == policies && this.violations == violations && this.nextId == nextId
      ensures conflictMails == []
    {
      this.svc := svc;
      this.cachePolicies := cachePolicies;
      this.playgroundPdpEngine := Engine(0, false, true);
      this.pdpEngine := Engine(1, cachePolicies, false);
      this.enginesBuilt := 2;
      this.policies := policies;
      this.violations := violations;
      this.nextId := nextId;
      this.conflictMails := [];
    }

    /** refreshPolicies: a newly built production engine replaces the current one. */
    method RefreshPolicies()
      requires Valid()
      modifies this`pdpEngine, this`enginesBuilt
      ensures Valid()
      ensures pdpEngine == Engine(old(enginesBuilt), cachePolicies, false)
      ensures pdpEngine != old(pdpEngine) && pdpEngine != playgroundPdpEngine
      ensures enginesBuilt == old(enginesBuilt) + 1
    {
      pdpEngine := Engine(enginesBuilt, cachePolicies, false);
      enginesBuilt := enginesBuilt + 1;
    }

    /** doDecide: evaluate with the playground or the production engine and
        record a violation when reportPolicyViolation finds one. */
    method DoDecide(payload: string, isPlayground: bool) returns (r: Result<string>)
      requires Valid()
      modifies this`violations
      ensures Valid()
      ensures Decided(svc, if isPlayground then playgroundPdpEngine else pdpEngine, payload, isPlayground,
                      policies, old(violations), violations, r)
    {
      var engine := if isPlayground then playgroundPdpEngine else pdpEngine;
      var answer := svc.evaluate(engine, payload);
      if answer.None? {
        return Err(UnreadableRequest);
      }
      var evaluation := answer.value;
      var report := ReportPolicyViolation(evaluation.results, evaluation.response, payload, isPlayground,
                                          policies, svc.collect);
      if report.Err? {
        return Err(report.failure);
      }
      if report.value.violation.Some? {
        SaveViolation(report.value.violation.value);
      }
      r := Ok(evaluation.response);
    }

    /** pdpPolicyViolationRepository.save: a violation against a stored row is appended. */
    method SaveViolation(v: Violation)
      requires Valid() && exists a :: a in policies && a.id == v.policy
      modifies this`violations
      ensures Valid() && violations == old(violations) + [v]
    {
      violations := violations + [v];
      assert FindOne(policies, v.policy).Some?;
    }

    /** decide: the production engine, not in playground mode. */
    method Decide(payload: string) returns (r: Result<string>)
      requires Valid()
      modifies this`violations
      ensures Valid()
      ensures Decided(svc, pdpEngine, payload, false, policies, old(violations), violations, r)
    {
      r := DoDecide(payload, false);
    }

    /** decideInternal: first a fresh production engine, then the
        playground engine, in playground mode. */
    method DecideInternal(payload: string) returns (r: Result<string>)
      requires Valid()
      modifies this`pdpEngine, this`enginesBuilt, this`violations
      ensures Valid()
      ensures pdpEngine == Engine(old(enginesBuilt), cachePolicies, false) && enginesBuilt == old(enginesBuilt) + 1
      ensures Decided(svc, playgroundPdpEngine, payload, true, policies, old(violations), violations, r)
    {
      RefreshPolicies();
      r := DoDecide(payload, true);
    }

    /** createPdpPolicy: write the policy, let the repository save it and,
        once saved, check for conflicts. A refused save changes nothing. */
    method CreatePdpPolicy(pd: PolicyDefinition, author: Author, outcome: SaveOutcome) returns (r: Result<PdpPolicy>)
      requires Valid()
      modifies this`policies, this`nextId, this`conflictMails
      ensures Valid()
      ensures var w := WritePolicy(svc, old(policies), old(nextId), pd, author);
        && (w.Err? ==> r == Err(w.failure))
        && (w.Ok? && outcome == DuplicateName ==> r == Err(NameTaken))
        && (w.Ok? && outcome == OtherIntegrityViolation ==> r == Err(IntegrityViolation))
        && (w.Ok? && outcome == Saved ==> r == Ok(w.value.saved) && policies == w.value.rows && nextId == old(nextId) + 1)
      ensures r.Err? ==> policies == old(policies) && nextId == old(nextId) && conflictMails == old(conflictMails)
      // the conflict mail: sent once, with the recomputed map, exactly when due
      ensures r.Ok? ==>
        conflictMails == old(conflictMails) +
          (if ConflictMailDue(svc, pd, Conflicts(svc, policies)) then [Conflicts(svc, policies)] else [])
    {
      var written := WritePolicy(svc, policies, nextId, pd, author);
      if written.Err? {
        assert Valid();
        return Err(written.failure);
      }
      match outcome {
        case DuplicateName => assert Valid(); return Err(NameTaken);
        case OtherIntegrityViolation => assert Valid(); return Err(IntegrityViolation);
        case Saved =>
      }
      WrittenStoreValid(svc, policies, violations, nextId, pd, author);
      Save(written.value.rows);
      CheckConflicts(pd);
      r := Ok(written.value.saved);
    }

    /** pdpPolicyRepository.save: the rows the write produced are stored and
        the repository's id sequence moves on. */
    method Save(rows: seq<PdpPolicy>)
      requires Valid() && StoreValid(rows, violations, nextId + 1)
      modifies this`policies, this`nextId
      ensures Valid() && policies == rows && nextId == old(nextId) + 1
    {
      policies := rows;
      nextId := nextId + 1;
    }

    /** checkConflicts: recompute the conflicts and mail them when the
        definition's service provider is one of the keys. */
    method CheckConflicts(pd: PolicyDefinition)
      modifies this`conflictMails
      ensures conflictMails == old(conflictMails) +
        (if ConflictMailDue(svc, pd, Conflicts(svc, policies)) then [Conflicts(svc, policies)] else [])
    {
      var conflicts := Conflicts(svc, policies);
      var entityMetaData := svc.serviceProvider(pd.serviceProviderId);
      if entityMetaData.Some? && entityMetaData.value.nameEn in conflicts {
        conflictMails := conflictMails + [conflicts];
      }
    }

    /** deletePdpPolicy: after the WRITE check on the requested row, its
        root goes, and with it every revision and every violation recorded
        against them. */
    method DeletePdpPolicy(id: nat) returns (r: Result<PdpPolicy>)
      requires Valid()
      modifies this`policies, this`violations
      ensures Valid()
      ensures var found := FindPolicyById(svc, old(policies), id, Write);
        && (found.Err? ==> r == Err(found.failure) && policies == old(policies) && violations == old(violations))
        && (found.Ok? ==>
              var root := RootOf(old(policies), found.value);
              && r == Ok(root)
              && policies == DeleteChain(old(policies), root.id)
              && violations == DeleteViolations(old(violations), ChainIds(root)))
      ensures r.Ok? ==> forall a :: a in policies <==> a in old(policies) && a.id !in ChainIds(r.value)
    {
      var found := FindPolicyById(svc, policies, id, Write);
      if found.Err? {
        assert Valid();
        return Err(found.failure);
      }
      var policy := RootOf(policies, found.value);
      DeletedStoreValid(policies, violations, nextId, policy);
      Delete(DeleteChain(policies, policy.id), DeleteViolations(violations, ChainIds(policy)));
      r := Ok(policy);
    }

    /** pdpPolicyRepository.delete with its cascade: the rows and the
        violations that remain are stored. */
    method Delete(rows: seq<PdpPolicy>, kept: seq<Violation>)
      requires Valid() && StoreValid(rows, kept, nextId)
      modifies this`policies, this`violations
      ensures Valid() && policies == rows && violations == kept
    {
      policies := rows;
      violations := kept;
    }

    /** policyDefinitions: the definitions of rows with a known service
        provider; the two forEach loops then set the violation and the
        revision count of each, 0 where the count query has no entry. */
    method PolicyDefinitions() returns (r: seq<PolicyDefinition>)
      ensures r == Listings.PolicyDefinitions(svc, policies, violations)
    {
      var policies := ValidDefinitions(svc, this.policies);
      ghost var listed := policies;
      var countPerPolicyIdMap := ViolationCountPerPolicyId(violations);
      var i := 0;
      while i < |policies|
        invariant 0 <= i <= |policies| == |listed|
        invariant forall k :: 0 <= k < i ==>
                    policies[k] == listed[k].(numberOfViolations := CountOrZero(countPerPolicyIdMap, listed[k].id))
        invariant forall k :: i <= k < |policies| ==> policies[k] == listed[k]
      {
        policies := policies[i := policies[i].(numberOfViolations := CountOrZero(countPerPolicyIdMap, policies[i].id))];
        i := i + 1;
      }
      var revisionCountPerIdMap := RevisionCountPerId(this.policies);
      i := 0;
      while i < |policies|
        invariant 0 <= i <= |policies| == |listed|
        invariant forall k :: 0 <= k < i ==>
                    policies[k] == WithCounts(countPerPolicyIdMap, revisionCountPerIdMap)(listed[k])
        invariant forall k :: i <= k < |policies| ==>
                    policies[k] == listed[k].(numberOfViolations := CountOrZero(countPerPolicyIdMap, listed[k].id))
      {
        policies := policies[i := policies[i].(numberOfRevisions := CountOrZero(revisionCountPerIdMap, policies[i].id))];
        i := i + 1;
      }
      assert policies == MapSeq(listed, WithCounts(countPerPolicyIdMap, revisionCountPerIdMap));
      r := svc.filterPolicies(policies);
    }
  }
}
