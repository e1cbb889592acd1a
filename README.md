# OpenConext PDP: policy governance around the XACML engine

OpenConext PDP is a policy decision point. Institutions store XACML access
policies ("may identity provider X use service provider Y"). The server
answers authorization requests against the stored policies. This project
models the governance logic of the server's REST controller
(`pdp.web.PdpController`), the revision semantics of a stored policy
(`pdp.domain.PdpPolicyTest`), and the factory that loads the stored
policies into the engine (`pdp.xacml.OpenConextEvaluationContextFactory`).

The model is organised as follows:

- `Domain` holds the entities: policy rows, violations, policy definitions, and the controller's failures as a `Result`.
- `Revisions` covers the revision chain of a policy: a root row and its revisions. It gives:
  - the invariant every chain keeps (`WellFormed`): exactly one latest revision, and revision numbers `0..n` with no gaps;
  - the effect of a revision on the stored rows;
  - the delete cascade.
- `PolicyObjects` is the in-memory `PdpPolicy` object that `PdpPolicy.revision` changes in place.
- `Decisions` covers `reportPolicyViolation` and `getPolicyId` as functions of the engine's results.
- `Services` gathers the collaborators whose code is not part of this model. Each is a function value:
  - the definition parser
  - the access enforcer
  - the service registry
  - the conflict service
  - the template engine
  - the JSON/XACML evaluation
  - the singleton collector
- `Listings` covers `conflicts()`, the definitions behind `policyDefinitions()`, the count maps, and the conflict-mail rule.
- `Web` has the class `PdpController`. Its fields are:
  - the policy repository (a sequence of rows in repository order)
  - the violation repository
  - the id the next saved row gets
  - the production engine, which is swapped on refresh
  - the fixed playground engine
  - the conflict mails sent

  Every method keeps the store invariant `Valid()` and states its new state.
- `Xacml` has the class `OpenConextEvaluationContextFactory`. It covers the caching switch, loading every stored body into one policy definition, and the syntax-error fallback.

In four places the code does something other than what one might expect of it; the model follows the code:

- Deleting a policy asks the access enforcer for WRITE access, not for a separate delete capability (`PdpController.java:231`).
- Loading the engine's policies converts every stored row, not only the active latest revisions (`OpenConextEvaluationContextFactory.java:52-53`).
- A flagged result that names more than one identifier is handed to the singleton collector. The model leaves its answer open; it may be a refusal (`Failure.AmbiguousIdentifier`). Nothing says the first identifier is taken.
- A failure while reporting a violation propagates out of `decide`. It is not swallowed.

## Model

| member | source | states |
|---|---|---|
| Domain.FindOne | pdp-server/src/main/java/pdp/web/PdpController.java:293 | the repository lookup yields a stored row with the id, and nothing exactly when no row has it |
| Decisions.DeniesOrIndeterminates | pdp-server/src/main/java/pdp/web/PdpController.java:343-344 | keeps exactly the DENY and INDETERMINATE results; empty iff none is flagged; its head is the first flagged result |
| Decisions.GetPolicyId | pdp-server/src/main/java/pdp/web/PdpController.java:358-365 | with a collector that maps [] to empty and [x] to x: a single policy identifier is used; a single policy-set identifier is used only when there are no policy identifiers; neither gives no identifier |
| Decisions.GetPolicyIdPrecedence | pdp-server/src/main/java/pdp/web/PdpController.java:358-365 | only the first flagged result matters; its policy-set identifiers are ignored when it has policy identifiers and decide alone when it has none |
| Decisions.ViolatedPolicyId | pdp-server/src/main/java/pdp/web/PdpController.java:343-346 | no identifier is looked up when no result is DENY or INDETERMINATE |
| Decisions.FindLatestByPolicyId | pdp-server/src/main/java/pdp/web/PdpController.java:349 | finds a stored latest revision with the policy id, and nothing exactly when there is none |
| Decisions.ReportPolicyViolation | pdp-server/src/main/java/pdp/web/PdpController.java:340-356 | fails with no-result iff the engine returned no results, with an ambiguity failure iff the collector refused; otherwise reports the first result's decision; a violation is recorded iff a result is flagged, its identifier resolves and a latest revision carries it; the violation carries payload, response and mode and points at that latest revision |
| Decisions.ResolutionUsesFirstFlagged | pdp-server/src/main/java/pdp/web/PdpController.java:343-365 | the identifier comes from the first flagged result alone: results after it never change it |
| Decisions.SinglePolicyRecorded | pdp-server/src/main/java/pdp/web/PdpController.java:340-356 | a DENY/INDETERMINATE first result naming one policy that has a latest revision records a violation in the call's mode and reports its decision |
| Decisions.NothingFlaggedNothingRecorded | pdp-server/src/main/java/pdp/web/PdpController.java:343-355 | when no result is DENY or plain INDETERMINATE (so PERMIT, NOT_APPLICABLE and the extended Indeterminate{P}/{D}/{DP} values, which the equality test misses), nothing is recorded and the first decision is reported as it is |
| Revisions.Revision | pdp-server/src/test/java/pdp/domain/PdpPolicyTest.java:11-23 | the stored rows after a revision of a root: one row more; the root is no longer latest and lists the new id among its revisions; the new row is the latest revision of the root numbered one past its predecessors; rows of other chains stay |
| Revisions.RevisionKeepsEarlier | pdp-server/src/test/java/pdp/domain/PdpPolicyTest.java:14-19 | revising appends one row: every stored row keeps its place and id, rows of other chains are unchanged, and the root's earlier revisions only lose the latest flag, keeping number, body and links |
| Revisions.RevisionAsTested | pdp-server/src/test/java/pdp/domain/PdpPolicyTest.java:14-22 | for every well-formed store: the parent loses its latest flag, gains exactly the new revision, keeps number 0; the revision is latest and numbered after the parent's revisions (1 for a first revision) |
| Revisions.ExactlyOneLatest | pdp-server/src/test/java/pdp/domain/PdpPolicyTest.java:16-22 | in a well-formed store every chain has exactly one latest revision and its numbers cover 1..n with none beyond n |
| Revisions.NewRootWellFormed | pdp-server/src/main/java/pdp/web/PdpController.java:195-196 | adding a fresh root keeps the store well formed |
| Revisions.RevisionWellFormed | pdp-server/src/main/java/pdp/web/PdpController.java:188-193 | a revision of a root keeps every chain of the store well formed |
| Revisions.RootOf | pdp-server/src/main/java/pdp/web/PdpController.java:190 | the root of a stored row is a stored root: the row itself when it has no parent, else its parent; the row belongs to that root's chain |
| Revisions.RevisionChainIsRootAndRevisions | pdp-server/src/main/java/pdp/web/PdpController.java:267-270 | the listed chain holds the root and a row for each of its revisions and nothing else; chain and the rows a delete keeps make up the store |
| Revisions.DeleteViolations | pdp-server/src/main/java/pdp/web/PdpController.java:235 | the violations kept are exactly those not recorded against a deleted row |
| Revisions.DeleteWellFormed | pdp-server/src/main/java/pdp/web/PdpController.java:234-235 | deleting a root removes exactly its chain, the store stays well formed and every kept violation still points at a stored row |
| PolicyObjects.PdpPolicyObject.constructor | pdp-server/src/test/java/pdp/domain/PdpPolicyTest.java:12 | a new policy has no revisions, number 0 and no parent |
| PolicyObjects.PdpPolicyObject.Revision | pdp-server/src/test/java/pdp/domain/PdpPolicyTest.java:14 | a new object that is the latest revision with number one past the parent's revisions; the parent and its earlier revisions lose the latest flag; the parent gains the revision and keeps its number, name, body, author and active flag; the earlier revisions keep their numbers, links, names, bodies, authors and active flags |
| PolicyObjects.TestRevision | pdp-server/src/test/java/pdp/domain/PdpPolicyTest.java:11-23 | after revising a new policy: parent not latest, exactly one revision which is the new one, parent number 0, revision latest with number 1 |
| Listings.AddAccessRules | pdp-server/src/main/java/pdp/web/PdpController.java:303-308 | actions allowed is the enforcer's WRITE indicator for the row and the definition's providers; the authenticating authority name is the registry's name for the row author's institution; nothing else changes |
| Listings.AddEntityMetaData | pdp-server/src/main/java/pdp/web/PdpController.java:310-319 | invalid flag iff the registry does not know the provider; provider name and enforcement flag from the registry when it does; identity provider names from the registry; nothing else changes |
| Listings.Conflicts | pdp-server/src/main/java/pdp/web/PdpController.java:168-179 | the conflict service's map when every provider is known; otherwise "Invalid" holds exactly the definitions of the rows with an unknown provider, in order; every other key is the conflict service's |
| Listings.ValidDefinitions | pdp-server/src/main/java/pdp/web/PdpController.java:150-154 | exactly the described rows whose service provider the registry knows, in repository order |
| Listings.ListingsPartitionRows | pdp-server/src/main/java/pdp/web/PdpController.java:150-177 | every row is either listed by policyDefinitions or filed under "Invalid" by conflicts, never both, and the two counts add up to the store |
| Listings.ViolationCountPerPolicyId | pdp-server/src/main/java/pdp/web/PdpController.java:157-158 | each row with violations maps to its number of violations, which is positive |
| Listings.RevisionCountPerId | pdp-server/src/main/java/pdp/web/PdpController.java:161-162 | each root with revisions maps to its number of revisions, which is positive |
| Listings.CountsDefaultToZero | pdp-server/src/main/java/pdp/web/PdpController.java:159-163 | the count written into a definition is the true count, 0 for a row without violations or revisions |
| Web.FindPolicyById | pdp-server/src/main/java/pdp/web/PdpController.java:292-301 | not-found iff no row has the id; a row is returned only after the access check on its own definition passes, and access is denied iff that check fails |
| Web.RevisionRows | pdp-server/src/main/java/pdp/web/PdpController.java:264-270 | fails as the READ lookup fails; otherwise lists the requested row, its root, and exactly the rows of the root's chain |
| Web.RevisionsByPolicyId | pdp-server/src/main/java/pdp/web/PdpController.java:264-274 | the failure of the lookup, or one description with access rules and metadata per listed row |
| Web.WritePolicy | pdp-server/src/main/java/pdp/web/PdpController.java:183-200 | a successful write adds exactly one row; its guards, the new row and where it is filed are stated by Web.WritePolicyContract |
| Web.WritePolicyContract | pdp-server/src/main/java/pdp/web/PdpController.java:182-200 | invalid XML fails first; a revision fails exactly as the WRITE lookup of the named row fails, is filed under that row's root and numbered after its revisions; a new policy fails iff its WRITE check against the definition's providers fails and is a fresh root appended to the store |
| Web.RevisionKeepsStore | pdp-server/src/main/java/pdp/web/PdpController.java:188-193 | a revision keeps the store well formed, loses no row id and keeps ids below the next free id |
| Web.WritePolicyKeepsStore | pdp-server/src/main/java/pdp/web/PdpController.java:187-203 | a successful write keeps the store well formed, loses no row id and keeps ids below the next free id |
| Web.NewRootKeepsStore | pdp-server/src/main/java/pdp/web/PdpController.java:195-203 | storing a fresh root keeps the store well formed, loses no row id and keeps ids below the next free id |
| Web.WrittenStoreValid | pdp-server/src/main/java/pdp/web/PdpController.java:187-203 | a successful write keeps the repositories' invariant, violations included |
| Web.DeletedStoreValid | pdp-server/src/main/java/pdp/web/PdpController.java:234-235 | deleting the chain of a stored root keeps the repositories' invariant and removes exactly the rows of that chain |
| Web.DecidedAppendsAtMostOne | pdp-server/src/main/java/pdp/web/PdpController.java:343-353 | a decide call keeps earlier violations, appends at most one, in the call's mode, against a stored latest revision, and none when it fails |
| Web.PdpController.constructor | pdp-server/src/main/java/pdp/web/PdpController.java:87-108 | the playground engine is built first without caching, then the production engine with the configured caching |
| Web.PdpController.RefreshPolicies | pdp-server/src/main/java/pdp/web/PdpController.java:367-372 | a newly built production engine with the configured caching replaces the current one |
| Web.PdpController.DoDecide | pdp-server/src/main/java/pdp/web/PdpController.java:121-141 | evaluates with the playground engine in playground mode, else the production engine; returns the response and appends the reported violation, if any |
| Web.PdpController.SaveViolation | pdp-server/src/main/java/pdp/web/PdpController.java:351 | the violation is appended to the repository |
| Web.PdpController.Decide | pdp-server/src/main/java/pdp/web/PdpController.java:110-113 | production engine, not in playground mode |
| Web.PdpController.DecideInternal | pdp-server/src/main/java/pdp/web/PdpController.java:115-119 | first a new production engine, then the playground engine in playground mode |
| Web.PdpController.CreatePdpPolicy | pdp-server/src/main/java/pdp/web/PdpController.java:181-214 | a failed guard or a refused save changes nothing; a duplicate name becomes the name failure; a save stores the written rows and returns the saved root; after a save conflict mail goes out exactly when due |
| Web.PdpController.Save | pdp-server/src/main/java/pdp/web/PdpController.java:203 | the written rows are stored and the id sequence moves on |
| Web.PdpController.CheckConflicts | pdp-server/src/main/java/pdp/web/PdpController.java:216-222 | mails the recomputed conflict map exactly when the definition's provider is known and its English name is a key |
| Web.PdpController.DeletePdpPolicy | pdp-server/src/main/java/pdp/web/PdpController.java:229-236 | fails as the WRITE lookup fails, changing nothing; otherwise removes exactly the chain of the row's root and the violations against it |
| Web.PdpController.Delete | pdp-server/src/main/java/pdp/web/PdpController.java:235 | the rows and violations left by the cascade are stored, keeping the invariant |
| Web.PdpController.PolicyDefinitions | pdp-server/src/main/java/pdp/web/PdpController.java:149-166 | the definitions of rows with a known provider, each with its violation and revision count (0 when absent), as the access enforcer filters them |
| Xacml.RemoveFirstNewline | src/main/java/pdp/xacml/OpenConextEvaluationContextFactory.java:61 | the body without its first newline character and otherwise unchanged; unchanged when it has none |
| Xacml.RemoveFirstNewlineCounts | src/main/java/pdp/xacml/OpenConextEvaluationContextFactory.java:61 | exactly one newline is lost, if there is one; every other character keeps its count |
| Xacml.ConvertToPolicyDef | src/main/java/pdp/xacml/OpenConextEvaluationContextFactory.java:59-66 | the loaded definition when the loader accepts the body; otherwise a policy with the syntax-error status and the loader's message |
| Xacml.LoadPolicyFinder | src/main/java/pdp/xacml/OpenConextEvaluationContextFactory.java:51-56 | one converted definition per stored row, at the row's position |
| Xacml.LoadFailureIsolated | src/main/java/pdp/xacml/OpenConextEvaluationContextFactory.java:51-66 | a body that fails to load yields only its own error policy; every other loadable row keeps its definition |
| Xacml.LoadIgnoresFlags | src/main/java/pdp/xacml/OpenConextEvaluationContextFactory.java:52-53 | rows that agree on their bodies give the same finder, whatever their active or latest flags |
| Xacml.CachePoliciesSetting | src/main/java/pdp/xacml/OpenConextEvaluationContextFactory.java:34 | caching is on when the property is absent; a given value switches it on exactly when it lower-cases to "true" |
| Xacml.CachePoliciesSpellings | src/main/java/pdp/xacml/OpenConextEvaluationContextFactory.java:34 | mixed-case spellings such as "tRuE" switch caching on; other four-character values such as "abcd" switch it off |
| Xacml.OpenConextEvaluationContextFactory.constructor | src/main/java/pdp/xacml/OpenConextEvaluationContextFactory.java:33-35 | the caching switch is read from the property; no repository and no finder yet |
| Xacml.OpenConextEvaluationContextFactory.SetPdpPolicyRepository | src/main/java/pdp/xacml/OpenConextEvaluationContextFactory.java:37-40 | the repository is remembered and a finder loaded from its current rows is installed |
| Xacml.OpenConextEvaluationContextFactory.GetPolicyFinder | src/main/java/pdp/xacml/OpenConextEvaluationContextFactory.java:42-49 | with caching the installed finder (the inherited one if none); without caching a fresh load of the current rows, or the missing-repository failure |

## Left out

- Concurrency. The scheduled refresh task (`PdpController.java:105-107`) and the `volatile` engine swap are not modelled. `refreshPolicies` is a plain field update.
- The XACML evaluation, `JSONRequest.load` and `JSONResponse.toString`. They are one uninterpreted function from engine and payload to results and response. A payload that cannot be read gives `UnreadableRequest`. Evaluation does not depend on the stored rows. The playground engine is built without caching (`PdpController.java:96`), so the real factory reloads the rows on every call (`OpenConextEvaluationContextFactory.java:44-48`). That reload is modelled by `GetPolicyFinder`, but it is not connected to evaluation.
- `DOMPolicyDef.load` is an uninterpreted function. The platform charset used by `getBytes` is not modelled.
- Engines are values that tell successive builds apart. What an engine's policies are is not modelled.
- Stats and timing are not modelled: `addStatsDetails`, `getAttributeValue`, the clock readings and logging. The singleton collector inside `addStatsDetails` can throw. That failure is folded into `UnreadableRequest`.
- The collaborators whose code is not part of this model are uninterpreted. Their algorithms are not invented:
  - `PolicyConflictService`
  - `PolicyIdpAccessEnforcer`
  - `ServiceRegistry`
  - `PdpPolicyDefinitionParser`
  - `PolicyTemplateEngine`
  - `StreamUtils.singletonOptionalCollector`: only its answers for zero and one element are assumed
- `PdpPolicy.java` and the JPA mapping are not part of this model. These follow from the data model and from `PdpPolicyTest` rather than from that code:
  - the policy id of a row, a function of its body;
  - the cascade that saves a root with its revisions;
  - the cascade that deletes a root's revisions and their violations;
  - the repository queries `findCountPerPolicyId` and `findRevisionCountPerId`, modelled as counts over the store (`Listings.ViolationCountPerPolicyId`, `Listings.RevisionCountPerId`).
- Revisions.Revision: models `PdpPolicy.revision` followed by the cascading save as a function on the stored rows. The in-place update of the Java objects is modelled separately in `PolicyObjects`. The two are not formally linked.
- `revisionsByPolicyId` adds the parent to its own in-memory revisions set (`PdpController.java:270`). That side effect is not modelled. The listing is in repository order rather than hash-set order.
- Decisions.GetPolicyId: states the identifier only for a collector that maps no element to nothing and one element to itself. What the collector does with several identifiers is left open.
- Web.PdpController.CreatePdpPolicy: whether the database accepts the save is an input (`SaveOutcome`). The unique-name constraint and the inspection of the exception message (`PdpController.java:207-212`) are not modelled. The author of a write is a parameter; the security context that supplies it is not modelled.
- The duplicate-name failure drops the policy name from its message.
- Web.PdpController.PolicyDefinitions: a definition without an id gets count 0. The Java code would throw a null-pointer exception at line 163. The `intValue` conversion is not modelled. The model assumes that `getOrDefault` on the revision-count map finds the key. Whether it does depends on the key type `findRevisionCountPerId` returns, and that type is not part of this model.
- Xacml.CachePoliciesSetting: compares case-insensitively over ASCII letters only. Non-ASCII case mappings of `String.equalsIgnoreCase` are not modelled.
- Xacml.OpenConextEvaluationContextFactory.GetPolicyFinder: the repository's contents are a parameter of each call, not a stored reference. A reload without a repository is the `MissingRepository` outcome rather than a null-pointer exception.
- `setVootClient` and `loadPIPFinder` (`OpenConextEvaluationContextFactory.java:68-80`) configure attribute lookup. They are not modelled.
- The following controller endpoints only read and format data. They are not part of this model:
  - `policyDefinition(id)`
  - `policyDefinitionsByServiceProvider`
  - `violations()`
  - `violationsByPolicyId`
  - `defaultPolicy()`
  - `options()`
  - `allowedAttributes`, `allowedSamlAttributes`
  - `user()`
- Also not part of this model, because they depend on unseen collaborators, the network, mail transport or the clock:
  - the round trip of `PdpPolicyDefintionTest.java`
  - `SabClient.java`
  - `DefaultMailBox.java` (a sent mail is recorded as the conflict map it carries)
  - `UrlResourceServiceRegistry.java`
