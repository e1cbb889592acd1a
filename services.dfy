/** The controller's collaborators whose code is not part of this model:
    the policy definition parser, the access enforcer, the service
    registry, the conflict service, the template engine, the XACML engines
    with their JSON request and response handling, and the identifier
    collector. Each is a function value; the controller receives them all
    at construction, as the Java controller receives or creates them. */
module Services {
  import opened Domain
  import opened Decisions

  /** A PDPEngine instance. `generation` tells engines made by successive
      PDPEngineHolder.newPdpEngine calls apart; the two flags are the
      arguments of that call. */
  datatype Engine = Engine(generation: nat, cachePolicies: bool, playground: bool)

  /** The part of a service registry entry the controller reads. */
  datatype ServiceProvider = ServiceProvider(nameEn: string, policyEnforcementDecisionRequired: bool)

  /** An evaluated request: the engine's results and their JSON rendering. */
  datatype Evaluation = Evaluation(results: seq<EngineResult>, response: string)

  /** How the database answers a save: stored, refused by the unique
      name/revision constraint, or refused by another integrity constraint. */
  datatype SaveOutcome = Saved | DuplicateName | OtherIntegrityViolation

  type ConflictMap = map<string, seq<PolicyDefinition>>

  datatype Services = Services(
    // PdpPolicyDefinitionParser.parse
    parse: PdpPolicy -> PolicyDefinition,
    // PolicyIdpAccessEnforcer.actionAllowed: false means it throws
    actionAllowed: (PdpPolicy, Access, string, seq<string>) -> bool,
    // PolicyIdpAccessEnforcer.actionAllowedIndicator
    actionAllowedIndicator: (PdpPolicy, Access, string, seq<string>) -> bool,
    // PolicyIdpAccessEnforcer.filterPdpPolicies
    filterPolicies: seq<PolicyDefinition> -> seq<PolicyDefinition>,
    // ServiceRegistry.serviceProviderOptionalByEntityId
    serviceProvider: string -> Option<ServiceProvider>,
    // ServiceRegistry.identityProviderByEntityId(...).getNameEn()
    identityProviderName: string -> string,
    // ServiceRegistry.identityProviderNames
    identityProviderNames: seq<string> -> seq<string>,
    // PolicyConflictService.conflicts
    conflictsOf: seq<PolicyDefinition> -> ConflictMap,
    // PolicyTemplateEngine.createPolicyXml
    createPolicyXml: PolicyDefinition -> string,
    // PdpPolicyDefinitionParser.parsePolicy: false means DOMStructureException
    policyXmlParses: string -> bool,
    // the policy id a stored row takes from its XACML body
    policyIdOf: string -> string,
    // StreamUtils.singletonOptionalCollector over identifier strings
    collect: seq<string> -> Resolution,
    // JSONRequest.load, the engine's decide and JSONResponse.toString;
    // None when the payload cannot be loaded as a request
    evaluate: (Engine, string) -> Option<Evaluation>)
}
