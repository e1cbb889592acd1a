/** pdp.xacml.OpenConextEvaluationContextFactory: how the engine's policy
    finder is built from the stored policy rows, with a fallback policy for
    a body that does not parse, and whether it is built once or on every
    request. The XACML DOM loader is an uninterpreted function. */
module Xacml {
  import opened Domain

  /** StdStatusCode.STATUS_CODE_SYNTAX_ERROR, the status URN of section
      B.8 of the eXtensible Access Control Markup Language (XACML)
      Version 3.0 standard. */
  const SyntaxErrorStatus: string := "urn:oasis:names:tc:xacml:1.0:status:syntax-error"

  /** DOMPolicyDef.load: a policy definition, or a DOMStructureException
      with its message. */
  datatype LoadOutcome<D> = Loaded(def: D) | StructureError(message: string)

  /** A PolicyDef in the finder: a loaded definition, or a Policy carrying
      only a status code and a message. */
  datatype PolicyDef<D> = Compiled(def: D) | ErrorPolicy(statusCode: string, message: string)

  /** The position of the first newline character, |s| when there is none. */
  function FirstNewline(s: string): (k: nat)
    ensures k <= |s|
    ensures k < |s| ==> s[k] == '\n'
    ensures forall j :: 0 <= j < k ==> s[j] != '\n'
  {
    if s == [] || s[0] == '\n' then 0 else 1 + FirstNewline(s[1..])
  }

  /** `replaceFirst("\n", "")`: the first newline character goes, nothing
      else changes. */
  function RemoveFirstNewline(s: string): (r: string)
    ensures FirstNewline(s) == |s| ==> r == s
    ensures FirstNewline(s) < |s| ==> r == s[..FirstNewline(s)] + s[FirstNewline(s) + 1..]
  {
    if s == [] then []
    else if s[0] == '\n' then s[1..]
    else
      var k := FirstNewline(s[1..]);
      if k < |s[1..]| then
        Spliced(s, k + 1);
        [s[0]] + RemoveFirstNewline(s[1..])
      else
        [s[0]] + RemoveFirstNewline(s[1..])
  }

  /** Cutting position k out of a sequence commutes with putting a first
      element in front of it. */
  lemma Spliced(s: string, k: nat)
    requires 1 <= k < |s|
    ensures s[..k] + s[k + 1..] == [s[0]] + (s[1..][..k - 1] + s[1..][k..])
  {
    assert s[..k] == [s[0]] + s[1..][..k - 1];
    assert s[k + 1..] == s[1..][k..];
  }

  /** The body loses exactly one newline character, if it has one, and
      keeps every other character as often as it had it. */
  lemma {:induction false} RemoveFirstNewlineCounts(s: string)
    ensures multiset(RemoveFirstNewline(s)) + (if '\n' in s then multiset{'\n'} else multiset{}) == multiset(s)
  {
    if s != [] {
      assert s == [s[0]] + s[1..];
      if s[0] != '\n' {
        RemoveFirstNewlineCounts(s[1..]);
        assert '\n' in s <==> '\n' in s[1..];
        assert RemoveFirstNewline(s) == [s[0]] + RemoveFirstNewline(s[1..]);
      }
    }
  }

  /** convertToPolicyDef: load the body without its first newline; a
      structure error becomes a syntax-error policy carrying the message. */
  function ConvertToPolicyDef<D>(load: string -> LoadOutcome<D>, policyXml: string): (r: PolicyDef<D>)
    ensures r.Compiled? <==> load(RemoveFirstNewline(policyXml)).Loaded?
    ensures r.Compiled? ==> r.def == load(RemoveFirstNewline(policyXml)).def
    ensures r.ErrorPolicy? ==>
              r.statusCode == SyntaxErrorStatus && r.message == load(RemoveFirstNewline(policyXml)).message
  {
    match load(RemoveFirstNewline(policyXml))
    case Loaded(def) => Compiled(def)
    case StructureError(message) => ErrorPolicy(SyntaxErrorStatus, message)
  }

  /** The body of a stored row, as a value to map over the rows. */
  function Converted<D>(load: string -> LoadOutcome<D>): PdpPolicy -> PolicyDef<D> {
    (row: PdpPolicy) => ConvertToPolicyDef(load, row.policyXml)
  }

  /** loadPolicyFinder: the root policies of the finder, one per stored
      row, in repository order, whatever the row's flags. */
  function LoadPolicyFinder<D>(rows: seq<PdpPolicy>, load: string -> LoadOutcome<D>): (r: seq<PolicyDef<D>>)
    ensures |r| == |rows|
    ensures forall i :: 0 <= i < |rows| ==> r[i] == ConvertToPolicyDef(load, rows[i].policyXml)
  {
    MapSeq(rows, Converted(load))
  }

  /** A body that does not load costs only its own policy: every other row
      still yields its loaded definition, at its own position. */
  lemma LoadFailureIsolated<D>(rows: seq<PdpPolicy>, load: string -> LoadOutcome<D>, bad: nat)
    requires bad < |rows| && load(RemoveFirstNewline(rows[bad].policyXml)).StructureError?
    ensures |LoadPolicyFinder(rows, load)| == |rows|
    ensures LoadPolicyFinder(rows, load)[bad] ==
              ErrorPolicy(SyntaxErrorStatus, load(RemoveFirstNewline(rows[bad].policyXml)).message)
    ensures forall i :: 0 <= i < |rows| && i != bad && load(RemoveFirstNewline(rows[i].policyXml)).Loaded? ==>
              LoadPolicyFinder(rows, load)[i] == Compiled(load(RemoveFirstNewline(rows[i].policyXml)).def)
  {
  }

  /** Rows that differ only in their flags give the same finder: loading
      neither skips inactive rows nor earlier revisions. */
  lemma LoadIgnoresFlags<D>(rows: seq<PdpPolicy>, others: seq<PdpPolicy>, load: string -> LoadOutcome<D>)
    requires |rows| == |others|
    requires forall i :: 0 <= i < |rows| ==> rows[i].policyXml == others[i].policyXml
    ensures LoadPolicyFinder(rows, load) == LoadPolicyFinder(others, load)
  {
  }

  /** Character.toLowerCase restricted to the ASCII letters. */
  function ToLowerAscii(c: char): char {
    if 'A' <= c <= 'Z' then (c as int + 32) as char else c
  }

  /** String.equalsIgnoreCase for an all-ASCII-lower-case right-hand side. */
  predicate EqualsIgnoreCase(s: string, lower: string) {
    |s| == |lower| && forall i :: 0 <= i < |s| ==> ToLowerAscii(s[i]) == lower[i]
  }

  /** `Boolean.valueOf(getProperty("openconext.pdp.cachePolicies", "true"))`. */
  function CachePoliciesSetting(property: Option<string>): (r: bool)
    ensures property.None? ==> r
    ensures property.Some? && |property.value| != 4 ==> !r
    ensures property == Some("TRUE") || property == Some("True") || property == Some("true") ==> r
    // a given value switches caching on exactly when it lower-cases to "true"
    ensures property.Some? ==> (r <==> MapSeq(property.value, ToLowerAscii) == "true")
  {
    var value := if property.Some? then property.value else "true";
    assert EqualsIgnoreCase(value, "true") <==> MapSeq(value, ToLowerAscii) == "true" by {
      if MapSeq(value, ToLowerAscii) == "true" {
        assert forall i :: 0 <= i < |value| ==> ToLowerAscii(value[i]) == MapSeq(value, ToLowerAscii)[i];
      }
    }
    EqualsIgnoreCase(value, "true")
  }

  /** Caching is on for every mixed-case spelling of "true" and off for any
      other four-character value. */
  lemma CachePoliciesSpellings()
    ensures CachePoliciesSetting(Some("tRuE")) && CachePoliciesSetting(Some("TrUe"))
    ensures !CachePoliciesSetting(Some("abcd")) && !CachePoliciesSetting(Some("tru3"))
  {
    assert MapSeq("tRuE", ToLowerAscii) == "true";
    assert MapSeq("TrUe", ToLowerAscii) == "true";
    assert MapSeq("abcd", ToLowerAscii)[0] == 'a';
    assert MapSeq("tru3", ToLowerAscii)[3] == '3';
  }

  /** What getPolicyFinder hands the engine: a finder with these root
      policies, the one the base factory holds when none was installed, or
      the null-pointer failure of reloading without a repository. */
  datatype Finder<D> = Finder(policies: seq<PolicyDef<D>>) | Inherited | MissingRepository

  class OpenConextEvaluationContextFactory<D> {
    const cachePolicies: bool
    // DOMPolicyDef.load
    const load: string -> LoadOutcome<D>
    // whether setPdpPolicyRepository has been called
    var repositorySet: bool
    // the finder installed with setPolicyFinder, if any
    var installed: Option<seq<PolicyDef<D>>>

    /** Reads the caching switch from the XACML properties. */
    constructor(property: Option<string>, load: string -> LoadOutcome<D>)
      ensures cachePolicies == CachePoliciesSetting(property) && this.load == load
      ensures !repositorySet && installed.None?
    {
      cachePolicies := CachePoliciesSetting(property);
      this.load := load;
      repositorySet := false;
      installed := None;
    }

    /** setPdpPolicyRepository: remember the repository and install a
        finder loaded from what it holds now. */
    method SetPdpPolicyRepository(rows: seq<PdpPolicy>)
      modifies this
      ensures repositorySet && installed == Some(LoadPolicyFinder(rows, load))
    {
      repositorySet := true;
      installed := Some(LoadPolicyFinder(rows, load));
    }

    /** getPolicyFinder, given what the repository holds at the time of the
        call: with caching the installed finder, without it a fresh load. */
    method GetPolicyFinder(rows: seq<PdpPolicy>) returns (r: Finder<D>)
      ensures cachePolicies && installed.Some? ==> r == Finder(installed.value)
      ensures cachePolicies && installed.None? ==> r == Inherited
      ensures !cachePolicies && repositorySet ==> r == Finder(LoadPolicyFinder(rows, load))
      ensures !cachePolicies && !repositorySet ==> r == MissingRepository
    {
      if cachePolicies {
        r := if installed.Some? then Finder(installed.value) else Inherited;
      } else if repositorySet {
        r := Finder(LoadPolicyFinder(rows, load));
      } else {
        r := MissingRepository;
      }
    }
  }
}
