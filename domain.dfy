/** Entities of the policy store (package pdp.domain) and the small
    sequence vocabulary the rest of the model is written in. */
module Domain {

  datatype Option<+T> = None | Some(value: T)

  /** The exceptions the controller lets escape to its caller. */
  datatype Failure =
    | PolicyNotFound       // PolicyNotFoundException
    | AccessDenied         // raised by the access enforcer
    | InvalidPolicyXml     // DOMStructureException from re-parsing the generated policy
    | NameTaken            // PdpPolicyException on the unique name/revision constraint
    | IntegrityViolation   // any other DataIntegrityViolationException, rethrown
    | UnreadableRequest    // the JSON request could not be loaded
    | NoResult             // the engine answered with an empty result collection
    | AmbiguousIdentifier  // the singleton collector refused an identifier list

  datatype Result<+T> = Ok(value: T) | Err(failure: Failure)

  /** PolicyAccess: what a caller wants to do with a stored policy. */
  datatype Access = Read | Write | ViewViolations

  /** Who wrote a revision, as the access enforcer reports the current user. */
  datatype Author = Author(username: string, authenticatingAuthority: string, displayName: string)

  /** A persisted policy row. `parent` is the id of the root of the revision
      chain (None for the root itself) and `revisions` the ids of the root's
      revisions; the rule body `policyXml` is opaque here. */
  datatype PdpPolicy = PdpPolicy(
    id: nat,
    policyId: string,
    parent: Option<nat>,
    revisions: set<nat>,
    latestRevision: bool,
    revisionNbr: nat,
    policyXml: string,
    name: string,
    author: Author,
    active: bool)

  /** A recorded deny/indeterminate decision, pointing at the policy row by id. */
  datatype Violation = Violation(policy: nat, payload: string, response: string, isPlayground: bool)

  /** The user-facing view of a policy. The rule content itself lives in
      the XML the template engine writes and is not represented. */
  datatype PolicyDefinition = PolicyDefinition(
    id: Option<nat>,
    name: string,
    serviceProviderId: string,
    identityProviderIds: seq<string>,
    active: bool,
    serviceProviderInvalidOrMissing: bool,
    serviceProviderName: string,
    activatedSr: bool,
    identityProviderNames: seq<string>,
    actionsAllowed: bool,
    authenticatingAuthorityName: string,
    numberOfViolations: nat,
    numberOfRevisions: nat)

  /** `stream().filter(p).collect(toList())`: the elements satisfying `p`, in order. */
  function Filter<T(!new)>(s: seq<T>, p: T -> bool): (r: seq<T>)
    ensures |r| <= |s|
    ensures forall x :: x in r <==> x in s && p(x)
  {
    if s == [] then []
    else if p(s[0]) then [s[0]] + Filter(s[1..], p)
    else Filter(s[1..], p)
  }

  /** Filtering keeps order: the first element satisfying `p` heads the result. */
  lemma {:induction false} FilterHead<T(!new)>(s: seq<T>, p: T -> bool, i: nat)
    requires i < |s| && p(s[i]) && forall j :: 0 <= j < i ==> !p(s[j])
    ensures Filter(s, p) != [] && Filter(s, p)[0] == s[i]
  {
    if i > 0 {
      assert !p(s[0]);
      forall j | 0 <= j < i - 1 ensures !p(s[1..][j]) { assert s[1..][j] == s[j + 1]; }
      FilterHead(s[1..], p, i - 1);
    }
  }

  /** Filtering by `p` and by its negation splits `s` into two parts that
      together hold every element exactly as often as `s` does. */
  lemma {:induction false} FilterPartition<T(!new)>(s: seq<T>, p: T -> bool, q: T -> bool)
    requires forall x :: q(x) <==> !p(x)
    ensures multiset(Filter(s, p)) + multiset(Filter(s, q)) == multiset(s)
    ensures |Filter(s, p)| + |Filter(s, q)| == |s|
  {
    if s != [] {
      var t := s[1..];
      FilterPartition(t, p, q);
      assert s == [s[0]] + t;
      if p(s[0]) {
        assert Filter(s, p) == [s[0]] + Filter(t, p) && Filter(s, q) == Filter(t, q);
      } else {
        assert Filter(s, p) == Filter(t, p) && Filter(s, q) == [s[0]] + Filter(t, q);
      }
    }
  }

  /** `stream().map(f).collect(toList())`. */
  function MapSeq<A, B>(s: seq<A>, f: A -> B): (r: seq<B>)
    ensures |r| == |s|
    ensures forall i :: 0 <= i < |s| ==> r[i] == f(s[i])
  {
    seq(|s|, i requires 0 <= i < |s| => f(s[i]))
  }

  /** Every image of an element is in the mapped sequence. */
  lemma MapSeqHas<A, B>(s: seq<A>, f: A -> B, x: A)
    requires x in s
    ensures f(x) in MapSeq(s, f)
  {
    var i :| 0 <= i < |s| && s[i] == x;
    assert MapSeq(s, f)[i] == f(x);
  }

  /** The elements of a mapped sequence are the images of the original's. */
  lemma MapSeqMembers<A, B>(s: seq<A>, f: A -> B, y: B)
    requires y in MapSeq(s, f)
    ensures exists x :: x in s && y == f(x)
  {
    var i :| 0 <= i < |s| && MapSeq(s, f)[i] == y;
    assert s[i] in s;
  }

  /** Mapping after filtering on the mapped value is filtering on the
      original and then mapping: the order of the two stream steps does
      not matter when the test looks through `f`. */
  lemma {:induction false} FilterMapSeq<A(!new), B(!new)>(s: seq<A>, f: A -> B, q: B -> bool, pq: A -> bool)
    requires forall x {:trigger pq(x)} :: pq(x) == q(f(x))
    ensures Filter(MapSeq(s, f), q) == MapSeq(Filter(s, pq), f)
  {
    if s != [] {
      var t := s[1..];
      FilterMapSeq(t, f, q, pq);
      var m := MapSeq(s, f);
      assert m[0] == f(s[0]) && m[1..] == MapSeq(t, f);
      if pq(s[0]) {
        assert Filter(m, q) == [f(s[0])] + Filter(MapSeq(t, f), q);
        assert Filter(s, pq) == [s[0]] + Filter(t, pq);
        assert MapSeq([s[0]] + Filter(t, pq), f) == [f(s[0])] + MapSeq(Filter(t, pq), f);
      } else {
        assert Filter(m, q) == Filter(MapSeq(t, f), q);
        assert Filter(s, pq) == Filter(t, pq);
      }
    }
  }

  /** `stream().filter(p).findFirst()`: the first element satisfying `p`. */
  function Find<T(!new)>(s: seq<T>, p: T -> bool): (r: Option<T>)
    ensures r.None? <==> forall x :: x in s ==> !p(x)
    ensures r.Some? ==> r.value in s && p(r.value)
    ensures r.Some? ==> exists i :: 0 <= i < |s| && s[i] == r.value && forall j :: 0 <= j < i ==> !p(s[j])
  {
    if s == [] then None
    else if p(s[0]) then Some(s[0])
    else
      var rest := Find(s[1..], p);
      assert rest.Some? ==> exists i :: 0 <= i < |s| && s[i] == rest.value && forall j :: 0 <= j < i ==> !p(s[j]) by {
        if rest.Some? {
          var i :| 0 <= i < |s[1..]| && s[1..][i] == rest.value && forall j :: 0 <= j < i ==> !p(s[1..][j]);
          assert s[i + 1] == rest.value;
          forall j | 0 <= j < i + 1 ensures !p(s[j]) {
            if j > 0 { assert s[j] == s[1..][j - 1]; }
          }
        }
      }
      rest
  }

  /** The test "this row has id `id`", as a value to hand to Find and Filter. */
  function HasId(id: nat): PdpPolicy -> bool {
    (row: PdpPolicy) => row.id == id
  }

  /** `findOne(id)`: the row with that id, if any. */
  function FindOne(rows: seq<PdpPolicy>, id: nat): (r: Option<PdpPolicy>)
    ensures r.None? <==> forall row :: row in rows ==> row.id != id
    ensures r.Some? ==> r.value in rows && r.value.id == id
  {
    Find(rows, HasId(id))
  }
}
