/** Revision chains of stored policies: PdpPolicy.revision, the cascading
    delete of a chain, and the invariant every chain keeps. A chain is a
    root row (no parent) together with the rows whose parent is that root. */
module Revisions {
  import opened Domain

  ghost predicate UniqueIds(rows: seq<PdpPolicy>) {
    forall a, b :: a in rows && b in rows && a.id == b.id ==> a == b
  }

  ghost predicate HasRevisionWithId(rows: seq<PdpPolicy>, rootId: nat, id: nat) {
    exists a :: a in rows && a.parent == Some(rootId) && a.id == id
  }

  ghost predicate HasRevisionNumbered(rows: seq<PdpPolicy>, rootId: nat, nbr: nat) {
    exists a :: a in rows && a.parent == Some(rootId) && a.revisionNbr == nbr
  }

  ghost predicate HasRoot(rows: seq<PdpPolicy>, rootId: nat) {
    exists r :: r in rows && r.id == rootId && r.parent.None?
  }

  /** Every revision of `root` is listed by it, numbered within 1..n
      (n the number of revisions), latest exactly when numbered n, and
      has no revisions of its own. */
  ghost predicate RevisionsNumbered(rows: seq<PdpPolicy>, root: PdpPolicy) {
    forall a :: a in rows && a.parent == Some(root.id) ==>
      && a.id in root.revisions
      && 1 <= a.revisionNbr <= |root.revisions|
      && (a.latestRevision <==> a.revisionNbr == |root.revisions|)
      && a.revisions == {}
  }

  /** No two revisions of `root` share a number. */
  ghost predicate NumbersDistinct(rows: seq<PdpPolicy>, root: PdpPolicy) {
    forall a, b :: (a in rows && b in rows && a.parent == Some(root.id) && b.parent == Some(root.id)
      && a.revisionNbr == b.revisionNbr) ==> a == b
  }

  /** Every id `root` lists, and every number 1..n, belongs to a revision. */
  ghost predicate RevisionsPresent(rows: seq<PdpPolicy>, root: PdpPolicy) {
    && (forall x :: x in root.revisions ==> HasRevisionWithId(rows, root.id, x))
    && (forall m :: 1 <= m <= |root.revisions| ==> HasRevisionNumbered(rows, root.id, m))
  }

  /** The chain of `root` in `rows`: the root is revision 0; its revisions
      are exactly the rows listed in `root.revisions`, they have no
      revisions of their own and carry the numbers 1..n once each; the
      latest-revision flag marks the row numbered n. */
  ghost predicate ChainWellFormed(rows: seq<PdpPolicy>, root: PdpPolicy) {
    && root.parent.None?
    && root.revisionNbr == 0
    && (root.latestRevision <==> |root.revisions| == 0)
    && RevisionsNumbered(rows, root)
    && NumbersDistinct(rows, root)
    && RevisionsPresent(rows, root)
  }

  /** The store invariant: ids identify rows, every root's chain is well
      formed and every parent link leads to a root. */
  ghost predicate WellFormed(rows: seq<PdpPolicy>) {
    && UniqueIds(rows)
    && (forall a :: a in rows && a.parent.None? ==> ChainWellFormed(rows, a))
    && (forall a :: a in rows && a.parent.Some? ==> HasRoot(rows, a.parent.value))
  }

  /** Membership in the chain rooted at `rootId`. */
  function InChain(rootId: nat): PdpPolicy -> bool {
    (a: PdpPolicy) => a.id == rootId || a.parent == Some(rootId)
  }

  function OutsideChain(rootId: nat): PdpPolicy -> bool {
    (a: PdpPolicy) => a.id != rootId && a.parent != Some(rootId)
  }

  /** The ids of the root and of all its revisions. */
  function ChainIds(root: PdpPolicy): set<nat> {
    {root.id} + root.revisions
  }

  /** `new PdpPolicy(policyXml, name, true, ...)`: a fresh root. */
  function NewRoot(id: nat, policyId: string, policyXml: string, name: string, author: Author, active: bool): (r: PdpPolicy)
  {
    PdpPolicy(id, policyId, None, {}, true, 0, policyXml, name, author, active)
  }

  /** What saving after PdpPolicy.revision does to the rows of the chain:
      every row of the chain stops being the latest revision and the root
      records the new revision's id. */
  function RetireRow(root: PdpPolicy, newId: nat, a: PdpPolicy): (r: PdpPolicy)
    ensures r.id == a.id && r.parent == a.parent && r.revisionNbr == a.revisionNbr
  {
    if a.parent == Some(root.id) then a.(latestRevision := false)
    else if a.id == root.id then a.(latestRevision := false, revisions := a.revisions + {newId})
    else a
  }

  function Retire(root: PdpPolicy, newId: nat): PdpPolicy -> PdpPolicy {
    (a: PdpPolicy) => RetireRow(root, newId, a)
  }

  /** Each row after the retirement step comes from a row before it. */
  lemma RetiredFrom(rows: seq<PdpPolicy>, root: PdpPolicy, newId: nat, a: PdpPolicy)
    requires a in MapSeq(rows, Retire(root, newId))
    ensures exists a0 :: a0 in rows && a == RetireRow(root, newId, a0)
  {
    MapSeqMembers(rows, Retire(root, newId), a);
  }

  function NewRevision(root: PdpPolicy, newId: nat, policyId: string, policyXml: string, name: string,
                       author: Author, active: bool): PdpPolicy
  {
    PdpPolicy(newId, policyId, Some(root.id), {}, true, |root.revisions| + 1, policyXml, name, author, active)
  }

  /** PdpPolicy.revision(name, root, policyXml, ...) followed by the
      cascading save of the root: the rows afterwards. */
  function Revision(rows: seq<PdpPolicy>, root: PdpPolicy, newId: nat, policyId: string, policyXml: string,
                    name: string, author: Author, active: bool): (r: seq<PdpPolicy>)
    requires root in rows && root.parent.None?
    ensures |r| == |rows| + 1
    // the parent is updated in place: no longer latest, one more revision, same number
    ensures root.(latestRevision := false, revisions := root.revisions + {newId}) in r
    // the new row is the latest revision of the root, numbered one past its predecessors
    ensures r[|rows|].latestRevision && r[|rows|].parent == Some(root.id) && r[|rows|].id == newId
    ensures r[|rows|].revisionNbr == |root.revisions| + 1
    // rows of other chains are untouched
    ensures forall a :: a in rows && OutsideChain(root.id)(a) ==> a in r
  {
    var r := MapSeq(rows, Retire(root, newId)) + [NewRevision(root, newId, policyId, policyXml, name, author, active)];
    MapSeqHas(rows, Retire(root, newId), root);
    forall a | a in rows && OutsideChain(root.id)(a) ensures a in r {
      MapSeqHas(rows, Retire(root, newId), a);
    }
    r
  }

  /** Revising appends: every stored row keeps its place and id, rows of
      other chains are unchanged, and the earlier revisions of the root only
      stop being the latest, keeping their number, body and links. */
  lemma RevisionKeepsEarlier(rows: seq<PdpPolicy>, root: PdpPolicy, newId: nat, policyId: string, policyXml: string,
                             name: string, author: Author, active: bool)
    requires root in rows && root.parent.None?
    ensures var r := Revision(rows, root, newId, policyId, policyXml, name, author, active);
      && |r| == |rows| + 1 && (forall i :: 0 <= i < |rows| ==> r[i].id == rows[i].id)
      && (forall i :: 0 <= i < |rows| && OutsideChain(root.id)(rows[i]) ==> r[i] == rows[i])
      && (forall i :: 0 <= i < |rows| && rows[i].parent == Some(root.id) ==> r[i] == rows[i].(latestRevision := false))
  {
  }

  /** The facts pdp.domain.PdpPolicyTest.testRevision checks, for every
      well-formed store and every root. */
  lemma RevisionAsTested(rows: seq<PdpPolicy>, root: PdpPolicy, newId: nat, policyId: string, policyXml: string,
                         name: string, author: Author, active: bool)
    requires WellFormed(rows) && root in rows && root.parent.None?
    requires forall a :: a in rows ==> a.id != newId
    ensures var r := Revision(rows, root, newId, policyId, policyXml, name, author, active);
      var parent := root.(latestRevision := false, revisions := root.revisions + {newId});
      && parent in r
      && !parent.latestRevision
      && parent.revisions == root.revisions + {newId}
      && |parent.revisions| == |root.revisions| + 1
      && parent.revisionNbr == 0
      && r[|rows|].latestRevision
      && r[|rows|].revisionNbr == parent.revisionNbr + |parent.revisions|
      && (root.revisions == {} ==> parent.revisions == {r[|rows|].id} && r[|rows|].revisionNbr == 1)
  {
    assert ChainWellFormed(rows, root);
    assert newId !in root.revisions;
    MapSeqHas(rows, Retire(root, newId), root);
  }

  /** A well-formed chain has exactly one latest revision, and its numbers
      run from 0 to the number of revisions without gaps. */
  lemma ExactlyOneLatest(rows: seq<PdpPolicy>, root: PdpPolicy)
    requires WellFormed(rows) && root in rows && root.parent.None?
    ensures exists a :: a in rows && InChain(root.id)(a) && a.latestRevision
    ensures forall a, b :: (a in rows && b in rows && InChain(root.id)(a) && InChain(root.id)(b)
              && a.latestRevision && b.latestRevision) ==> a == b
    ensures forall m :: 1 <= m <= |root.revisions| ==> HasRevisionNumbered(rows, root.id, m)
    ensures forall a :: a in rows && InChain(root.id)(a) ==> a.revisionNbr <= |root.revisions|
  {
    assert ChainWellFormed(rows, root);
    var n := |root.revisions|;
    if n == 0 {
      assert InChain(root.id)(root) && root.latestRevision;
    } else {
      assert HasRevisionNumbered(rows, root.id, n);
      var a :| a in rows && a.parent == Some(root.id) && a.revisionNbr == n;
      assert InChain(root.id)(a) && a.latestRevision;
    }
    forall a, b | a in rows && b in rows && InChain(root.id)(a) && InChain(root.id)(b)
        && a.latestRevision && b.latestRevision
      ensures a == b
    {
      if a.id == root.id { assert a == root; }
      if b.id == root.id { assert b == root; }
    }
  }

  /** A chain stays well formed in another store that holds exactly the
      same revisions of its root. */
  lemma ChainTransferred(rows: seq<PdpPolicy>, r: seq<PdpPolicy>, root: PdpPolicy)
    requires ChainWellFormed(rows, root)
    requires forall a :: a in r && a.parent == Some(root.id) ==> a in rows
    requires forall a :: a in rows && a.parent == Some(root.id) ==> a in r
    ensures ChainWellFormed(r, root)
  {
    forall x | x in root.revisions ensures HasRevisionWithId(r, root.id, x) {
      assert HasRevisionWithId(rows, root.id, x);
      var c :| c in rows && c.parent == Some(root.id) && c.id == x;
      assert c in r;
    }
    forall m | 1 <= m <= |root.revisions| ensures HasRevisionNumbered(r, root.id, m) {
      assert HasRevisionNumbered(rows, root.id, m);
      var c :| c in rows && c.parent == Some(root.id) && c.revisionNbr == m;
      assert c in r;
    }
  }

  /** Appending a row that is not a revision of `root` leaves its chain well formed. */
  lemma ChainExtended(rows: seq<PdpPolicy>, root: PdpPolicy, extra: PdpPolicy)
    requires ChainWellFormed(rows, root) && extra.parent != Some(root.id)
    ensures ChainWellFormed(rows + [extra], root)
  {
    ChainTransferred(rows, rows + [extra], root);
  }

  /** Adding a fresh root keeps the store well formed. */
  lemma NewRootWellFormed(rows: seq<PdpPolicy>, root: PdpPolicy)
    requires WellFormed(rows)
    requires root.parent.None? && root.revisions == {} && root.revisionNbr == 0 && root.latestRevision
    requires forall a :: a in rows ==> a.id != root.id
    ensures WellFormed(rows + [root])
  {
    var r := rows + [root];
    assert UniqueIds(r);
    forall a | a in r && a.parent.None? ensures ChainWellFormed(r, a) {
      if a == root {
        FreshRootChain(rows, root);
      } else {
        assert a in rows && ChainWellFormed(rows, a);
        ChainExtended(rows, a, root);
      }
    }
    forall a | a in r && a.parent.Some? ensures HasRoot(r, a.parent.value) {
      assert a in rows && HasRoot(rows, a.parent.value);
      var w :| w in rows && w.id == a.parent.value && w.parent.None?;
      assert w in r;
    }
  }

  /** A fresh root has an empty chain: no stored row names it as parent. */
  lemma FreshRootChain(rows: seq<PdpPolicy>, root: PdpPolicy)
    requires forall a :: a in rows && a.parent.Some? ==> HasRoot(rows, a.parent.value)
    requires root.parent.None? && root.revisions == {} && root.revisionNbr == 0 && root.latestRevision
    requires forall a :: a in rows ==> a.id != root.id
    ensures ChainWellFormed(rows + [root], root)
  {
    forall a | a in rows && a.parent.Some? ensures a.parent.value != root.id {
      assert HasRoot(rows, a.parent.value);
    }
  }

  lemma RevisionUniqueIds(rows: seq<PdpPolicy>, root: PdpPolicy, newId: nat, rev: PdpPolicy)
    requires UniqueIds(rows)
    requires forall a :: a in rows ==> a.id != newId
    requires rev.id == newId
    ensures UniqueIds(MapSeq(rows, Retire(root, newId)) + [rev])
  {
    var m := MapSeq(rows, Retire(root, newId));
    forall a, b | a in m && b in m && a.id == b.id ensures a == b {
      RetiredFrom(rows, root, newId, a);
      var a0 :| a0 in rows && a == RetireRow(root, newId, a0);
      RetiredFrom(rows, root, newId, b);
      var b0 :| b0 in rows && b == RetireRow(root, newId, b0);
    }
    forall a | a in m ensures a.id != newId {
      RetiredFrom(rows, root, newId, a);
    }
  }

  /** The revised chain is well formed again after the revision. */
  lemma RevisedChainWellFormed(rows: seq<PdpPolicy>, root: PdpPolicy, newId: nat, policyId: string, policyXml: string,
                               name: string, author: Author, active: bool)
    requires UniqueIds(rows) && ChainWellFormed(rows, root) && root in rows
    requires forall a :: a in rows ==> a.id != newId
    ensures ChainWellFormed(Revision(rows, root, newId, policyId, policyXml, name, author, active),
                            root.(latestRevision := false, revisions := root.revisions + {newId}))
  {
    assert newId !in root.revisions;
    RevisedNumbered(rows, root, newId, policyId, policyXml, name, author, active);
    RevisedDistinct(rows, root, newId, policyId, policyXml, name, author, active);
    RevisedPresent(rows, root, newId, policyId, policyXml, name, author, active);
  }

  lemma RevisedNumbered(rows: seq<PdpPolicy>, root: PdpPolicy, newId: nat, policyId: string, policyXml: string,
                        name: string, author: Author, active: bool)
    requires UniqueIds(rows) && root in rows && root.parent.None?
    requires RevisionsNumbered(rows, root) && newId !in root.revisions
    ensures RevisionsNumbered(Revision(rows, root, newId, policyId, policyXml, name, author, active),
                              root.(latestRevision := false, revisions := root.revisions + {newId}))
  {
    var rev := NewRevision(root, newId, policyId, policyXml, name, author, active);
    var m := MapSeq(rows, Retire(root, newId));
    assert Revision(rows, root, newId, policyId, policyXml, name, author, active) == m + [rev];
    var n := |root.revisions|;
    assert |root.revisions + {newId}| == n + 1;
    forall a | a in m && a.parent == Some(root.id)
      ensures a.id in root.revisions && 1 <= a.revisionNbr <= n && !a.latestRevision && a.revisions == {}
    {
      RetiredFrom(rows, root, newId, a);
      var a0 :| a0 in rows && a == RetireRow(root, newId, a0);
    }
  }

  lemma RevisedDistinct(rows: seq<PdpPolicy>, root: PdpPolicy, newId: nat, policyId: string, policyXml: string,
                        name: string, author: Author, active: bool)
    requires root in rows && root.parent.None?
    requires RevisionsNumbered(rows, root) && NumbersDistinct(rows, root)
    ensures NumbersDistinct(Revision(rows, root, newId, policyId, policyXml, name, author, active),
                            root.(latestRevision := false, revisions := root.revisions + {newId}))
  {
    var rev := NewRevision(root, newId, policyId, policyXml, name, author, active);
    var m := MapSeq(rows, Retire(root, newId));
    assert Revision(rows, root, newId, policyId, policyXml, name, author, active) == m + [rev];
    RetiredNumbersDistinct(rows, root, newId);
  }

  /** The retirement step keeps the revisions of `root` and their numbers. */
  lemma RetiredNumbersDistinct(rows: seq<PdpPolicy>, root: PdpPolicy, newId: nat)
    requires RevisionsNumbered(rows, root) && NumbersDistinct(rows, root)
    ensures var m := MapSeq(rows, Retire(root, newId));
      && NumbersDistinct(m, root)
      && forall a :: a in m && a.parent == Some(root.id) ==> a.revisionNbr <= |root.revisions|
  {
    var m := MapSeq(rows, Retire(root, newId));
    forall a | a in m && a.parent == Some(root.id) ensures a.revisionNbr <= |root.revisions| {
      RetiredFrom(rows, root, newId, a);
    }
    forall a, b | a in m && b in m && a.parent == Some(root.id) && b.parent == Some(root.id) && a.revisionNbr == b.revisionNbr
      ensures a == b
    {
      RetiredFrom(rows, root, newId, a);
      var a0 :| a0 in rows && a == RetireRow(root, newId, a0);
      RetiredFrom(rows, root, newId, b);
      var b0 :| b0 in rows && b == RetireRow(root, newId, b0);
      assert a0 == b0;
    }
  }

  lemma RevisedPresent(rows: seq<PdpPolicy>, root: PdpPolicy, newId: nat, policyId: string, policyXml: string,
                       name: string, author: Author, active: bool)
    requires root in rows && root.parent.None?
    requires RevisionsPresent(rows, root) && newId !in root.revisions
    ensures RevisionsPresent(Revision(rows, root, newId, policyId, policyXml, name, author, active),
                             root.(latestRevision := false, revisions := root.revisions + {newId}))
  {
    var rev := NewRevision(root, newId, policyId, policyXml, name, author, active);
    var r := Revision(rows, root, newId, policyId, policyXml, name, author, active);
    assert r == MapSeq(rows, Retire(root, newId)) + [rev];
    var n := |root.revisions|;
    assert |root.revisions + {newId}| == n + 1;
    forall x | x in root.revisions + {newId} ensures HasRevisionWithId(r, root.id, x) {
      if x == newId {
        assert rev in r;
      } else {
        assert HasRevisionWithId(rows, root.id, x);
        var c :| c in rows && c.parent == Some(root.id) && c.id == x;
        MapSeqHas(rows, Retire(root, newId), c);
        assert RetireRow(root, newId, c) in r;
      }
    }
    forall k | 1 <= k <= n + 1 ensures HasRevisionNumbered(r, root.id, k) {
      if k == n + 1 {
        assert rev in r;
      } else {
        assert HasRevisionNumbered(rows, root.id, k);
        var c :| c in rows && c.parent == Some(root.id) && c.revisionNbr == k;
        MapSeqHas(rows, Retire(root, newId), c);
        assert RetireRow(root, newId, c) in r;
      }
    }
  }

  /** The chains of the other roots are those they were. */
  lemma OtherChainsWellFormed(rows: seq<PdpPolicy>, root: PdpPolicy, newId: nat, policyId: string, policyXml: string,
                              name: string, author: Author, active: bool, other: PdpPolicy)
    requires UniqueIds(rows) && ChainWellFormed(rows, other) && root in rows && root.parent.None? && other.id != root.id
    ensures ChainWellFormed(Revision(rows, root, newId, policyId, policyXml, name, author, active), other)
  {
    var f := Retire(root, newId);
    var rev := NewRevision(root, newId, policyId, policyXml, name, author, active);
    var r := Revision(rows, root, newId, policyId, policyXml, name, author, active);
    assert r == MapSeq(rows, f) + [rev];
    // the revisions of `other` are the rows the retirement step leaves as they were
    forall a | a in r && a.parent == Some(other.id) ensures a in rows {
      assert a in MapSeq(rows, f);
      MapSeqMembers(rows, f, a);
      var a0 :| a0 in rows && a == f(a0);
      assert a0.id != root.id;
      assert a == a0;
    }
    forall c | c in rows && c.parent == Some(other.id) ensures c in r {
      assert c.id != root.id;
      assert f(c) == c;
      MapSeqHas(rows, f, c);
    }
    ChainTransferred(rows, r, other);
  }

  /** A revision keeps the store well formed. */
  lemma RevisionWellFormed(rows: seq<PdpPolicy>, root: PdpPolicy, newId: nat, policyId: string, policyXml: string,
                           name: string, author: Author, active: bool)
    requires WellFormed(rows) && root in rows && root.parent.None?
    requires forall a :: a in rows ==> a.id != newId
    ensures WellFormed(Revision(rows, root, newId, policyId, policyXml, name, author, active))
  {
    var rev := NewRevision(root, newId, policyId, policyXml, name, author, active);
    assert Revision(rows, root, newId, policyId, policyXml, name, author, active) == MapSeq(rows, Retire(root, newId)) + [rev];
    RevisionUniqueIds(rows, root, newId, rev);
    RevisedChainsWellFormed(rows, root, newId, policyId, policyXml, name, author, active);
    RevisedParentsRooted(rows, root, newId, policyId, policyXml, name, author, active);
  }

  /** After a revision every root's chain is well formed. */
  lemma RevisedChainsWellFormed(rows: seq<PdpPolicy>, root: PdpPolicy, newId: nat, policyId: string, policyXml: string,
                                name: string, author: Author, active: bool)
    requires WellFormed(rows) && root in rows && root.parent.None?
    requires forall a :: a in rows ==> a.id != newId
    ensures var r := Revision(rows, root, newId, policyId, policyXml, name, author, active);
      forall a :: a in r && a.parent.None? ==> ChainWellFormed(r, a)
  {
    var f := Retire(root, newId);
    var rev := NewRevision(root, newId, policyId, policyXml, name, author, active);
    var r := Revision(rows, root, newId, policyId, policyXml, name, author, active);
    assert r == MapSeq(rows, f) + [rev];
    forall a | a in r && a.parent.None? ensures ChainWellFormed(r, a) {
      assert a in MapSeq(rows, f);
      MapSeqMembers(rows, f, a);
      var a0 :| a0 in rows && a == f(a0);
      if a0.id == root.id {
        assert a0 == root;
        RevisedChainWellFormed(rows, root, newId, policyId, policyXml, name, author, active);
      } else {
        assert a == a0 && ChainWellFormed(rows, a0);
        OtherChainsWellFormed(rows, root, newId, policyId, policyXml, name, author, active, a0);
      }
    }
  }

  /** After a revision every parent link still leads to a root. */
  lemma RevisedParentsRooted(rows: seq<PdpPolicy>, root: PdpPolicy, newId: nat, policyId: string, policyXml: string,
                             name: string, author: Author, active: bool)
    requires forall a :: a in rows && a.parent.Some? ==> HasRoot(rows, a.parent.value)
    requires root in rows && root.parent.None?
    ensures var r := Revision(rows, root, newId, policyId, policyXml, name, author, active);
      forall a :: a in r && a.parent.Some? ==> HasRoot(r, a.parent.value)
  {
    var f := Retire(root, newId);
    var rev := NewRevision(root, newId, policyId, policyXml, name, author, active);
    var r := Revision(rows, root, newId, policyId, policyXml, name, author, active);
    assert r == MapSeq(rows, f) + [rev];
    forall a | a in r && a.parent.Some? ensures HasRoot(r, a.parent.value) {
      if a == rev {
        MapSeqHas(rows, f, root);
        assert f(root) in r;
      } else {
        assert a in MapSeq(rows, f);
        MapSeqMembers(rows, f, a);
        var a0 :| a0 in rows && a == f(a0);
        assert HasRoot(rows, a0.parent.value);
        var w :| w in rows && w.id == a0.parent.value && w.parent.None?;
        MapSeqHas(rows, f, w);
        assert f(w) in r;
      }
    }
  }

  /** In a well-formed store the parent link of a revision leads to its root. */
  lemma RootExists(rows: seq<PdpPolicy>, a: PdpPolicy)
    requires WellFormed(rows) && a in rows && a.parent.Some?
    ensures FindOne(rows, a.parent.value).Some? && FindOne(rows, a.parent.value).value.parent.None?
  {
    assert HasRoot(rows, a.parent.value);
    var w :| w in rows && w.id == a.parent.value && w.parent.None?;
  }

  /** `policy.getParentPolicy() != null ? policy.getParentPolicy() : policy`:
      the root of the chain a stored row belongs to. */
  function RootOf(rows: seq<PdpPolicy>, a: PdpPolicy): (r: PdpPolicy)
    requires WellFormed(rows) && a in rows
    ensures r in rows && r.parent.None?
    ensures a.parent.None? ==> r == a
    ensures a.parent.Some? ==> r.id == a.parent.value
    ensures InChain(r.id)(a) && a.id in ChainIds(r)
  {
    if a.parent.None? then a
    else
      RootExists(rows, a);
      var r := FindOne(rows, a.parent.value).value;
      assert ChainWellFormed(rows, r);
      r
  }

  /** The rows revisionsByPolicyId lists: the root and its revisions. */
  function RevisionChain(rows: seq<PdpPolicy>, rootId: nat): (r: seq<PdpPolicy>)
  {
    Filter(rows, InChain(rootId))
  }

  /** `delete(root)` with its cascade: the root and all its revisions go. */
  function DeleteChain(rows: seq<PdpPolicy>, rootId: nat): (r: seq<PdpPolicy>)
  {
    Filter(rows, OutsideChain(rootId))
  }

  /** The violations left once the rows with the given ids are gone. */
  function DeleteViolations(violations: seq<Violation>, ids: set<nat>): (r: seq<Violation>)
    ensures forall v :: v in r <==> v in violations && v.policy !in ids
  {
    Filter(violations, (v: Violation) => v.policy !in ids)
  }

  /** In a well-formed store a row belongs to the chain of a root exactly
      when its id is the root's or one the root lists as a revision. */
  lemma ChainMembership(rows: seq<PdpPolicy>, root: PdpPolicy)
    requires WellFormed(rows) && root in rows && root.parent.None?
    ensures forall a :: a in rows ==> (InChain(root.id)(a) <==> a.id in ChainIds(root))
  {
    assert ChainWellFormed(rows, root);
    forall a | a in rows && a.id in root.revisions ensures a.parent == Some(root.id) {
      assert HasRevisionWithId(rows, root.id, a.id);
      var c :| c in rows && c.parent == Some(root.id) && c.id == a.id;
    }
  }

  /** revisionsByPolicyId lists the root and each of its revisions, and
      nothing else; together with what a delete keeps it is the whole store. */
  lemma RevisionChainIsRootAndRevisions(rows: seq<PdpPolicy>, root: PdpPolicy)
    requires WellFormed(rows) && root in rows && root.parent.None?
    ensures root in RevisionChain(rows, root.id)
    ensures forall a :: a in RevisionChain(rows, root.id) ==> a in rows && a.id in ChainIds(root)
    ensures forall x :: x in root.revisions ==>
              exists a :: a in RevisionChain(rows, root.id) && a.id == x && a.parent == Some(root.id)
    ensures |RevisionChain(rows, root.id)| + |DeleteChain(rows, root.id)| == |rows|
  {
    ChainMembership(rows, root);
    assert ChainWellFormed(rows, root);
    forall x | x in root.revisions
      ensures exists a :: a in RevisionChain(rows, root.id) && a.id == x && a.parent == Some(root.id)
    {
      assert HasRevisionWithId(rows, root.id, x);
      var c :| c in rows && c.parent == Some(root.id) && c.id == x;
      assert InChain(root.id)(c);
    }
    FilterPartition(rows, InChain(root.id), OutsideChain(root.id));
  }

  /** Deleting a chain keeps the store well formed, removes exactly that
      chain, and the violations that stay still point at stored rows. */
  lemma DeleteWellFormed(rows: seq<PdpPolicy>, root: PdpPolicy, violations: seq<Violation>)
    requires WellFormed(rows) && root in rows && root.parent.None?
    requires forall v :: v in violations ==> FindOne(rows, v.policy).Some?
    ensures WellFormed(DeleteChain(rows, root.id))
    ensures forall a :: a in DeleteChain(rows, root.id) <==> a in rows && a.id !in ChainIds(root)
    ensures forall v :: v in DeleteViolations(violations, ChainIds(root)) ==>
              FindOne(DeleteChain(rows, root.id), v.policy).Some?
  {
    var r := DeleteChain(rows, root.id);
    ChainMembership(rows, root);
    forall a | a in r && a.parent.None? ensures ChainWellFormed(r, a) {
      assert a in rows && ChainWellFormed(rows, a);
      forall c | c in rows && c.parent == Some(a.id) ensures c in r {
        assert c.id != root.id;
      }
      ChainTransferred(rows, r, a);
    }
    forall a | a in r && a.parent.Some? ensures HasRoot(r, a.parent.value) {
      assert HasRoot(rows, a.parent.value);
      var w :| w in rows && w.id == a.parent.value && w.parent.None?;
      assert w in r;
    }
    forall v | v in DeleteViolations(violations, ChainIds(root))
      ensures FindOne(r, v.policy).Some?
    {
      var a := FindOne(rows, v.policy).value;
      assert a in r;
    }
  }
}
