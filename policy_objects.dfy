/** PdpPolicy as the in-memory object pdp.domain.PdpPolicyTest works on:
    PdpPolicy.revision changes the parent object in place and hands back a
    new revision object. What the repository holds after the cascading
    save of such a parent is Revisions.Revision. */
module PolicyObjects {
  import opened Domain

  class PdpPolicyObject {
    var name: string
    var policyXml: string
    var author: Author
    var active: bool
    var latestRevision: bool
    var revisionNbr: nat
    // the revisions of a root, empty for a revision
    var revisions: set<PdpPolicyObject>
    // the root of the chain, None for the root itself
    var parentPolicy: Option<PdpPolicyObject>

    /** `new PdpPolicy()`: no revisions, revision number 0, no parent. */
    constructor()
      ensures revisions == {} && revisionNbr == 0 && parentPolicy.None?
    {
      name := "";
      policyXml := "";
      author := Author("", "", "");
      active := false;
      latestRevision := false;
      revisionNbr := 0;
      revisions := {};
      parentPolicy := None;
    }

    /** PdpPolicy.revision: the new object is the latest revision of
        `parent`, numbered one past the revisions it already has; the parent
        and its earlier revisions stop being the latest, the parent records
        the new revision and keeps its own number. */
    static method Revision(name: string, parent: PdpPolicyObject, policyXml: string, author: Author, active: bool)
      returns (revision: PdpPolicyObject)
      modifies parent, parent.revisions
      ensures fresh(revision)
      ensures revision.latestRevision && revision.revisionNbr == |old(parent.revisions)| + 1
      ensures revision.parentPolicy == Some(parent) && revision.revisions == {}
      ensures revision.name == name && revision.policyXml == policyXml
      ensures revision.author == author && revision.active == active
      ensures !parent.latestRevision && parent.revisions == old(parent.revisions) + {revision}
      ensures parent.revisionNbr == old(parent.revisionNbr) && parent.parentPolicy == old(parent.parentPolicy)
      ensures parent.name == old(parent.name) && parent.policyXml == old(parent.policyXml)
      ensures parent.author == old(parent.author) && parent.active == old(parent.active)
      // earlier revisions stop being the latest and nothing else about them changes
      ensures forall r :: r in old(parent.revisions) ==> !r.latestRevision
      ensures forall r :: r in old(parent.revisions) ==>
                && r.revisionNbr == old(r.revisionNbr) && r.parentPolicy == old(r.parentPolicy)
                && r.name == old(r.name) && r.policyXml == old(r.policyXml)
                && r.author == old(r.author) && r.active == old(r.active)
      ensures forall r :: r in old(parent.revisions) && r != parent ==> r.revisions == old(r.revisions)
    {
      var earlier := parent.revisions;
      forall r | r in earlier {
        r.latestRevision := false;
      }
      revision := new PdpPolicyObject();
      revision.name := name;
      revision.policyXml := policyXml;
      revision.author := author;
      revision.active := active;
      revision.latestRevision := true;
      revision.revisionNbr := |earlier| + 1;
      revision.parentPolicy := Some(parent);
      parent.latestRevision := false;
      parent.revisions := earlier + {revision};
    }
  }

  /** testRevision: a revision of a fresh policy. The parent is no longer
      the latest, has exactly the one revision and keeps number 0; the
      revision is the latest and has number 1. */
  method TestRevision(author: Author) returns (parent: PdpPolicyObject, revision: PdpPolicyObject)
    ensures !parent.latestRevision
    ensures |parent.revisions| == 1 && parent.revisions == {revision}
    ensures parent.revisionNbr == 0
    ensures revision.latestRevision && revision.revisionNbr == 1
  {
    parent := new PdpPolicyObject();
    revision := PdpPolicyObject.Revision("new policy", parent, "xml", author, true);
  }
}
