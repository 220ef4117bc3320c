/** The supervisor's review list: documents in review that the signed-in user may act on. */
module ReviewQueue {
  import opened Wrappers
  import opened Seqs
  import opened Types
  import opened Catalog

  /** The callback of `reviewDocuments`: in review, and assigned to the user or the user is a supervisor. */
  predicate Reviewable(user: User, d: Document) {
    d.status == Review && (d.assignedSupervisor == Some(user.username) || user.role == Supervisor)
  }

  /** `reviewDocuments`: in review and assigned to the user, or any in review for a supervisor; in stored order. */
  function ReviewList(docs: seq<Document>, user: User): (r: seq<Document>)
    ensures forall d :: d in r ==> d in docs && d.status == Review
    ensures forall d :: multiset(r)[d] == if Reviewable(user, d) then multiset(docs)[d] else 0
    ensures IsSubsequence(r, docs)
  {
    FilterIsSubsequence(docs, (d: Document) => Reviewable(user, d));
    FilterMultiplicity(docs, (d: Document) => Reviewable(user, d));
    Filter(docs, (d: Document) => Reviewable(user, d))
  }

  /** A supervisor's list is every document in review, the same list the catalog's `getReviewDocuments` gives. */
  lemma SupervisorSeesAllReviews(docs: seq<Document>, user: User)
    requires user.role == Supervisor
    ensures ReviewList(docs, user) == ReviewDocuments(docs, user.role)
  {
    FilterCongruent(docs, (d: Document) => Reviewable(user, d), (d: Document) => d.status == Review);
  }

  /** Anyone else sees exactly the documents in review assigned to them, each as often as it is stored. */
  lemma OthersSeeTheirAssignments(docs: seq<Document>, user: User)
    requires user.role != Supervisor
    ensures forall d :: d in ReviewList(docs, user) <==>
      d in docs && d.status == Review && d.assignedSupervisor == Some(user.username)
    ensures forall d :: multiset(ReviewList(docs, user))[d] == if d.status == Review && d.assignedSupervisor == Some(user.username) then multiset(docs)[d] else 0
  {
  }

  /** The empty state is shown exactly when no document qualifies. */
  lemma EmptyIffNoneQualifies(docs: seq<Document>, user: User)
    ensures ReviewList(docs, user) == [] <==> forall d :: d in docs ==> !Reviewable(user, d)
  {
    if ReviewList(docs, user) != [] {
      assert ReviewList(docs, user)[0] in ReviewList(docs, user);
    }
  }

  /** Approving a document, which clears its assignment and publishes it, takes it off every user's list. */
  lemma ApprovedLeavesEveryList(docs: seq<Document>, id: string, now: int, user: User)
    ensures forall d :: d in ReviewList(UpdateWhere(docs, id, Approve(now)), user) ==> d.id != id
  {
    ApprovedRecordsPublished(docs, id, now);
  }
}
