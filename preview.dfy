/**
 * The document preview: the values the modal derives from the signed-in user
 * and the document to decide which badges and actions it shows.
 */
module Preview {
  import opened Wrappers
  import opened Types
  import opened Catalog
  import opened Evidence

  datatype BadgeVariant = Secondary | Default | Destructive

  /** A badge's look and text. */
  datatype Badge = Badge(variant: BadgeVariant, caption: string)

  /** `userEvidence.length > 0`, with an absent list read as empty. */
  predicate HasEvidence(d: Document, username: string) {
    |EvidenceOf(d, username)| > 0
  }

  /** `canEdit && document.status !== 'published'` */
  predicate ShowEditAction(role: Role, d: Document) {
    HasEditPermission(role) && d.status != Published
  }

  /** `getStatusBadge`: the badge for a known status, the draft badge for any other. */
  function StatusBadge(status: Status): Badge {
    match status
    case Review => Badge(Default, "En Revisi\U{00F3}n")
    case Published => Badge(Default, "Publicado")
    case _ => Badge(Secondary, "Borrador")
  }

  /** `getPriorityBadge`: a badge only for high priority. */
  function PriorityBadge(p: Priority): Option<Badge> {
    if p == High then Some(Badge(Destructive, "Alta Prioridad")) else None
  }

  // ---------------------------------------------------------------------------
  // Properties

  /** The favourite mark shows exactly when the user's entry is present and true. */
  lemma FavoriteIff(d: Document, username: string)
    ensures IsFavoriteFor(d, username) <==> username in d.isFavorite && d.isFavorite[username]
  {
  }

  /** The evidence mark shows exactly when the user has a non-empty list. */
  lemma HasEvidenceIff(d: Document, username: string)
    ensures HasEvidence(d, username) <==> username in d.evidenceFiles && d.evidenceFiles[username] != []
  {
  }

  /** Editing is offered exactly to editors, and never on a published document. */
  lemma EditOfferedIff(role: Role, d: Document)
    ensures ShowEditAction(role, d) <==> (role == CorporativoPlus || role == Supervisor) && d.status != Published
  {
  }

  /** The modal never offers both editing and evidence upload. */
  lemma EditAndEvidenceExclusive(role: Role, d: Document)
    ensures !(ShowEditAction(role, d) && CanUpload(role, d))
  {
    EvidenceRolesExcludeEditors(role);
  }

  /** Approval removes the edit action; rejection offers it again to every editor. */
  lemma EditActionAfterReview(role: Role, d: Document, now: int)
    ensures !ShowEditAction(role, Apply(Approve(now), d))
    ensures ShowEditAction(role, Apply(Reject(now), d)) <==> HasEditPermission(role)
  {
  }

  /** An unset status shows the draft badge; the three known statuses have three different badges. */
  lemma StatusBadgeFallback()
    ensures StatusBadge(Unset) == StatusBadge(Draft)
    ensures StatusBadge(Draft) != StatusBadge(Review)
    ensures StatusBadge(Draft) != StatusBadge(Published)
    ensures StatusBadge(Review) != StatusBadge(Published)
  {
    assert |StatusBadge(Review).caption| != |StatusBadge(Published).caption|;
  }

  /** The priority badge appears exactly for high priority. */
  lemma PriorityBadgeOnlyHigh(p: Priority)
    ensures PriorityBadge(p).Some? <==> p == High
  {
  }
}
