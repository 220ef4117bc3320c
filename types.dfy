/**
 * Shared entities and the role policy of the catalog: the four user roles, the
 * document record, calendar events, the five capability predicates, the role
 * display names and the visibility rule `canViewDocument`.
 */
module Types {
  import opened Wrappers

  /** 'corporativo' | 'corporativo-plus' | 'personal-tienda' | 'supervisor' */
  datatype Role = Corporativo | CorporativoPlus | PersonalTienda | Supervisor

  /**
   * 'draft' | 'review' | 'published'. `Unset` is a record whose `status` field is
   * absent at run time (the upload form never supplies one); every status test
   * in the code treats it as "none of the three".
   */
  datatype Status = Draft | Review | Published | Unset

  datatype Priority = Normal | High

  datatype User = User(username: string, role: Role)

  /**
   * A catalog document. `lastModified` is a timestamp (milliseconds); an absent
   * `isFavorite` object reads like an empty map, so it is modelled as one.
   */
  datatype Document = Document(
    id: string,
    title: string,
    content: string,
    author: string,
    lastModified: int,
    category: string,
    tags: seq<string>,
    attachedFiles: Option<seq<string>>,
    status: Status,
    priority: Priority,
    requiresEvidence: bool,
    evidenceFiles: map<string, seq<string>>,
    isFavorite: map<string, bool>,
    assignedSupervisor: Option<string>,
    targetUserGroups: seq<Role>,
    reviewedBy: Option<string>)

  /** A point in time; `day` is the local calendar day that `toDateString` renders. */
  datatype Instant = Instant(day: int, time: int)

  datatype EventKind = Important | Inactive

  datatype CalendarEvent = CalendarEvent(
    id: string,
    dates: seq<Instant>,
    title: string,
    kind: EventKind,
    description: Option<string>,
    createdBy: string,
    color: Option<string>)

  // ---------------------------------------------------------------------------
  // Role policy: each capability is a membership test in a fixed role list.

  predicate HasReadPermission(role: Role) {
    role in [Corporativo, CorporativoPlus, PersonalTienda, Supervisor]
  }

  predicate HasEditPermission(role: Role) {
    role in [CorporativoPlus, Supervisor]
  }

  predicate HasSuperEditPermission(role: Role) {
    role == Supervisor
  }

  predicate CanDeleteDocuments(role: Role) {
    role == Supervisor
  }

  predicate CanManageCalendar(role: Role) {
    role in [CorporativoPlus, Supervisor]
  }

  predicate CanUploadEvidence(role: Role) {
    role in [Corporativo, PersonalTienda]
  }

  /** The Spanish display label of a role. */
  function RoleName(role: Role): string {
    match role
    case Corporativo => "Corporativo"
    case CorporativoPlus => "Corporativo+"
    case PersonalTienda => "Personal de Tienda"
    case Supervisor => "Supervisor"
  }

  /** Every role may read. */
  lemma ReadIsUniversal(role: Role)
    ensures HasReadPermission(role)
  {
  }

  /** Edit capability belongs exactly to corporativo-plus and supervisor. */
  lemma EditRoles(role: Role)
    ensures HasEditPermission(role) <==> role == CorporativoPlus || role == Supervisor
  {
  }

  /** Super-edit and delete belong to the supervisor alone, so each implies edit. */
  lemma SuperEditAndDeleteRoles(role: Role)
    ensures HasSuperEditPermission(role) <==> role == Supervisor
    ensures CanDeleteDocuments(role) <==> role == Supervisor
    ensures HasSuperEditPermission(role) ==> HasEditPermission(role)
    ensures CanDeleteDocuments(role) ==> HasEditPermission(role)
  {
  }

  /** Evidence upload belongs exactly to corporativo and personal-tienda; no role both edits and uploads evidence. */
  lemma EvidenceRolesExcludeEditors(role: Role)
    ensures CanUploadEvidence(role) <==> role == Corporativo || role == PersonalTienda
    ensures !(HasEditPermission(role) && CanUploadEvidence(role))
    ensures HasEditPermission(role) || CanUploadEvidence(role)
  {
  }

  /** Calendar management is granted to the same roles as editing. */
  lemma CalendarFollowsEdit(role: Role)
    ensures CanManageCalendar(role) == HasEditPermission(role)
  {
  }

  /** Distinct roles have distinct display names. */
  lemma RoleNameInjective(r1: Role, r2: Role)
    ensures RoleName(r1) == RoleName(r2) ==> r1 == r2
  {
  }

  // ---------------------------------------------------------------------------
  // Visibility

  /**
   * `canViewDocument`: documents in review are visible to corporativo-plus,
   * supervisors and their author; published ones to the roles they target;
   * drafts to their author; a record with no status to nobody.
   */
  predicate CanViewDocument(role: Role, d: Document, username: string) {
    if d.status == Review then
      role == CorporativoPlus || role == Supervisor || d.author == username
    else if d.status == Published then
      role in d.targetUserGroups
    else if d.status == Draft then
      d.author == username
    else
      false
  }

  /** A document in review is visible exactly to corporativo-plus, supervisors and its author. */
  lemma ReviewVisibility(role: Role, d: Document, username: string)
    requires d.status == Review
    ensures CanViewDocument(role, d, username) <==>
              role == CorporativoPlus || HasSuperEditPermission(role) || d.author == username
  {
  }

  /** A published document is visible exactly to its target roles, whoever the user is. */
  lemma PublishedVisibility(role: Role, d: Document, u1: string, u2: string)
    requires d.status == Published
    ensures CanViewDocument(role, d, u1) <==> role in d.targetUserGroups
    ensures CanViewDocument(role, d, u1) == CanViewDocument(role, d, u2)
  {
  }

  /** A draft is visible exactly to its author, whatever the role. */
  lemma DraftVisibility(r1: Role, r2: Role, d: Document, username: string)
    requires d.status == Draft
    ensures CanViewDocument(r1, d, username) <==> d.author == username
    ensures CanViewDocument(r1, d, username) == CanViewDocument(r2, d, username)
  {
  }

  /** A record without a status is visible to no one, its author included. */
  lemma UnsetInvisible(role: Role, d: Document, username: string)
    requires d.status == Unset
    ensures !CanViewDocument(role, d, username)
  {
  }
}
