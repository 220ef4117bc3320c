/**
 * The document catalog's store: the `documents` and `calendarEvents` lists, the
 * handlers that replace records by id, and the three queries over the list
 * (the filtered view, the category list and the supervisor's review list).
 */
module Catalog {
  import opened Wrappers
  import opened Seqs
  import opened Types
  import opened TextUtils

  // ---------------------------------------------------------------------------
  // Record-level changes

  /**
   * What a handler does to each record whose id matches. Timestamps (`new Date()`)
   * arrive as `now`.
   */
  datatype Mutation =
    | Replace(updated: Document, now: int)
    | ToggleFavorite(user: string)
    | TogglePriority(now: int)
    | ToggleEvidenceRequirement(now: int)
    | SendToReview(now: int)
    | Approve(now: int)
    | Reject(now: int)
    | AddEvidence(user: string, file: string)
    | RemoveEvidence(user: string, file: string)

  /** `doc.isFavorite?.[username]`, with an absent entry read as false. */
  function IsFavoriteFor(d: Document, username: string): bool {
    Lookup(d.isFavorite, username, false)
  }

  /** `doc.evidenceFiles[username] || []` */
  function EvidenceOf(d: Document, username: string): seq<string> {
    Lookup(d.evidenceFiles, username, [])
  }

  /** The record a handler's `map` callback returns for a matching record. */
  function Apply(m: Mutation, d: Document): Document {
    match m
    case Replace(u, now) => u.(lastModified := now)
    case ToggleFavorite(user) => d.(isFavorite := d.isFavorite[user := !IsFavoriteFor(d, user)])
    case TogglePriority(now) =>
      d.(priority := if d.priority == High then Normal else High, lastModified := now)
    case ToggleEvidenceRequirement(now) =>
      d.(requiresEvidence := !d.requiresEvidence, lastModified := now)
    case SendToReview(now) => d.(status := Review, lastModified := now)
    case Approve(now) =>
      d.(status := Published, lastModified := now, assignedSupervisor := None, reviewedBy := None)
    case Reject(now) =>
      d.(status := Draft, lastModified := now, assignedSupervisor := None, reviewedBy := None)
    case AddEvidence(user, file) =>
      d.(evidenceFiles := d.evidenceFiles[user := EvidenceOf(d, user) + [file]])
    case RemoveEvidence(user, file) =>
      d.(evidenceFiles := d.evidenceFiles[user := RemoveAll(EvidenceOf(d, user), file)])
  }

  /** `docs.map(doc => doc.id === id ? change(doc) : doc)`: every record with the id changes, the rest stay put. */
  function UpdateWhere(docs: seq<Document>, id: string, m: Mutation): (r: seq<Document>)
    ensures |r| == |docs|
    ensures forall i :: 0 <= i < |docs| ==> r[i] == if docs[i].id == id then Apply(m, docs[i]) else docs[i]
  {
    if docs == [] then []
    else [if docs[0].id == id then Apply(m, docs[0]) else docs[0]] + UpdateWhere(docs[1..], id, m)
  }

  /** `docs.filter(doc => doc.id !== id)` */
  function DeleteWhere(docs: seq<Document>, id: string): (r: seq<Document>)
    ensures forall d :: d in r <==> d in docs && d.id != id
    ensures forall d :: multiset(r)[d] == if d.id != id then multiset(docs)[d] else 0
    ensures IsSubsequence(r, docs)
  {
    FilterIsSubsequence(docs, (d: Document) => d.id != id);
    FilterMultiplicity(docs, (d: Document) => d.id != id);
    Filter(docs, (d: Document) => d.id != id)
  }

  // ---------------------------------------------------------------------------
  // Creation

  /** What `handleDocumentUpload` receives: a document without id, timestamp, author, evidence and favourites. */
  datatype NewDocument = NewDocument(
    title: string,
    content: string,
    category: string,
    tags: seq<string>,
    attachedFiles: Option<seq<string>>,
    status: Status,
    priority: Priority,
    requiresEvidence: bool,
    assignedSupervisor: Option<string>,
    targetUserGroups: seq<Role>,
    reviewedBy: Option<string>)

  /** The record `handleDocumentUpload` builds; `id` and `now` stand for `Date.now()` and `new Date()`. */
  function CreateDocument(p: NewDocument, id: string, now: int, author: string): Document {
    Document(id, p.title, p.content, author, now, p.category, p.tags, p.attachedFiles, p.status,
             p.priority, p.requiresEvidence, map[], map[], p.assignedSupervisor, p.targetUserGroups,
             p.reviewedBy)
  }

  /** Calendar events as `handleAddCalendarEvent` receives them, without an id. */
  datatype NewEvent = NewEvent(
    dates: seq<Instant>,
    title: string,
    kind: EventKind,
    description: Option<string>,
    createdBy: string,
    color: Option<string>)

  function CreateEvent(e: NewEvent, id: string): CalendarEvent {
    CalendarEvent(id, e.dates, e.title, e.kind, e.description, e.createdBy, e.color)
  }

  /** `events.filter(e => e.id !== id)` */
  function RemoveEventWhere(events: seq<CalendarEvent>, id: string): (r: seq<CalendarEvent>)
    ensures forall e :: e in r <==> e in events && e.id != id
    ensures forall e :: multiset(r)[e] == if e.id != id then multiset(events)[e] else 0
    ensures IsSubsequence(r, events)
  {
    FilterIsSubsequence(events, (e: CalendarEvent) => e.id != id);
    FilterMultiplicity(events, (e: CalendarEvent) => e.id != id);
    Filter(events, (e: CalendarEvent) => e.id != id)
  }

  // ---------------------------------------------------------------------------
  // Queries

  /** The catalog's filter bar. `category` is a name or "all"; `None` is "all" for status and priority. */
  datatype Filters = Filters(
    searchTerm: string,
    category: string,
    status: Option<Status>,
    priority: Option<Priority>,
    favoritesOnly: bool)

  const AllCategories: string := "all"

  /** The filter bar as the catalog opens. */
  const InitialFilters: Filters := Filters("", AllCategories, None, None, false)

  /** `matchesSearch`: the term occurs in the title, content, author or one of the tags. */
  predicate MatchesSearch(d: Document, term: string) {
    TextIncludes(d.title, term) || TextIncludes(d.content, term) || TextIncludes(d.author, term) ||
    exists i :: 0 <= i < |d.tags| && TextIncludes(d.tags[i], term)
  }

  /** The callback of `filteredDocuments`. */
  predicate Shown(user: User, f: Filters, d: Document) {
    && CanViewDocument(user.role, d, user.username)
    && MatchesSearch(d, f.searchTerm)
    && (f.category == AllCategories || d.category == f.category)
    && (f.status.None? || d.status == f.status.value)
    && (f.priority.None? || d.priority == f.priority.value)
    && (!f.favoritesOnly || IsFavoriteFor(d, user.username))
  }

  /** `filteredDocuments`: exactly the documents the user may view that meet every filter, each copy kept, in stored order. */
  function FilteredDocuments(docs: seq<Document>, user: User, f: Filters): (r: seq<Document>)
    ensures forall d :: d in r <==> d in docs && Shown(user, f, d)
    ensures forall d :: multiset(r)[d] == if Shown(user, f, d) then multiset(docs)[d] else 0
    ensures forall d :: d in r ==> d in docs && CanViewDocument(user.role, d, user.username)
    ensures forall d :: d in r ==> MatchesSearch(d, f.searchTerm)
    ensures f.favoritesOnly ==> forall d :: d in r ==> IsFavoriteFor(d, user.username)
    ensures IsSubsequence(r, docs)
  {
    FilterIsSubsequence(docs, (d: Document) => Shown(user, f, d));
    FilterMultiplicity(docs, (d: Document) => Shown(user, f, d));
    Filter(docs, (d: Document) => Shown(user, f, d))
  }

  /** The documents the user may view, in stored order. */
  function VisibleDocuments(docs: seq<Document>, user: User): seq<Document> {
    Filter(docs, (d: Document) => CanViewDocument(user.role, d, user.username))
  }

  /** With the filter bar untouched, the catalog lists exactly the documents the user may view. */
  lemma InitialFiltersShowVisible(docs: seq<Document>, user: User)
    ensures FilteredDocuments(docs, user, InitialFilters) == VisibleDocuments(docs, user)
  {
    forall d | d in docs
      ensures Shown(user, InitialFilters, d) == CanViewDocument(user.role, d, user.username)
    {
      IncludesEmpty(d.title);
    }
    FilterCongruent(docs, (d: Document) => Shown(user, InitialFilters, d), (d: Document) => CanViewDocument(user.role, d, user.username));
  }

  /** The category of each document, in stored order. */
  function UsedCategories(docs: seq<Document>): (r: seq<string>)
    ensures |r| == |docs| && forall i :: 0 <= i < |docs| ==> r[i] == docs[i].category
  {
    seq(|docs|, i requires 0 <= i < |docs| => docs[i].category)
  }

  /** `categories`: each category in use, once, in order of first use. */
  function Categories(docs: seq<Document>): (r: seq<string>)
    ensures forall c :: c in r <==> exists i :: 0 <= i < |docs| && docs[i].category == c
    ensures NoDuplicates(r)
    ensures forall i, j :: 0 <= i < j < |r| ==>
      && r[i] in UsedCategories(docs) && r[j] in UsedCategories(docs)
      && FirstIndex(UsedCategories(docs), r[i]) < FirstIndex(UsedCategories(docs), r[j])
  {
    var cats := UsedCategories(docs);
    assert forall c :: c in cats <==> exists i :: 0 <= i < |docs| && docs[i].category == c by {
      forall c | c in cats
        ensures exists i :: 0 <= i < |docs| && docs[i].category == c
      {
        var i :| 0 <= i < |cats| && cats[i] == c;
      }
      forall c | exists i :: 0 <= i < |docs| && docs[i].category == c
        ensures c in cats
      {
        var i :| 0 <= i < |docs| && docs[i].category == c;
        assert cats[i] == c;
      }
    }
    Dedup(cats)
  }

  /** `getReviewDocuments`: empty without super-edit, otherwise every document in review, in order. */
  function ReviewDocuments(docs: seq<Document>, role: Role): (r: seq<Document>)
    ensures !HasSuperEditPermission(role) ==> r == []
    ensures HasSuperEditPermission(role) ==> forall d :: d in r <==> d in docs && d.status == Review
    ensures HasSuperEditPermission(role) ==>
      forall d :: multiset(r)[d] == if d.status == Review then multiset(docs)[d] else 0
    ensures IsSubsequence(r, docs)
  {
    if !HasSuperEditPermission(role) then []
    else
      FilterIsSubsequence(docs, (d: Document) => d.status == Review);
      FilterMultiplicity(docs, (d: Document) => d.status == Review);
      Filter(docs, (d: Document) => d.status == Review)
  }

  // ---------------------------------------------------------------------------
  // Properties of the record-level changes

  /** Toggling a favourite flips the user's flag (an absent flag counts as off) and touches nothing else. */
  lemma ToggleFavoriteFlips(d: Document, user: string, other: string)
    requires other != user
    ensures IsFavoriteFor(Apply(ToggleFavorite(user), d), user) == !IsFavoriteFor(d, user)
    ensures IsFavoriteFor(Apply(ToggleFavorite(user), d), other) == IsFavoriteFor(d, other)
    ensures other in d.isFavorite <==> other in Apply(ToggleFavorite(user), d).isFavorite
    ensures Apply(ToggleFavorite(user), d).lastModified == d.lastModified
    ensures Apply(ToggleFavorite(user), d).(isFavorite := d.isFavorite) == d
  {
  }

  /** Toggling a favourite twice leaves the user's flag as it was; only an absent flag is now stored as false. */
  lemma ToggleFavoriteTwice(d: Document, user: string)
    ensures var twice := Apply(ToggleFavorite(user), Apply(ToggleFavorite(user), d));
      twice == d.(isFavorite := d.isFavorite[user := IsFavoriteFor(d, user)])
  {
  }

  /** Toggling priority twice restores it; only the timestamp moves. */
  lemma TogglePriorityTwice(d: Document, t1: int, t2: int)
    ensures Apply(TogglePriority(t2), Apply(TogglePriority(t1), d)) == d.(lastModified := t2)
  {
  }

  /** Toggling the evidence requirement twice restores it; only the timestamp moves. */
  lemma ToggleEvidenceRequirementTwice(d: Document, t1: int, t2: int)
    ensures Apply(ToggleEvidenceRequirement(t2), Apply(ToggleEvidenceRequirement(t1), d)) == d.(lastModified := t2)
  {
  }

  /** Approval publishes whatever the prior status, clears the review assignment, and shows the record to exactly its target roles. */
  lemma ApprovePublishes(d: Document, now: int, role: Role, username: string)
    ensures Apply(Approve(now), d).status == Published
    ensures Apply(Approve(now), d).assignedSupervisor.None? && Apply(Approve(now), d).reviewedBy.None?
    ensures CanViewDocument(role, Apply(Approve(now), d), username) <==> role in d.targetUserGroups
  {
  }

  /** Rejection returns any record to draft, clears the review assignment, and leaves it visible to its author alone. */
  lemma RejectReturnsToDraft(d: Document, now: int, role: Role, username: string)
    ensures Apply(Reject(now), d).status == Draft
    ensures Apply(Reject(now), d).assignedSupervisor.None? && Apply(Reject(now), d).reviewedBy.None?
    ensures CanViewDocument(role, Apply(Reject(now), d), username) <==> d.author == username
  {
  }

  /** Sending to review keeps the author's access and opens the record to corporativo-plus and supervisors. */
  lemma SendToReviewOpensReview(d: Document, now: int, role: Role, username: string)
    ensures CanViewDocument(role, Apply(SendToReview(now), d), username) <==>
      role == CorporativoPlus || role == Supervisor || d.author == username
    ensures Apply(SendToReview(now), d).reviewedBy == d.reviewedBy
    ensures Apply(SendToReview(now), d).assignedSupervisor == d.assignedSupervisor
  {
  }

  /** Adding evidence appends the file to the user's list, creating it if absent; other users' lists are untouched. */
  lemma AddEvidenceAppends(d: Document, user: string, file: string, other: string)
    requires other != user
    ensures EvidenceOf(Apply(AddEvidence(user, file), d), user) == EvidenceOf(d, user) + [file]
    ensures EvidenceOf(Apply(AddEvidence(user, file), d), other) == EvidenceOf(d, other)
    ensures (other in Apply(AddEvidence(user, file), d).evidenceFiles) == (other in d.evidenceFiles)
  {
  }

  /** Removing evidence drops every copy of the file from the user's list and keeps all other files. */
  lemma RemoveEvidenceDropsEveryCopy(d: Document, user: string, file: string, other: string)
    requires other != user
    ensures file !in EvidenceOf(Apply(RemoveEvidence(user, file), d), user)
    ensures forall f :: f != file ==>
      (f in EvidenceOf(Apply(RemoveEvidence(user, file), d), user) <==> f in EvidenceOf(d, user))
    ensures EvidenceOf(Apply(RemoveEvidence(user, file), d), other) == EvidenceOf(d, other)
  {
  }

  /** Uploading a new file and removing it again restores the user's evidence list. */
  lemma AddThenRemoveEvidence(d: Document, user: string, file: string)
    requires file !in EvidenceOf(d, user)
    ensures EvidenceOf(Apply(RemoveEvidence(user, file), Apply(AddEvidence(user, file), d)), user) == EvidenceOf(d, user)
  {
    RemoveAllAfterAppend(EvidenceOf(d, user), file);
  }

  /** An id that no record carries leaves the list as it is. */
  lemma UpdateAbsentId(docs: seq<Document>, id: string, m: Mutation)
    requires forall i :: 0 <= i < |docs| ==> docs[i].id != id
    ensures UpdateWhere(docs, id, m) == docs
  {
  }

  /** Deleting and then re-creating keeps the rest: a record with another id survives deletion. */
  lemma DeleteKeepsOthers(docs: seq<Document>, id: string)
    ensures forall i :: 0 <= i < |docs| && docs[i].id != id ==> docs[i] in DeleteWhere(docs, id)
    ensures forall d :: d in DeleteWhere(docs, id) ==> d.id != id
  {
  }

  /** After approval every record with the id is published, with no supervisor and no reviewer. */
  lemma ApprovedRecordsPublished(docs: seq<Document>, id: string, now: int)
    ensures forall d :: d in UpdateWhere(docs, id, Approve(now)) && d.id == id ==>
      d.status == Published && d.assignedSupervisor.None? && d.reviewedBy.None?
  {
    var r := UpdateWhere(docs, id, Approve(now));
    forall d | d in r && d.id == id
      ensures d.status == Published && d.assignedSupervisor.None? && d.reviewedBy.None?
    {
      var i :| 0 <= i < |r| && r[i] == d;
      assert docs[i].id == id;
      assert d == Apply(Approve(now), docs[i]);
    }
  }

  /** An approved record leaves the supervisor's review list. */
  lemma ApprovedLeavesReview(docs: seq<Document>, id: string, now: int)
    ensures forall d :: d in ReviewDocuments(UpdateWhere(docs, id, Approve(now)), Supervisor) ==> d.id != id
  {
    ApprovedRecordsPublished(docs, id, now);
  }

  /** Adding an event with a fresh id and removing that id restores the calendar. */
  lemma AddThenRemoveEvent(events: seq<CalendarEvent>, e: NewEvent, id: string)
    requires forall i :: 0 <= i < |events| ==> events[i].id != id
    ensures RemoveEventWhere(events + [CreateEvent(e, id)], id) == events
  {
    var all := events + [CreateEvent(e, id)];
    FilterKeepsAll(events, (x: CalendarEvent) => x.id != id);
    FilterAppend(events, [CreateEvent(e, id)], (x: CalendarEvent) => x.id != id);
    assert Filter([CreateEvent(e, id)], (x: CalendarEvent) => x.id != id) == [] + Filter([], (x: CalendarEvent) => x.id != id);
  }

  // ---------------------------------------------------------------------------
  // The store

  /** The catalog's state for one signed-in user. */
  class Store {
    const user: User
    var documents: seq<Document>
    var calendarEvents: seq<CalendarEvent>

    constructor (user: User, documents: seq<Document>, calendarEvents: seq<CalendarEvent>)
      ensures this.user == user && this.documents == documents && this.calendarEvents == calendarEvents
    {
      this.user := user;
      this.documents := documents;
      this.calendarEvents := calendarEvents;
    }

    /** `handleDocumentUpload`: the new record goes first. */
    method HandleDocumentUpload(p: NewDocument, id: string, now: int)
      modifies this`documents
      ensures documents == [CreateDocument(p, id, now, user.username)] + old(documents)
    {
      documents := [CreateDocument(p, id, now, user.username)] + documents;
    }

    /** `handleDocumentUpdate`: no capability check. */
    method HandleDocumentUpdate(updated: Document, now: int)
      modifies this`documents
      ensures documents == UpdateWhere(old(documents), updated.id, Replace(updated, now))
    {
      documents := UpdateWhere(documents, updated.id, Replace(updated, now));
    }

    /** `handleDeleteDocument` */
    method HandleDeleteDocument(id: string)
      modifies this`documents
      ensures documents == if CanDeleteDocuments(user.role) then DeleteWhere(old(documents), id) else old(documents)
    {
      if !CanDeleteDocuments(user.role) {
        return;
      }
      documents := DeleteWhere(documents, id);
    }

    /** `handleToggleFavorite`: no capability or visibility check. */
    method HandleToggleFavorite(id: string)
      modifies this`documents
      ensures documents == UpdateWhere(old(documents), id, ToggleFavorite(user.username))
    {
      documents := UpdateWhere(documents, id, ToggleFavorite(user.username));
    }

    /** Runs a record change only for users with edit capability. */
    method UpdateIfEditor(id: string, m: Mutation)
      modifies this`documents
      ensures documents == if HasEditPermission(user.role) then UpdateWhere(old(documents), id, m) else old(documents)
    {
      if !HasEditPermission(user.role) {
        return;
      }
      documents := UpdateWhere(documents, id, m);
    }

    /** `handleTogglePriority` */
    method HandleTogglePriority(id: string, now: int)
      modifies this`documents
      ensures documents == if HasEditPermission(user.role) then UpdateWhere(old(documents), id, TogglePriority(now)) else old(documents)
    {
      UpdateIfEditor(id, TogglePriority(now));
    }

    /** `handleToggleEvidenceRequirement` */
    method HandleToggleEvidenceRequirement(id: string, now: int)
      modifies this`documents
      ensures documents == if HasEditPermission(user.role) then UpdateWhere(old(documents), id, ToggleEvidenceRequirement(now)) else old(documents)
    {
      UpdateIfEditor(id, ToggleEvidenceRequirement(now));
    }

    /** `handleSendToReview`: checks edit capability only, not authorship. */
    method HandleSendToReview(id: string, now: int)
      modifies this`documents
      ensures documents == if HasEditPermission(user.role) then UpdateWhere(old(documents), id, SendToReview(now)) else old(documents)
    {
      UpdateIfEditor(id, SendToReview(now));
    }

    /** Runs a record change only for users with super-edit capability. */
    method UpdateIfSuperEditor(id: string, m: Mutation)
      modifies this`documents
      ensures documents == if HasSuperEditPermission(user.role) then UpdateWhere(old(documents), id, m) else old(documents)
    {
      if !HasSuperEditPermission(user.role) {
        return;
      }
      documents := UpdateWhere(documents, id, m);
    }

    /** `handleApproveDocument`: does not look at the current status. */
    method HandleApproveDocument(id: string, now: int)
      modifies this`documents
      ensures documents == if HasSuperEditPermission(user.role) then UpdateWhere(old(documents), id, Approve(now)) else old(documents)
    {
      UpdateIfSuperEditor(id, Approve(now));
    }

    /** `handleRejectDocument`: does not look at the current status. */
    method HandleRejectDocument(id: string, now: int)
      modifies this`documents
      ensures documents == if HasSuperEditPermission(user.role) then UpdateWhere(old(documents), id, Reject(now)) else old(documents)
    {
      UpdateIfSuperEditor(id, Reject(now));
    }

    /** `handleUploadEvidence`: no capability check of its own. */
    method HandleUploadEvidence(id: string, file: string)
      modifies this`documents
      ensures documents == UpdateWhere(old(documents), id, AddEvidence(user.username, file))
    {
      documents := UpdateWhere(documents, id, AddEvidence(user.username, file));
    }

    /** `handleRemoveEvidence`: no capability check of its own. */
    method HandleRemoveEvidence(id: string, file: string)
      modifies this`documents
      ensures documents == UpdateWhere(old(documents), id, RemoveEvidence(user.username, file))
    {
      documents := UpdateWhere(documents, id, RemoveEvidence(user.username, file));
    }

    /** `handleAddCalendarEvent`: the event goes last. */
    method HandleAddCalendarEvent(e: NewEvent, id: string)
      modifies this`calendarEvents
      ensures calendarEvents == old(calendarEvents) + [CreateEvent(e, id)]
    {
      calendarEvents := calendarEvents + [CreateEvent(e, id)];
    }

    /** `handleRemoveCalendarEvent` */
    method HandleRemoveCalendarEvent(id: string)
      modifies this`calendarEvents
      ensures calendarEvents == RemoveEventWhere(old(calendarEvents), id)
    {
      calendarEvents := RemoveEventWhere(calendarEvents, id);
    }
  }
}
