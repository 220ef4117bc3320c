/**
 * The upload form: choosing a file, ticking target user groups, and submitting.
 * Submission checks four guards in order, decides a status from the user's role
 * and the "send to review" switch, notifies the chosen supervisor in the review
 * case, hands a payload to the catalog and resets the form.
 */
module Upload {
  import opened Wrappers
  import opened Seqs
  import opened Types
  import opened FileUtils
  import opened FormText
  import opened Catalog

  /** The form's state hooks. `file` is the chosen file's name, if any. */
  datatype UploadFields = UploadFields(
    title: string,
    description: string,
    tags: string,
    category: string,
    detectedFileType: string,
    content: string,
    file: Option<string>,
    highPriority: bool,
    requiresEvidence: bool,
    goToReview: bool,
    assignedSupervisor: string,
    targetUserGroups: seq<Role>)

  /** The form as it starts and as a successful submission leaves it. */
  const EmptyForm: UploadFields := UploadFields("", "", "", "", "", "", None, false, false, false, "", [])

  /** Why a submission is refused, one case per guard. */
  datatype UploadError =
    | MissingFields
    | NoUserGroups
    | NoSupervisor
    | UnsupportedFileType(fileType: string)

  /** The e-mail stub's arguments: recipient, subject and body. */
  datatype Notification = Notification(to: string, subject: string, message: string)

  /** The guards of `handleSubmit`, in order; the first that fails decides the error. */
  function Validate(f: UploadFields): Option<UploadError> {
    if f.title == "" || f.description == "" || f.category == "" || f.content == "" then Some(MissingFields)
    else if f.targetUserGroups == [] then Some(NoUserGroups)
    else if f.goToReview && f.assignedSupervisor == "" then Some(NoSupervisor)
    else if f.file.Some? && f.detectedFileType != "" && !IsValidFileType(f.detectedFileType) then
      Some(UnsupportedFileType(f.detectedFileType))
    else None
  }

  /** The status `handleSubmit` decides: review for an editor who asks for it, published for a super-editor, draft otherwise. */
  function DecideStatus(goToReview: bool, role: Role): Status {
    if goToReview && HasEditPermission(role) && !HasSuperEditPermission(role) then Review
    else if !HasSuperEditPermission(role) then Draft
    else Published
  }

  /** The notification sent to the supervisor when a document goes to review. */
  function ReviewNotice(f: UploadFields, username: string): Notification {
    Notification(
      f.assignedSupervisor,
      "Nuevo documento para revisi\U{00F3}n",
      "El usuario " + username + " ha enviado el documento \"" + f.title + "\" para su revisi\U{00F3}n.")
  }

  /** The object `handleSubmit` passes to `onUpload`. It carries no `status`, so the record the catalog creates from it has none. */
  function Payload(f: UploadFields, username: string): NewDocument {
    NewDocument(
      f.title, f.content, f.category, ParseTags(f.tags), None, Unset,
      if f.highPriority then High else Normal,
      f.requiresEvidence,
      if f.goToReview then Some(f.assignedSupervisor) else None,
      f.targetUserGroups,
      if f.goToReview then Some(username) else None)
  }

  /** The payload with the decided status included, as the status decision evidently intends. */
  function CorrectedPayload(f: UploadFields, user: User): NewDocument {
    Payload(f, user.username).(status := DecideStatus(f.goToReview, user.role))
  }

  /** `handleUserGroupToggle`: ticking appends the role, unticking removes every copy of it. */
  function ToggleGroup(groups: seq<Role>, role: Role, checked: bool): seq<Role> {
    if checked then groups + [role] else RemoveAll(groups, role)
  }

  // ---------------------------------------------------------------------------
  // Properties

  /** A submission passes exactly when every required field is filled, a group is chosen, a reviewer is named if review is asked for, and a chosen file has an accepted type. */
  lemma AcceptedIff(f: UploadFields)
    ensures Validate(f).None? <==>
      && f.title != "" && f.description != "" && f.category != "" && f.content != ""
      && |f.targetUserGroups| > 0
      && (f.goToReview ==> f.assignedSupervisor != "")
      && (f.file.Some? && f.detectedFileType != "" ==> IsValidFileType(f.detectedFileType))
  {
  }

  /** The first failing guard wins: each error is reported exactly when its own guard fails and every earlier guard passed. */
  lemma GuardOrder(f: UploadFields)
    ensures Validate(f) == Some(MissingFields) <==>
      f.title == "" || f.description == "" || f.category == "" || f.content == ""
    ensures Validate(f) == Some(NoUserGroups) <==>
      && f.title != "" && f.description != "" && f.category != "" && f.content != ""
      && f.targetUserGroups == []
    ensures Validate(f) == Some(NoSupervisor) <==>
      && f.title != "" && f.description != "" && f.category != "" && f.content != ""
      && f.targetUserGroups != []
      && f.goToReview && f.assignedSupervisor == ""
    ensures forall t :: Validate(f) == Some(UnsupportedFileType(t)) <==>
      && f.title != "" && f.description != "" && f.category != "" && f.content != ""
      && f.targetUserGroups != []
      && (f.goToReview ==> f.assignedSupervisor != "")
      && f.file.Some? && f.detectedFileType != "" && !IsValidFileType(f.detectedFileType)
      && t == f.detectedFileType
  {
  }

  /** With a file chosen through the form, the detected type is never empty, so an unaccepted type always blocks the submission. */
  lemma UnsupportedFileBlocks(f: UploadFields, name: string)
    requires f.title != "" && f.description != "" && f.category != "" && f.content != ""
    requires f.targetUserGroups != [] && (f.goToReview ==> f.assignedSupervisor != "")
    requires f.file == Some(name) && f.detectedFileType == DetectFileType(name)
    ensures Validate(f).None? <==> IsValidFileType(DetectFileType(name))
  {
    DetectNeverEmpty(name);
  }

  /** The status table: review exactly for an editor without super-edit who asks for it; published for the supervisor; draft otherwise. */
  lemma StatusByRole(goToReview: bool, role: Role)
    ensures DecideStatus(goToReview, role) == Review <==> goToReview && role == CorporativoPlus
    ensures DecideStatus(goToReview, role) == Published <==> role == Supervisor
    ensures DecideStatus(goToReview, role) == Draft <==>
      role == Corporativo || role == PersonalTienda || (role == CorporativoPlus && !goToReview)
  {
  }

  /** The payload names the supervisor and the reviewer exactly when review was asked for. */
  lemma ReviewFieldsFollowSwitch(f: UploadFields, username: string)
    ensures Payload(f, username).assignedSupervisor.Some? <==> f.goToReview
    ensures Payload(f, username).reviewedBy.Some? <==> f.goToReview
    ensures f.goToReview ==> Payload(f, username).assignedSupervisor == Some(f.assignedSupervisor)
    ensures f.goToReview ==> Payload(f, username).reviewedBy == Some(username)
  {
  }

  /** The payload's tags are non-empty, trimmed and comma-free. */
  lemma PayloadTagsAreTags(f: UploadFields, username: string)
    ensures forall i :: 0 <= i < |Payload(f, username).tags| ==> IsTag(Payload(f, username).tags[i])
  {
    ParsedTagsAreTags(f.tags);
  }

  /** Ticking a role that was not chosen and unticking it restores the choice. */
  lemma ToggleGroupTwice(groups: seq<Role>, role: Role)
    requires role !in groups
    ensures ToggleGroup(ToggleGroup(groups, role, true), role, false) == groups
  {
    RemoveAllAfterAppend(groups, role);
  }

  /** Unticking leaves no copy of the role and keeps every other role. */
  lemma UntickRemovesRole(groups: seq<Role>, role: Role)
    ensures role !in ToggleGroup(groups, role, false)
    ensures forall r :: r != role ==> (r in ToggleGroup(groups, role, false) <==> r in groups)
  {
  }

  /** As written, the record the catalog creates from an upload has no status and so is visible to nobody, its author included. */
  lemma UploadedRecordInvisible(f: UploadFields, uploader: User, id: string, now: int, role: Role, viewer: string)
    ensures !CanViewDocument(role, CreateDocument(Payload(f, uploader.username), id, now, uploader.username), viewer)
  {
  }

  /** With the decided status in the payload, an accepted upload is visible: drafts and reviews to the uploader, published records to every target role. */
  lemma CorrectedUploadVisible(f: UploadFields, uploader: User, id: string, now: int)
    requires Validate(f).None?
    ensures var d := CreateDocument(CorrectedPayload(f, uploader), id, now, uploader.username);
      && (d.status != Published ==> CanViewDocument(uploader.role, d, uploader.username))
      && (forall r :: r in f.targetUserGroups ==> d.status == Published ==> CanViewDocument(r, d, uploader.username))
      && exists r :: CanViewDocument(r, d, uploader.username)
  {
    var d := CreateDocument(CorrectedPayload(f, uploader), id, now, uploader.username);
    if d.status == Published {
      assert CanViewDocument(f.targetUserGroups[0], d, uploader.username);
    } else {
      assert CanViewDocument(uploader.role, d, uploader.username);
    }
  }

  // ---------------------------------------------------------------------------
  // The form component

  class UploadForm {
    const user: User
    var form: UploadFields
    var error: Option<UploadError>

    constructor (user: User)
      ensures this.user == user && form == EmptyForm && error.None?
    {
      this.user := user;
      form := EmptyForm;
      error := None;
    }

    /** `handleFileChange`: records the file, fills an empty title from the file name, detects the type and clears the error. */
    method HandleFileChange(selected: Option<string>)
      modifies this
      ensures selected.None? ==> form == old(form) && error == old(error)
      ensures selected.Some? ==>
        && form == old(form).(
             file := selected,
             title := if old(form).title == "" then StripExtension(selected.value) else old(form).title,
             detectedFileType := DetectFileType(selected.value))
        && error.None?
    {
      if selected.Some? {
        var name := selected.value;
        form := form.(file := selected);
        if form.title == "" {
          form := form.(title := StripExtension(name));
        }
        form := form.(detectedFileType := DetectFileType(name));
        error := None;
      }
    }

    /** `handleUserGroupToggle` */
    method HandleUserGroupToggle(role: Role, checked: bool)
      modifies this`form
      ensures form == old(form).(targetUserGroups := ToggleGroup(old(form).targetUserGroups, role, checked))
    {
      if checked {
        form := form.(targetUserGroups := form.targetUserGroups + [role]);
      } else {
        form := form.(targetUserGroups := RemoveAll(form.targetUserGroups, role));
      }
    }

    /**
     * `handleSubmit`: on a failing guard, records the error and uploads nothing;
     * otherwise decides the status, notifies the supervisor in the review case,
     * returns the payload for `onUpload` and resets the form. The decided status
     * is returned for inspection only: the payload does not carry it.
     */
    method HandleSubmit() returns (uploaded: Option<NewDocument>, decided: Option<Status>, notice: Option<Notification>)
      modifies this
      ensures Validate(old(form)).Some? ==>
        && uploaded.None? && decided.None? && notice.None?
        && error == Validate(old(form)) && form == old(form)
      ensures Validate(old(form)).None? ==>
        && uploaded == Some(Payload(old(form), user.username))
        && decided == Some(DecideStatus(old(form).goToReview, user.role))
        && (notice.Some? <==> decided == Some(Review))
        && (notice.Some? ==> notice.value == ReviewNotice(old(form), user.username))
        && error.None? && form == EmptyForm
    {
      error := None;
      uploaded, decided, notice := None, None, None;
      var f := form;
      if f.title == "" || f.description == "" || f.category == "" || f.content == "" {
        error := Some(MissingFields);
        return;
      }
      if f.targetUserGroups == [] {
        error := Some(NoUserGroups);
        return;
      }
      if f.goToReview && f.assignedSupervisor == "" {
        error := Some(NoSupervisor);
        return;
      }
      if f.file.Some? && f.detectedFileType != "" && !IsValidFileType(f.detectedFileType) {
        error := Some(UnsupportedFileType(f.detectedFileType));
        return;
      }

      var status := Published;
      if f.goToReview && HasEditPermission(user.role) && !HasSuperEditPermission(user.role) {
        status := Review;
        if f.assignedSupervisor != "" {
          notice := Some(ReviewNotice(f, user.username));
        }
      } else if !HasSuperEditPermission(user.role) {
        status := Draft;
      }
      decided := Some(status);

      uploaded := Some(Payload(f, user.username));
      form := EmptyForm;
    }
  }
}
