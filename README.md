# Velora document catalog — a verified model of its policy and lifecycle core

Velora is a document catalog for a retail organisation. Users have one of four roles:
corporativo, corporativo-plus, personal-tienda and supervisor. They browse, search, upload,
edit, review, approve and reject documents. Shop users attach PDF evidence, and editors keep
a shared calendar. Underneath the React views is a small, sequential engine. This project
models that engine in Dafny and proves what it promises:

- `Types`: the roles, the document and calendar-event records, the five capability predicates, the role display names and the visibility rule `canViewDocument`.
- `Catalog`: the catalog's store, a `Store` class holding the `documents` and `calendarEvents` lists. Each handler replaces records by id. Also the three queries over the list: the filtered view, the category list and the supervisor's review list.
- `TextUtils` (with `Casing`): accent- and case-insensitive search. It lower-cases, applies canonical decomposition (NFD, Unicode Standard Annex #15), strips the Combining Diacritical Marks block U+0300..U+036F, then tests substring containment.
- `FileUtils`: file-type detection from a name, the list of accepted types, their descriptions, and the "name without extension" used as a default title.
- `FormText`: JavaScript `trim`, `split(',')` and the comma-separated tag parsing both forms use.
- `Upload` and `Edit`: the upload and edit forms. Each has its guards in order, the status decision, the payload or edited record, and the title rules.
- `ReviewQueue`, `Evidence`, `Preview`, `Carousel`, `Calendar`: the review list, the evidence uploader, the preview modal's gating, the recent-documents carousel with its in-place sort and clamped page index, and the calendar's day selection and event query.
- `Wrappers` and `Seqs` hold shared helpers: `Option`, map lookup with a default, filtering, subsequences, removal and deduplication.

Components whose state changes step by step are classes: `Store`, `UploadForm`, `EditForm`,
`EvidenceUploader`, `Pager` and `CalendarForm`. Their fields are the component's state hooks,
and each handler is a method proved against the pure function that specifies it. The carousel
sorts the array it is handed in place, so its sort is an array method; that array is the
catalog's own `documents` state, so rendering the carousel reorders the store. Everything else is
functions and lemmas.

Where the code and the design notes disagree, the model follows the code:

- A document in review is visible to corporativo-plus as well as to supervisors and its author (`src/components/types.ts:77`).
- An attached file of an unaccepted type rejects the upload or the edit rather than only warning, although the message calls it a warning (`src/components/DocumentUpload.tsx:101-104`, `src/components/DocumentEdit.tsx:77-80`).

## Model

| member | source | states |
|---|---|---|
| Types.ReadIsUniversal | src/components/types.ts:39-41 | every role may read |
| Types.EditRoles | src/components/types.ts:43-45 | edit capability holds exactly for corporativo-plus and supervisor |
| Types.SuperEditAndDeleteRoles | src/components/types.ts:47-53 | super-edit and delete hold exactly for supervisor, and each implies edit |
| Types.EvidenceRolesExcludeEditors | src/components/types.ts:43-61 | evidence upload holds exactly for corporativo and personal-tienda; no role both edits and uploads evidence, and every role does one of the two |
| Types.CalendarFollowsEdit | src/components/types.ts:55-57 | calendar management agrees with edit capability on every role |
| Types.RoleNameInjective | src/components/types.ts:63-71 | distinct roles have distinct display names |
| Types.ReviewVisibility | src/components/types.ts:76-78 | a document in review is visible iff the role is corporativo-plus or supervisor or the user is its author |
| Types.PublishedVisibility | src/components/types.ts:81-83 | a published document is visible iff the role is among its target groups, whoever the user is |
| Types.DraftVisibility | src/components/types.ts:86-88 | a draft is visible iff the user is its author, whatever the role |
| Types.UnsetInvisible | src/components/types.ts:90 | a record without a status is visible to nobody |
| Wrappers.Lookup | src/components/EvidenceUploader.tsx:33 | a present key gives its value; an absent key gives the default |
| Catalog.UpdateWhere | src/components/DocumentCatalog.tsx:262-271 | the list keeps its length; each record with the id is changed and every other record is unchanged, position by position |
| Catalog.DeleteWhere | src/components/DocumentCatalog.tsx:276 | exactly the records with another id remain, each as often as it was stored, in their original order |
| Catalog.RemoveEventWhere | src/components/DocumentCatalog.tsx:432-434 | exactly the events with another id remain, each as often as it was stored, in their original order |
| Catalog.FilteredDocuments | src/components/DocumentCatalog.tsx:223-242 | a document is listed iff it is stored, visible to the user and passes the search, category, status, priority and favourites filters; each listed document occurs as often as it is stored, and the list is an order-preserving subsequence of the store |
| Catalog.InitialFiltersShowVisible | src/components/DocumentCatalog.tsx:230-240 | with an empty search, "all" filters and favourites off, the list is exactly the visible documents in stored order |
| Catalog.Categories | src/components/DocumentCatalog.tsx:218-221 | a category is listed iff some document uses it, none is listed twice, and they are listed in the order of their first use in the stored list |
| Catalog.ReviewDocuments | src/components/DocumentCatalog.tsx:370-373 | empty without super-edit; otherwise exactly the documents in review, each as often as it is stored, as an order-preserving subsequence |
| Catalog.ToggleFavoriteFlips | src/components/DocumentCatalog.tsx:281-292 | the user's flag flips, an absent flag counting as off; other users' flags, lastModified and every other field are unchanged |
| Catalog.ToggleFavoriteTwice | src/components/DocumentCatalog.tsx:281-292 | two toggles restore the user's flag |
| Catalog.TogglePriorityTwice | src/components/DocumentCatalog.tsx:299-315 | two priority toggles restore the record except its timestamp |
| Catalog.ToggleEvidenceRequirementTwice | src/components/DocumentCatalog.tsx:317-333 | two requirement toggles restore the record except its timestamp |
| Catalog.SendToReviewOpensReview | src/components/DocumentCatalog.tsx:335-349 | after send-to-review the record is visible exactly to corporativo-plus, supervisors and its author; reviewer and assignment are untouched |
| Catalog.ApprovePublishes | src/components/DocumentCatalog.tsx:351-367 | approval publishes whatever the prior status, clears supervisor and reviewer, and shows the record exactly to its target roles |
| Catalog.RejectReturnsToDraft | src/components/DocumentCatalog.tsx:375-391 | rejection returns any record to draft, clears supervisor and reviewer, and leaves it visible to its author alone |
| Catalog.AddEvidenceAppends | src/components/DocumentCatalog.tsx:393-408 | the file is appended to the user's list, which is created if absent; other users' lists are untouched |
| Catalog.RemoveEvidenceDropsEveryCopy | src/components/DocumentCatalog.tsx:410-422 | every copy of the file leaves the user's list, every other file stays, and other users' lists are untouched |
| Catalog.AddThenRemoveEvidence | src/components/DocumentCatalog.tsx:393-422 | uploading a new file and removing it restores the user's list |
| Catalog.UpdateAbsentId | src/components/DocumentCatalog.tsx:262-271 | an id no record carries leaves the list unchanged |
| Catalog.DeleteKeepsOthers | src/components/DocumentCatalog.tsx:273-279 | every record with another id survives deletion, and none with the id does |
| Catalog.ApprovedRecordsPublished | src/components/DocumentCatalog.tsx:351-367 | after approval every record with the id is published with no supervisor and no reviewer |
| Catalog.ApprovedLeavesReview | src/components/DocumentCatalog.tsx:351-373 | an approved record leaves the supervisor's review list |
| Catalog.AddThenRemoveEvent | src/components/DocumentCatalog.tsx:424-434 | adding an event with a fresh id and removing that id restores the calendar |
| Catalog.Store.constructor | src/components/DocumentCatalog.tsx:198-199 | the store starts with the given user, documents and events |
| Catalog.Store.HandleDocumentUpload | src/components/DocumentCatalog.tsx:244-253 | the new record, authored by the user with no evidence and no favourites, goes first |
| Catalog.Store.HandleDocumentUpdate | src/components/DocumentCatalog.tsx:262-271 | each record with the id is replaced by the update with a fresh timestamp, without a capability check |
| Catalog.Store.HandleDeleteDocument | src/components/DocumentCatalog.tsx:273-279 | no change without delete capability; otherwise the records with the id are removed |
| Catalog.Store.HandleToggleFavorite | src/components/DocumentCatalog.tsx:281-292 | the user's favourite flag is toggled on the matching records, without a capability or visibility check |
| Catalog.Store.HandleTogglePriority | src/components/DocumentCatalog.tsx:299-315 | no change without edit capability; otherwise the matching records' priority is toggled |
| Catalog.Store.HandleToggleEvidenceRequirement | src/components/DocumentCatalog.tsx:317-333 | no change without edit capability; otherwise the matching records' evidence requirement is toggled |
| Catalog.Store.HandleSendToReview | src/components/DocumentCatalog.tsx:335-349 | no change without edit capability; otherwise the matching records go to review, whoever wrote them |
| Catalog.Store.HandleApproveDocument | src/components/DocumentCatalog.tsx:351-367 | no change without super-edit; otherwise the matching records are approved whatever their status |
| Catalog.Store.HandleRejectDocument | src/components/DocumentCatalog.tsx:375-391 | no change without super-edit; otherwise the matching records are rejected whatever their status |
| Catalog.Store.HandleUploadEvidence | src/components/DocumentCatalog.tsx:393-408 | the file is added to the user's evidence on the matching records, without a capability check |
| Catalog.Store.HandleRemoveEvidence | src/components/DocumentCatalog.tsx:410-422 | the file is removed from the user's evidence on the matching records, without a capability check |
| Catalog.Store.HandleAddCalendarEvent | src/components/DocumentCatalog.tsx:424-430 | the new event goes last |
| Catalog.Store.HandleRemoveCalendarEvent | src/components/DocumentCatalog.tsx:432-434 | the events with the id are removed |
| Casing.Lower | src/components/utils/textUtils.ts:7 | same length, each character lower-cased |
| Casing.UpperAfterLower | src/components/utils/fileUtils.ts:7-47 | upper-casing a lower-cased text equals upper-casing the text |
| Casing.LowerIdempotent | src/components/utils/textUtils.ts:7 | lower-casing twice is lower-casing once |
| TextUtils.NormalizedHasNoMarks | src/components/utils/textUtils.ts:5-10 | a normalised text holds no code point of U+0300..U+036F |
| TextUtils.NormalizeIdempotent | src/components/utils/textUtils.ts:5-10 | normalising twice is normalising once |
| TextUtils.LowerPlainTextIsNormal | src/components/utils/textUtils.ts:5-10 | unaccented lower-case text is its own normal form |
| TextUtils.IncludesEmpty | src/components/utils/textUtils.ts:15-17 | the empty search term matches every text |
| TextUtils.IncludesSelf | src/components/utils/textUtils.ts:15-17 | every text matches itself |
| TextUtils.NormalFormDecides | src/components/utils/textUtils.ts:15-17 | needles with the same normal form find the same texts |
| TextUtils.IncludesTransitive | src/components/utils/textUtils.ts:15-17 | containment is transitive |
| TextUtils.IncludesExtends | src/components/utils/textUtils.ts:15-17 | appending text after a match keeps the match |
| TextUtils.SameNormalForm | src/components/utils/textUtils.ts:5-10 | texts that agree letter by letter up to case and accents normalise alike |
| TextUtils.CaseIgnored | src/components/utils/textUtils.ts:7 | a letter and its capital normalise alike |
| TextUtils.AccentIgnored | src/components/utils/textUtils.ts:8-9 | an accented letter normalises to its base letter |
| TextUtils.CaseAndAccentInsensitive | src/components/utils/textUtils.ts:15-17 | needles that agree up to case and accents find the same texts |
| TextUtils.MissingLetterNotFound | src/components/utils/textUtils.ts:15-17 | a needle holding a letter absent from the text in every case and accent form is not found |
| FileUtils.LastSegmentIsLongestDotFreeSuffix | src/components/utils/fileUtils.ts:7 | the extension is the longest dot-free suffix of the name |
| FileUtils.Get | src/components/utils/fileUtils.ts:12-47 | a found value belongs to an entry with that key; a miss means no entry has the key |
| FileUtils.NoExtensionIsUnknown | src/components/utils/fileUtils.ts:5-9 | an empty name, or one ending in a dot, is UNKNOWN |
| FileUtils.TableIsUpperCased | src/components/utils/fileUtils.ts:12-45 | every table entry maps an extension to its own upper-case spelling |
| FileUtils.DetectIsUpperExtension | src/components/utils/fileUtils.ts:4-48 | for a non-empty extension the detected type is the upper-cased extension |
| FileUtils.DetectNeverEmpty | src/components/utils/fileUtils.ts:4-48 | a detected type is never empty |
| FileUtils.LastSegmentOfLower | src/components/utils/fileUtils.ts:7 | lower-casing commutes with taking the extension |
| FileUtils.DetectIgnoresCase | src/components/utils/fileUtils.ts:7-47 | names equal up to case get the same type |
| FileUtils.ValidTypesAreUpper | src/components/utils/fileUtils.ts:53-60 | accepted types are upper-case |
| FileUtils.ValidTypesDetected | src/components/utils/fileUtils.ts:4-60 | a name whose extension is an accepted type in any case is detected as that type |
| FileUtils.DescribedIffValid | src/components/utils/fileUtils.ts:65-80 | exactly the accepted types have their own description; every other label gets "Archivo " and the label |
| FileUtils.StripExtensionOfJoin | src/components/DocumentUpload.tsx:60 | removing the extension undoes appending a dot-free, slash-free one |
| FileUtils.StripExtensionWithoutDot | src/components/DocumentEdit.tsx:44 | a name without a dot is kept whole |
| FormText.TrimRemovesExactlyOuterSpaces | src/components/DocumentUpload.tsx:126 | trimming keeps the block between the leading and trailing white space and leaves a trimmed text |
| FormText.TrimKeepsTrimmed | src/components/DocumentUpload.tsx:126 | trimming a trimmed text changes nothing |
| FormText.SplitPiecesAvoidSeparator | src/components/DocumentUpload.tsx:126 | no piece of a split holds the separator |
| FormText.SplitAround | src/components/DocumentUpload.tsx:126 | splitting at the first separator gives the text before it, then the split of the rest |
| FormText.ParsedTagsAreTags | src/components/DocumentUpload.tsx:126 | every parsed tag is non-empty, trimmed and comma-free |
| FormText.ParseTagsAround | src/components/DocumentUpload.tsx:126 | parsing respects concatenation at a comma |
| FormText.ParseShowTags | src/components/DocumentEdit.tsx:33-90 | parsing the ", "-joined tags gives them back when each is a well-formed tag |
| FormText.ParseTagsSkipsLeadingSpace | src/components/DocumentEdit.tsx:90 | a leading space does not change the parsed tags |
| Upload.AcceptedIff | src/components/DocumentUpload.tsx:85-104 | a submission passes iff the four fields are filled, a group is chosen, a supervisor is named when review is asked, and a chosen file's detected type is accepted |
| Upload.GuardOrder | src/components/DocumentUpload.tsx:85-104 | the guards run in order and the first failure decides the error: each error is reported iff its own guard fails and every earlier guard passes, and an unsupported type is reported with the detected type |
| Upload.UnsupportedFileBlocks | src/components/DocumentUpload.tsx:101-104 | with a file chosen through the form, an unaccepted type always blocks the submission |
| Upload.StatusByRole | src/components/DocumentUpload.tsx:107-120 | review iff review is asked by corporativo-plus; published iff supervisor; draft otherwise |
| Upload.ReviewFieldsFollowSwitch | src/components/DocumentUpload.tsx:129-131 | the supervisor and the reviewer are set, to the chosen supervisor and the user, exactly when review is asked |
| Upload.PayloadTagsAreTags | src/components/DocumentUpload.tsx:126 | the payload's tags are non-empty, trimmed and comma-free |
| Upload.ToggleGroupTwice | src/components/DocumentUpload.tsx:73-79 | ticking a new role then unticking it restores the choice |
| Upload.UntickRemovesRole | src/components/DocumentUpload.tsx:73-79 | unticking removes every copy of the role and keeps the others |
| Upload.UploadedRecordInvisible | src/components/DocumentUpload.tsx:122-132 | as written, the uploaded record has no status and is visible to nobody |
| Upload.CorrectedUploadVisible | src/components/DocumentUpload.tsx:107-132 | with the decided status in the payload, an accepted upload is visible to its author or to its target roles |
| Upload.UploadForm.constructor | src/components/DocumentUpload.tsx:32-47 | the form starts empty with no error |
| Upload.UploadForm.HandleFileChange | src/components/DocumentUpload.tsx:53-71 | a chosen file is recorded, fills an empty title with the name without extension, sets the detected type and clears the error |
| Upload.UploadForm.HandleUserGroupToggle | src/components/DocumentUpload.tsx:73-79 | the chosen groups become the toggled list |
| Upload.UploadForm.HandleSubmit | src/components/DocumentUpload.tsx:81-147 | a failing guard records its error and uploads nothing; otherwise the payload is returned, the supervisor is notified exactly in the review case, and the form is reset |
| Edit.EditAcceptedIff | src/components/DocumentEdit.tsx:71-80 | a save passes iff title, category and content are filled and a new file's detected type, if any, is accepted |
| Edit.EditKeepsOtherFields | src/components/DocumentEdit.tsx:85-91 | the saved record differs from the original only in title, category, content and tags |
| Edit.UntouchedSaveIsIdentity | src/components/DocumentEdit.tsx:30-91 | saving an untouched form gives back the document when its tags are well formed |
| Edit.TypedTitleSurvivesFileChange | src/components/DocumentEdit.tsx:44-47 | a typed title, neither blank nor the original, survives choosing a file |
| Edit.ChooseThenRemoveRestoresTitle | src/components/DocumentEdit.tsx:44-64 | choosing a file on an untouched title and then removing it restores the original title |
| Edit.EditForm.constructor | src/components/DocumentEdit.tsx:30-36 | the form opens on the document's fields with its tags joined by ", " |
| Edit.EditForm.HandleFileChange | src/components/DocumentEdit.tsx:38-56 | a chosen file is recorded, sets the title by the file-change rule and the detected type, and clears the error |
| Edit.EditForm.HandleRemoveNewFile | src/components/DocumentEdit.tsx:58-65 | the file and its type are cleared and the title follows the restore rule |
| Edit.EditForm.HandleSubmit | src/components/DocumentEdit.tsx:67-94 | the error is the first failing guard; a record is saved iff there is none, and it is the edited record |
| ReviewQueue.ReviewList | src/components/ReviewManager.tsx:23-26 | every listed document is stored and in review; each qualifying document occurs as often as it is stored and no other occurs; the list is an order-preserving subsequence |
| ReviewQueue.SupervisorSeesAllReviews | src/components/ReviewManager.tsx:25 | a supervisor's list is the catalog's review list |
| ReviewQueue.OthersSeeTheirAssignments | src/components/ReviewManager.tsx:25 | anyone else sees exactly the documents in review assigned to them, each as often as it is stored |
| ReviewQueue.EmptyIffNoneQualifies | src/components/ReviewManager.tsx:40 | the empty state shows iff no document qualifies |
| ReviewQueue.ApprovedLeavesEveryList | src/components/ReviewManager.tsx:23-29 | an approved document leaves every user's list |
| Evidence.AcceptedIff | src/components/EvidenceUploader.tsx:38-46 | a file is accepted iff it is a PDF of at most 10 MiB; the MIME check comes first |
| Evidence.LimitIsInclusive | src/components/EvidenceUploader.tsx:42-45 | exactly 10 MiB passes and one byte more is too large |
| Evidence.UploadOfferedIff | src/components/EvidenceUploader.tsx:32 | upload is offered iff the role uploads evidence and the document requires it; never to an editor |
| Evidence.NoEntryNoEvidence | src/components/EvidenceUploader.tsx:33 | a user without an entry has no evidence |
| Evidence.UploadCallAppends | src/components/EvidenceUploader.tsx:58 | the call appends the file to the uploader's list on each matching record and to nobody else's |
| Evidence.SuccessfulUploadReportsFailure | src/components/EvidenceUploader.tsx:59-65 | as written, a successful upload shows a failure notice after the success notice |
| Evidence.CorrectedUploadReportsSuccessOnly | src/components/EvidenceUploader.tsx:59-61 | corrected, a successful upload shows one notice, a success: the written notices without the catch's failure |
| Evidence.EvidenceUploader.constructor | src/components/EvidenceUploader.tsx:21-31 | nothing is selected and nothing is uploading |
| Evidence.EvidenceUploader.HandleFileSelect | src/components/EvidenceUploader.tsx:35-48 | a refused file leaves the selection; an accepted one replaces it; a selected file always passed the checks |
| Evidence.EvidenceUploader.HandleUpload | src/components/EvidenceUploader.tsx:50-69 | without a selection nothing happens; otherwise the catalog is called once with the document id and file name, the selection is cleared and the busy flag ends false; the notices are the written success-then-failure pair, or the success alone when the reset addresses the page's file input |
| Preview.FavoriteIff | src/components/DocumentPreviewModal.tsx:43 | the favourite mark shows iff the user's entry is present and true |
| Preview.HasEvidenceIff | src/components/DocumentPreviewModal.tsx:44-45 | the evidence mark shows iff the user's list is present and non-empty |
| Preview.EditOfferedIff | src/components/DocumentPreviewModal.tsx:112 | editing is offered iff the role edits and the document is not published |
| Preview.EditAndEvidenceExclusive | src/components/DocumentPreviewModal.tsx:41-42 | the modal never offers both editing and evidence upload |
| Preview.EditActionAfterReview | src/components/DocumentPreviewModal.tsx:112 | approval removes the edit action; rejection restores it for every editor |
| Preview.StatusBadgeFallback | src/components/DocumentPreviewModal.tsx:47-54 | an unknown status shows the draft badge; the three known statuses have three different badges |
| Preview.PriorityBadgeOnlyHigh | src/components/DocumentPreviewModal.tsx:65-75 | the priority badge appears iff priority is high |
| Carousel.SortByRecency | src/components/RecentDocumentsCarousel.tsx:18 | the array ends newest first and a permutation of itself |
| Carousel.Sink | src/components/RecentDocumentsCarousel.tsx:18 | one insertion step extends the sorted prefix by one and keeps the contents |
| Carousel.SunkIsSorted | src/components/RecentDocumentsCarousel.tsx:18 | where an insertion step stops, the prefix is sorted |
| Carousel.Swap | src/components/RecentDocumentsCarousel.tsx:18 | two elements are exchanged and the contents kept |
| Carousel.RecentDocuments | src/components/RecentDocumentsCarousel.tsx:17-19 | the array is permuted in place and left newest first; the result is its first up-to-six documents, and none left out is newer than one shown |
| Carousel.RenderCarousel | src/components/DocumentCatalog.tsx:549-554 | for editors and super-editors the catalog's own list is sorted in place, keeping its contents and ending newest first, and the first up-to-six are shown; for other users nothing changes and nothing is shown |
| Carousel.SortedCatalogFiltersSorted | src/components/DocumentCatalog.tsx:223-242 | once the list is newest first, every filtered view of it is newest first too |
| Carousel.MaxIndex | src/components/RecentDocumentsCarousel.tsx:21-22 | zero for at most three documents; otherwise the start of the last full page |
| Carousel.NextBounded | src/components/RecentDocumentsCarousel.tsx:24-26 | next stays in range, steps by one below the last page and does nothing on it |
| Carousel.PrevBounded | src/components/RecentDocumentsCarousel.tsx:28-30 | previous stays in range, steps back by one above zero and does nothing at zero |
| Carousel.NextThenPrev | src/components/RecentDocumentsCarousel.tsx:24-30 | next then previous returns to a page below the last |
| Carousel.PressesStayInRange | src/components/RecentDocumentsCarousel.tsx:14-30 | any run of presses from a valid index keeps it in range |
| Carousel.SmallSelectionIsEverything | src/components/RecentDocumentsCarousel.tsx:17-19 | with at most six documents all are shown |
| Carousel.ShowsDraftOfAnotherAuthor | src/components/DocumentCatalog.tsx:551-552 | as written, an editor's carousel shows another author's draft the editor may not view |
| Carousel.ShowsOnlyVisible | src/components/RecentDocumentsCarousel.tsx:17-19 | given the visible documents, the carousel shows only documents the user may view |
| Carousel.Pager.constructor | src/components/RecentDocumentsCarousel.tsx:14 | the index starts at zero, in range |
| Carousel.Pager.NextSlide | src/components/RecentDocumentsCarousel.tsx:24-26 | the index moves by the next rule and stays in range |
| Carousel.Pager.PrevSlide | src/components/RecentDocumentsCarousel.tsx:28-30 | the index moves by the previous rule and stays in range |
| Calendar.FindSameDay | src/components/CalendarManager.tsx:58 | the first index whose date is on the day, or -1 when none is |
| Calendar.EventsByDates | src/components/CalendarManager.tsx:46-54 | exactly the events with a date on a selected day, each as often as it is stored, as an order-preserving subsequence |
| Calendar.ClickUnselectedAppends | src/components/CalendarManager.tsx:62-64 | clicking an unselected day appends it |
| Calendar.ClickSelectedRemovesOne | src/components/CalendarManager.tsx:58-61 | clicking a selected day removes its first entry and keeps the rest in order |
| Calendar.ClickTwiceRestores | src/components/CalendarManager.tsx:56-67 | clicking an unselected day twice restores the selection |
| Calendar.ClickToggles | src/components/CalendarManager.tsx:56-67 | the day is selected after a click iff it was not before, and no day is ever selected twice |
| Calendar.NoSelectionNoEvents | src/components/CalendarManager.tsx:46-54 | an empty selection lists no event |
| Calendar.AddedEventIsListed | src/components/CalendarManager.tsx:46-54 | an added event is listed for any selection touching one of its days |
| Calendar.CalendarForm.constructor | src/components/CalendarManager.tsx:34-43 | the form starts empty with the default colour |
| Calendar.CalendarForm.HandleDateClick | src/components/CalendarManager.tsx:56-67 | the selection follows the click rule |
| Calendar.CalendarForm.HandleAddEvent | src/components/CalendarManager.tsx:69-88 | refused, changing nothing, with no day or a blank title; otherwise the event carries a copy of the selection and the user as creator, and the form, selection and dialog are reset |

## Left out

- Rendering, dialogs, icons, toasts other than the evidence uploader's, and styling are not modelled. This includes the calendar's day modifiers and the carousel's percentage transforms, which are floating point.
- Error and notice texts are not modelled. Each refusal is a constructor of an error datatype instead.
- `Casing`: `toLowerCase` and `toUpperCase` are modelled on ASCII letters and the Spanish accented letters only. Other characters are left as they are.
- `TextUtils.Nfd`: canonical decomposition covers the Spanish accented letters only. Other characters decompose to themselves.
- Clocks and ids (`Date.now()`, `new Date()`) are parameters. Timestamps are integers.
- Calendar dates are modelled as a day number and a time. `toDateString` equality is the same day. Locale formatting is left out.
- `sendEmailNotification` is modelled as the `Notification` value that `Upload.UploadForm.HandleSubmit` returns. Its console output is left out.
- `FileUtils.Get`: object lookups, here and for `isFavorite` and `evidenceFiles`, ignore inherited prototype keys. A file named like a prototype member such as `constructor` is treated as an ordinary extension.
- `Carousel.SortByRecency`: proves the sorted order and the permutation but not the stability of the engine's sort.
- `Carousel.RenderCarousel`: rendering is one call. How often React renders, and that the in-place reorder bypasses `setDocuments` and so triggers no render of its own, are not modelled.
- `Carousel.Pager`: holds a fixed document count. The index is not re-clamped when the list shrinks, and neither is the source's.
- `Evidence.EvidenceUploader.HandleUpload`: the 1.5-second simulated wait and the busy flag during it are left out. The failure notice is produced directly where the source throws.
- `Evidence.EvidenceUploader`: the component's `handleRemoveEvidence` only forwards to the catalog, which `Catalog.Store.HandleRemoveEvidence` models.
- `Edit.EditForm.HandleSubmit`: the computed `finalFileType` is never used (`src/components/DocumentEdit.tsx:83`), so it is not modelled.
- `Upload.UploadForm`: the description field is required but never stored, which the model keeps.
- `Calendar.CalendarForm.HandleAddEvent`: calendar management is checked only when rendering the controls, and the handler itself checks nothing, so the model gates nothing either.
- The review list's approve and reject buttons only forward to the catalog. Their effect is `Catalog.Store.HandleApproveDocument` and `Catalog.Store.HandleRejectDocument`.
- The login page, the mock documents and users, `getSupervisors`, the application shell, the logo and the view-mode selector are not part of this model.
- `DocumentView.tsx` and `DocumentPreview.tsx` are not part of this model. They import a type their module does not export, and their logic is browser downloads.

## Findings

| source | as written | input that shows it | evidently intended | confidence | as-written member | corrected member |
|---|---|---|---|---|---|---|
| src/components/DocumentUpload.tsx:122-132 | the decided `status` is never put in the `onUpload` payload, so the created record has no status and `canViewDocument` returns false for every user | any accepted upload, e.g. a supervisor publishing to all four roles | the payload carries the decided status | high (not executed) | Upload.UploadedRecordInvisible | Upload.CorrectedUploadVisible |
| src/components/EvidenceUploader.tsx:62-65 | after a successful upload the input reset calls `querySelector` on the `document` prop, a record without that method; it throws, so the catch adds an error notice after the success notice | any PDF of at most 10 MiB selected and uploaded | the reset addresses the page's file input and only the success notice shows, as `HandleUpload` with `pageReset` gives | high (not executed) | Evidence.SuccessfulUploadReportsFailure | Evidence.CorrectedUploadReportsSuccessOnly |
| src/components/DocumentCatalog.tsx:551-552 | the carousel is given the whole `documents` list instead of the visible ones | a corporativo-plus user and a recent draft written by someone else | the carousel shows only documents the user may view | medium (not executed) | Carousel.ShowsDraftOfAnotherAuthor | Carousel.ShowsOnlyVisible |
