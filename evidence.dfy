/**
 * The evidence uploader: a shop user attaches PDF evidence to a document that
 * requires it. A file is accepted for upload only if it is a PDF of at most
 * 10 MiB; uploading hands `(document id, file name)` to the catalog once.
 */
module Evidence {
  import opened Wrappers
  import opened Types
  import opened Catalog

  /** What the uploader reads of a browser `File`: name, MIME type and size in bytes. */
  datatype FileInfo = FileInfo(name: string, mimeType: string, size: nat)

  const PdfMime: string := "application/pdf"

  /** `10 * 1024 * 1024` */
  const MaxEvidenceBytes: nat := 10 * 1024 * 1024

  /** Why a chosen file is refused, in the order the checks run. */
  datatype SelectError = NotPdf | TooLarge

  /** The notices `handleUpload` raises. */
  datatype Toast = Success(text: string) | Failure(text: string)

  /** The checks of `handleFileSelect`: the MIME type first, then the size. */
  function CheckEvidenceFile(f: FileInfo): Option<SelectError> {
    if f.mimeType != PdfMime then Some(NotPdf)
    else if f.size > MaxEvidenceBytes then Some(TooLarge)
    else None
  }

  /** `canUploadEvidence(user.role) && document.requiresEvidence` */
  predicate CanUpload(role: Role, d: Document) {
    CanUploadEvidence(role) && d.requiresEvidence
  }

  /**
   * The notices after a successful upload, as written: the success notice, then,
   * because `document` names the record prop rather than the page and the record
   * has no `querySelector`, the file-input reset throws and the catch block adds
   * the failure notice.
   */
  function UploadToasts(): seq<Toast> {
    [Success("Evidencia subida exitosamente"), Failure("Error al subir el archivo")]
  }

  /** The notices after a successful upload once the reset addresses the page's file input: the success notice alone. */
  function CorrectedUploadToasts(): seq<Toast> {
    [Success("Evidencia subida exitosamente")]
  }

  // ---------------------------------------------------------------------------
  // Properties

  /** A file is accepted exactly when it is a PDF of at most 10 MiB; a non-PDF is refused as such whatever its size. */
  lemma AcceptedIff(f: FileInfo)
    ensures CheckEvidenceFile(f).None? <==> f.mimeType == PdfMime && f.size <= MaxEvidenceBytes
    ensures f.mimeType != PdfMime ==> CheckEvidenceFile(f) == Some(NotPdf)
    ensures f.mimeType == PdfMime && f.size > MaxEvidenceBytes ==> CheckEvidenceFile(f) == Some(TooLarge)
  {
  }

  /** The limit is inclusive: a PDF of exactly 10 MiB passes, one byte more does not. */
  lemma LimitIsInclusive(name: string)
    ensures CheckEvidenceFile(FileInfo(name, PdfMime, 10485760)).None?
    ensures CheckEvidenceFile(FileInfo(name, PdfMime, 10485761)) == Some(TooLarge)
  {
  }

  /** Only the evidence roles may upload, and only to a document that asks for evidence; editors never can. */
  lemma UploadOfferedIff(role: Role, d: Document)
    ensures CanUpload(role, d) <==> (role == Corporativo || role == PersonalTienda) && d.requiresEvidence
    ensures HasEditPermission(role) ==> !CanUpload(role, d)
  {
  }

  /** A user with no entry has no evidence. */
  lemma NoEntryNoEvidence(d: Document, username: string)
    requires username !in d.evidenceFiles
    ensures EvidenceOf(d, username) == []
  {
  }

  /** The call an upload makes appends the file to the uploader's list on every record with that id, and to nobody else's. */
  lemma UploadCallAppends(docs: seq<Document>, id: string, username: string, name: string, i: int, other: string)
    requires 0 <= i < |docs| && docs[i].id == id && other != username
    ensures EvidenceOf(UpdateWhere(docs, id, AddEvidence(username, name))[i], username) == EvidenceOf(docs[i], username) + [name]
    ensures EvidenceOf(UpdateWhere(docs, id, AddEvidence(username, name))[i], other) == EvidenceOf(docs[i], other)
  {
    AddEvidenceAppends(docs[i], username, name, other);
  }

  /** As written, a successful upload shows a failure notice after the success notice. */
  lemma SuccessfulUploadReportsFailure()
    ensures exists t :: t in UploadToasts() && t.Failure?
    ensures exists t :: t in UploadToasts() && t.Success?
  {
    assert UploadToasts()[1].Failure?;
    assert UploadToasts()[0].Success?;
  }

  /** Corrected, a successful upload shows exactly one notice, a success: the written sequence without the catch's failure notice. */
  lemma CorrectedUploadReportsSuccessOnly()
    ensures |CorrectedUploadToasts()| == 1
    ensures forall t :: t in CorrectedUploadToasts() ==> t.Success?
    ensures CorrectedUploadToasts() == UploadToasts()[..1]
  {
  }

  // ---------------------------------------------------------------------------
  // The uploader component

  class EvidenceUploader {
    const document: Document
    const user: User
    var selectedFile: Option<FileInfo>
    var isUploading: bool

    /** A selected file always passed the checks. */
    predicate Valid()
      reads this
    {
      selectedFile.Some? ==> CheckEvidenceFile(selectedFile.value).None?
    }

    constructor (document: Document, user: User)
      ensures this.document == document && this.user == user
      ensures selectedFile.None? && !isUploading && Valid()
    {
      this.document := document;
      this.user := user;
      selectedFile := None;
      isUploading := false;
    }

    /** `handleFileSelect`: a refused file leaves the selection as it was; an accepted one replaces it. */
    method HandleFileSelect(chosen: Option<FileInfo>) returns (refused: Option<SelectError>)
      requires Valid()
      modifies this`selectedFile
      ensures Valid()
      ensures chosen.None? ==> refused.None? && selectedFile == old(selectedFile)
      ensures chosen.Some? ==> refused == CheckEvidenceFile(chosen.value)
      ensures chosen.Some? && refused.None? ==> selectedFile == chosen
      ensures refused.Some? ==> selectedFile == old(selectedFile)
    {
      refused := None;
      if chosen.Some? {
        var file := chosen.value;
        if file.mimeType != PdfMime {
          refused := Some(NotPdf);
          return;
        }
        if file.size > MaxEvidenceBytes {
          refused := Some(TooLarge);
          return;
        }
        selectedFile := chosen;
      }
    }

    /**
     * `handleUpload`: without a selection nothing happens; otherwise the catalog
     * is called once with the document id and the file name, the selection is
     * cleared and the busy flag ends false. The wait is left out. With
     * `pageReset` false the file-input reset is the one written, which throws
     * after the success notice; with `pageReset` true it addresses the page's
     * file input and succeeds.
     */
    method HandleUpload(pageReset: bool) returns (call: Option<(string, string)>, toasts: seq<Toast>)
      requires Valid()
      modifies this`selectedFile, this`isUploading
      ensures Valid()
      ensures old(selectedFile).None? ==>
        call.None? && toasts == [] && selectedFile == old(selectedFile) && isUploading == old(isUploading)
      ensures old(selectedFile).Some? ==>
        && call == Some((document.id, old(selectedFile).value.name))
        && selectedFile.None? && !isUploading
        && toasts == (if pageReset then CorrectedUploadToasts() else UploadToasts())
    {
      call, toasts := None, [];
      if selectedFile.None? {
        return;
      }
      isUploading := true;
      call := Some((document.id, selectedFile.value.name));
      toasts := toasts + [Success("Evidencia subida exitosamente")];
      selectedFile := None;
      if !pageReset {
        // The written reset throws here (see UploadToasts); the catch adds its notice.
        toasts := toasts + [Failure("Error al subir el archivo")];
      }
      isUploading := false;
    }
  }
}
