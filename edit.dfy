/**
 * The edit form: it starts from a document, lets the user change title,
 * category, content and tags and pick a replacement file, and on save hands the
 * catalog the document with those four fields replaced.
 */
module Edit {
  import opened Wrappers
  import opened Types
  import opened FileUtils
  import opened FormText

  /** Why a save is refused. */
  datatype EditError = MissingFields | UnsupportedFileType(fileType: string)

  /** The guards of `handleSubmit`, in order. */
  function ValidateEdit(title: string, category: string, content: string, newFile: Option<string>, newFileType: string): Option<EditError> {
    if title == "" || category == "" || content == "" then Some(MissingFields)
    else if newFile.Some? && newFileType != "" && !IsValidFileType(newFileType) then Some(UnsupportedFileType(newFileType))
    else None
  }

  /** `{...document, title, category, content, tags: parsed}` */
  function EditedRecord(d: Document, title: string, category: string, content: string, tagsText: string): Document {
    d.(title := title, category := category, content := content, tags := ParseTags(tagsText))
  }

  /** The title after a file is chosen: the file name without extension, if the title is still the original or blank. */
  function TitleAfterFileChange(original: string, title: string, fileName: string): string {
    if title == original || Trim(title) == "" then StripExtension(fileName) else title
  }

  /** The title after the chosen file is dropped: the original again, if the title is still the one taken from the file. */
  function TitleAfterRemove(original: string, title: string, newFile: Option<string>): string {
    if newFile.Some? && title == StripExtension(newFile.value) then original else title
  }

  // ---------------------------------------------------------------------------
  // Properties

  /** A save passes exactly when title, category and content are filled and a new file, if any, has an accepted or no detected type. */
  lemma EditAcceptedIff(title: string, category: string, content: string, newFile: Option<string>, newFileType: string)
    ensures ValidateEdit(title, category, content, newFile, newFileType).None? <==>
      && title != "" && category != "" && content != ""
      && (newFile.Some? && newFileType != "" ==> IsValidFileType(newFileType))
  {
  }

  /** Saving changes only title, category, content and tags; id, author, status, priority, evidence, favourites, target groups and the rest are kept. */
  lemma EditKeepsOtherFields(d: Document, title: string, category: string, content: string, tagsText: string)
    ensures var e := EditedRecord(d, title, category, content, tagsText);
      e.(title := d.title, category := d.category, content := d.content, tags := d.tags) == d
    ensures var e := EditedRecord(d, title, category, content, tagsText);
      e.title == title && e.category == category && e.content == content && e.tags == ParseTags(tagsText)
  {
  }

  /** Saving without touching any field gives back the document, provided its tags are well formed. */
  lemma UntouchedSaveIsIdentity(d: Document)
    requires forall i :: 0 <= i < |d.tags| ==> IsTag(d.tags[i])
    ensures EditedRecord(d, d.title, d.category, d.content, ShowTags(d.tags)) == d
  {
    ParseShowTags(d.tags);
  }

  /** A title the user typed, neither blank nor the original, survives choosing a file. */
  lemma TypedTitleSurvivesFileChange(original: string, title: string, fileName: string)
    requires title != original && Trim(title) != ""
    ensures TitleAfterFileChange(original, title, fileName) == title
  {
  }

  /** Choosing a file while the title is untouched, then dropping the file, restores the original title. */
  lemma ChooseThenRemoveRestoresTitle(original: string, fileName: string)
    ensures TitleAfterRemove(original, TitleAfterFileChange(original, original, fileName), Some(fileName)) == original
  {
  }

  // ---------------------------------------------------------------------------
  // The form component

  class EditForm {
    const document: Document
    var title: string
    var category: string
    var content: string
    var tags: string
    var newFile: Option<string>
    var newFileType: string
    var error: Option<EditError>

    /** The form opens on the document's fields, with its tags joined by ", ". */
    constructor (document: Document)
      ensures this.document == document
      ensures title == document.title && category == document.category && content == document.content
      ensures tags == ShowTags(document.tags)
      ensures newFile.None? && newFileType == "" && error.None?
    {
      this.document := document;
      title := document.title;
      category := document.category;
      content := document.content;
      tags := ShowTags(document.tags);
      newFile := None;
      newFileType := "";
      error := None;
    }

    /** `handleFileChange` */
    method HandleFileChange(selected: Option<string>)
      modifies this`newFile, this`title, this`newFileType, this`error
      ensures selected.None? ==> unchanged(this)
      ensures selected.Some? ==>
        && newFile == selected
        && title == TitleAfterFileChange(document.title, old(title), selected.value)
        && newFileType == DetectFileType(selected.value)
        && error.None?
    {
      if selected.Some? {
        newFile := selected;
        var withoutExt := StripExtension(selected.value);
        if title == document.title || Trim(title) == "" {
          title := withoutExt;
        }
        newFileType := DetectFileType(selected.value);
        error := None;
      }
    }

    /** `handleRemoveNewFile` */
    method HandleRemoveNewFile()
      modifies this`newFile, this`title, this`newFileType
      ensures newFile.None? && newFileType == ""
      ensures title == TitleAfterRemove(document.title, old(title), old(newFile))
    {
      var previous := newFile;
      newFile := None;
      newFileType := "";
      if previous.Some? && title == StripExtension(previous.value) {
        title := document.title;
      }
    }

    /** `handleSubmit`: the record handed to `onSave`, or the error. */
    method HandleSubmit() returns (saved: Option<Document>)
      modifies this`error
      ensures error == ValidateEdit(title, category, content, newFile, newFileType)
      ensures saved.Some? <==> error.None?
      ensures saved.Some? ==> saved.value == EditedRecord(document, title, category, content, tags)
    {
      error := None;
      saved := None;
      if title == "" || category == "" || content == "" {
        error := Some(MissingFields);
        return;
      }
      if newFile.Some? && newFileType != "" && !IsValidFileType(newFileType) {
        error := Some(UnsupportedFileType(newFileType));
        return;
      }
      saved := Some(EditedRecord(document, title, category, content, tags));
    }
  }
}
