/**
 * The project registration form (app/cadastro/page.tsx): the accept/reject
 * rule for attachments, the icon chosen for a file name, the attachment
 * list as it evolves through upload start, upload completion and removal,
 * and the submit gate with its reset of the form.
 */
module Cadastro {
  import opened Strings
  import opened Sequences

  datatype Option<T> = None | Some(value: T)

  // ----- attachments -----

  /** A `File` as the browser hands it over. */
  datatype SelectedFile = SelectedFile(name: string, size: nat, mimeType: string)

  /** `UploadedFile`: one entry of the attachment list. */
  datatype UploadedFile = UploadedFile(
    name: string,
    size: nat,
    mimeType: string,
    url: Option<string>,
    publicId: Option<string>,
    uploading: bool)

  /** The 10 MiB ceiling of `validateFile`. */
  const MaxSize: nat := 10 * 1024 * 1024

  /** The MIME type fragments `validateFile` accepts. */
  const AllowedTypes: seq<string> := [
    "application/acad",
    "application/dwg",
    "application/x-dwg",
    "image/vnd.dwg",
    "application/pdf",
    "image/png",
    "image/jpeg",
    "image/jpg"
  ]

  /** The verdict of `validateFile`; each rejection has its own notification. */
  datatype Validation = Accepted | TooLarge | UnsupportedType

  /** `file.name.toLowerCase().endsWith(".dwg")`. */
  function IsDwgName(name: string): bool
  {
    EndsWith(Lower(name), ".dwg")
  }

  /** `allowedTypes.some((type) => file.type.includes(type)) || isDWG`. */
  function IsAllowedType(file: SelectedFile): bool
  {
    (exists t :: t in AllowedTypes && Contains(file.mimeType, t)) || IsDwgName(file.name)
  }

  /** `validateFile`: the size check first, then the type check. */
  function ValidateFile(file: SelectedFile): Validation
  {
    if file.size > MaxSize then TooLarge
    else if !IsAllowedType(file) then UnsupportedType
    else Accepted
  }

  /**
   * A file is rejected as too large exactly when it exceeds 10 MiB, and
   * accepted exactly when it is within that size and one allow-listed string
   * occurs in its type or its lower-cased name ends in ".dwg".
   */
  lemma ValidateFileIff(file: SelectedFile)
    ensures ValidateFile(file) == TooLarge <==> file.size > 10 * 1024 * 1024
    ensures ValidateFile(file) == Accepted <==>
      && file.size <= 10 * 1024 * 1024
      && (|| (exists i, k :: 0 <= i < |AllowedTypes| && OccursAt(file.mimeType, AllowedTypes[i], k))
          || EndsWith(Lower(file.name), ".dwg"))
  {
    forall i | 0 <= i < |AllowedTypes| {
      ContainsIff(file.mimeType, AllowedTypes[i]);
    }
    if exists t :: t in AllowedTypes && Contains(file.mimeType, t) {
      var t :| t in AllowedTypes && Contains(file.mimeType, t);
      var i :| 0 <= i < |AllowedTypes| && AllowedTypes[i] == t;
    }
    if exists i, k :: 0 <= i < |AllowedTypes| && OccursAt(file.mimeType, AllowedTypes[i], k) {
      var i, k :| 0 <= i < |AllowedTypes| && OccursAt(file.mimeType, AllowedTypes[i], k);
      assert AllowedTypes[i] in AllowedTypes;
    }
  }

  /** Exactly 10 MiB is still accepted; 11 MiB is rejected for its size whatever its type. */
  lemma SizeBoundary(name: string)
    ensures ValidateFile(SelectedFile(name, 10 * 1024 * 1024, "application/pdf")) == Accepted
    ensures ValidateFile(SelectedFile(name, 11 * 1024 * 1024, "application/pdf")) == TooLarge
  {
    var pdf := "application/pdf";
    assert pdf[..|pdf|] == pdf;
    assert pdf in AllowedTypes && Contains(pdf, pdf);
  }

  /** A DWG drawing is recognised by its name even when the browser reports no type. */
  lemma DwgAcceptedByName()
    ensures ValidateFile(SelectedFile("PLANTA.DWG", 1024, "")) == Accepted
  {
    assert Lower("PLANTA.DWG") == "planta.dwg";
    assert "planta.dwg"[6..] == ".dwg";
  }

  /** The optimistic record `uploadToCloudinary` appends before the upload request. */
  function Optimistic(file: SelectedFile): (rec: UploadedFile)
    ensures rec.uploading && rec.url == None && rec.publicId == None
    ensures rec.name == file.name && rec.size == file.size
    ensures rec.mimeType == (if file.mimeType == "" then "application/dwg" else file.mimeType)
  {
    UploadedFile(
      file.name, file.size,
      if file.mimeType == "" then "application/dwg" else file.mimeType,
      None, None, true)
  }

  /** The record of a finished upload, with the storage URL and identifier it was given. */
  function Resolve(rec: UploadedFile, url: string, publicId: string): UploadedFile
  {
    rec.(url := Some(url), publicId := Some(publicId), uploading := false)
  }

  /**
   * The update applied when an upload succeeds: every record with that name
   * that is still uploading is resolved; `prev.map(...)`.
   */
  function MarkUploaded(files: seq<UploadedFile>, name: string, url: string, publicId: string)
    : (r: seq<UploadedFile>)
    ensures |r| == |files|
  {
    seq(|files|, i requires 0 <= i < |files| =>
      if files[i].name == name && files[i].uploading then Resolve(files[i], url, publicId)
      else files[i])
  }

  /** The records whose name differs from `name`, in order; `prev.filter((f) => f.name !== name)`. */
  function DropNamed(files: seq<UploadedFile>, name: string): (r: seq<UploadedFile>)
    ensures IsSubsequence(r, files)
    ensures forall i :: 0 <= i < |r| ==> r[i].name != name
    ensures forall i :: 0 <= i < |files| && files[i].name != name ==> files[i] in r
    decreases |files|
  {
    if files == [] then []
    else
      var rest := DropNamed(files[1..], name);
      if files[0].name != name then
        assert ([files[0]] + rest)[1..] == rest;
        [files[0]] + rest
      else rest
  }

  /** The records no longer uploading, in order; `uploadedFiles.filter((f) => !f.uploading)`. */
  function Finished(files: seq<UploadedFile>): (r: seq<UploadedFile>)
    ensures IsSubsequence(r, files)
    ensures forall i :: 0 <= i < |r| ==> !r[i].uploading
    ensures forall i :: 0 <= i < |files| && !files[i].uploading ==> files[i] in r
    decreases |files|
  {
    if files == [] then []
    else
      var rest := Finished(files[1..]);
      if !files[0].uploading then
        assert ([files[0]] + rest)[1..] == rest;
        [files[0]] + rest
      else rest
  }

  /** `uploadedFiles.some((f) => f.uploading)`. */
  function AnyUploading(files: seq<UploadedFile>): bool
  {
    exists i :: 0 <= i < |files| && files[i].uploading
  }

  /** A record that is uploading has no storage URL or identifier yet. */
  ghost predicate WellFormed(files: seq<UploadedFile>)
  {
    forall i :: 0 <= i < |files| ==>
      files[i].uploading ==> files[i].url == None && files[i].publicId == None
  }

  /**
   * A successful upload resolves exactly the in-flight records of that name:
   * afterwards none of them is uploading and each carries the URL and
   * identifier; every other record, in particular every record already
   * resolved, is untouched; the order and the names stay as they were.
   */
  lemma MarkUploadedEffect(files: seq<UploadedFile>, name: string, url: string, publicId: string)
    requires WellFormed(files)
    ensures var r := MarkUploaded(files, name, url, publicId);
      && WellFormed(r)
      && (forall i :: 0 <= i < |r| ==>
            r[i].name == files[i].name && r[i].size == files[i].size && r[i].mimeType == files[i].mimeType)
      && (forall i :: 0 <= i < |r| && r[i].name == name ==> !r[i].uploading)
      && (forall i :: 0 <= i < |r| && !(files[i].name == name && files[i].uploading) ==> r[i] == files[i])
      && (forall i :: 0 <= i < |r| && files[i].name == name && files[i].uploading ==>
            r[i].url == Some(url) && r[i].publicId == Some(publicId))
  {
  }

  /** Removing by name never touches the other records and keeps the list well formed. */
  lemma DropNamedEffect(files: seq<UploadedFile>, name: string)
    requires WellFormed(files)
    ensures WellFormed(DropNamed(files, name))
    ensures (forall i :: 0 <= i < |files| ==> files[i].name != name) ==> DropNamed(files, name) == files
  {
    var r := DropNamed(files, name);
    SubsequenceElements(r, files);
    if forall i :: 0 <= i < |files| ==> files[i].name != name {
      DropNamedNothing(files, name);
    }
  }

  lemma {:induction false} DropNamedNothing(files: seq<UploadedFile>, name: string)
    requires forall i :: 0 <= i < |files| ==> files[i].name != name
    ensures DropNamed(files, name) == files
    decreases |files|
  {
    if files != [] {
      DropNamedNothing(files[1..], name);
      assert files == [files[0]] + files[1..];
    }
  }

  /** Removing by name distributes over appending a record. */
  lemma {:induction false} DropNamedAppend(files: seq<UploadedFile>, rec: UploadedFile, name: string)
    ensures DropNamed(files + [rec], name)
         == DropNamed(files, name) + (if rec.name != name then [rec] else [])
    decreases |files|
  {
    if files == [] {
      assert files + [rec] == [rec];
    } else {
      assert (files + [rec])[1..] == files[1..] + [rec];
      DropNamedAppend(files[1..], rec, name);
    }
  }

  /**
   * A failed upload is rolled back: when no record of that name was listed
   * before the upload started, the list returns to what it was.
   */
  lemma FailedUploadRollsBack(files: seq<UploadedFile>, file: SelectedFile)
    requires forall i :: 0 <= i < |files| ==> files[i].name != file.name
    ensures DropNamed(files + [Optimistic(file)], file.name) == files
  {
    DropNamedAppend(files, Optimistic(file), file.name);
    DropNamedNothing(files, file.name);
  }

  /**
   * The same rule has a consequence when names repeat: a failed upload also
   * removes an earlier, already resolved attachment of the same name.
   */
  lemma FailedUploadDropsSameName(files: seq<UploadedFile>, file: SelectedFile, i: nat)
    requires i < |files| && files[i].name == file.name && !files[i].uploading
    ensures files[i] !in DropNamed(files + [Optimistic(file)], file.name)
    ensures |DropNamed(files + [Optimistic(file)], file.name)| < |files|
  {
    var r := DropNamed(files + [Optimistic(file)], file.name);
    DropNamedAppend(files, Optimistic(file), file.name);
    DropNamedShorter(files, file.name, i);
  }

  /** Removing by name drops at least one record when some record has that name. */
  lemma {:induction false} DropNamedShorter(files: seq<UploadedFile>, name: string, i: nat)
    requires i < |files| && files[i].name == name
    ensures |DropNamed(files, name)| < |files|
    decreases |files|
  {
    SubsequenceElements(DropNamed(files[1..], name), files[1..]);
    if i > 0 {
      DropNamedShorter(files[1..], name, i - 1);
    }
  }

  /**
   * Starting and then completing an upload with success, with no other
   * record of that name in flight, appends exactly the resolved record.
   */
  lemma SuccessfulUploadAppendsResolved(
    files: seq<UploadedFile>, file: SelectedFile, url: string, publicId: string)
    requires forall i :: 0 <= i < |files| ==> !(files[i].name == file.name && files[i].uploading)
    ensures MarkUploaded(files + [Optimistic(file)], file.name, url, publicId)
         == files + [Resolve(Optimistic(file), url, publicId)]
  {
    var r := MarkUploaded(files + [Optimistic(file)], file.name, url, publicId);
    forall i | 0 <= i < |r| ensures r[i] == (files + [Resolve(Optimistic(file), url, publicId)])[i] {
      if i < |files| {
        assert (files + [Optimistic(file)])[i] == files[i];
      }
    }
  }

  /**
   * `filter` keeps every copy of a finished record and no copy of an
   * uploading one: each record occurs in the result as often as in the list
   * when it is not uploading, and not at all otherwise.
   */
  lemma {:induction false} FinishedCounts(files: seq<UploadedFile>, q: UploadedFile)
    ensures multiset(Finished(files))[q] == if !q.uploading then multiset(files)[q] else 0
    decreases |files|
  {
    if files != [] {
      FinishedCounts(files[1..], q);
      assert files == [files[0]] + files[1..];
    }
  }

  /** Once nothing is uploading, keeping the finished records keeps them all. */
  lemma {:induction false} FinishedWhenNoneUploading(files: seq<UploadedFile>)
    requires !AnyUploading(files)
    ensures Finished(files) == files
    decreases |files|
  {
    if files != [] {
      assert !files[0].uploading;
      FinishedWhenNoneUploading(files[1..]);
      assert files == [files[0]] + files[1..];
    }
  }

  // ----- file icons -----

  /** The glyph `getFileIcon` shows: 📐, 📄, 🖼️ or 📎. */
  datatype FileIcon = Drawing | Document | Picture | Clip

  /** `getFileIcon`: decided by the lower-cased text after the last '.'; the type is not consulted. */
  function GetFileIcon(fileName: string, fileType: string): FileIcon
  {
    IconForExtension(Lower(AfterLastDot(fileName)))
  }

  /** The branches of `getFileIcon` over the lower-cased extension. */
  function IconForExtension(extension: string): FileIcon
  {
    if extension == "dwg" then Drawing
    else if extension == "pdf" then Document
    else if extension in ["png", "jpg", "jpeg"] then Picture
    else Clip
  }

  /** Every file the validator lets in by its ".dwg" name is shown with the drawing icon. */
  lemma DwgNameGetsDrawingIcon(fileName: string, fileType: string)
    requires IsDwgName(fileName)
    ensures GetFileIcon(fileName, fileType) == Drawing
  {
    var n := |fileName|;
    var lowered := Lower(fileName);
    assert lowered[n - 4..] == ".dwg";
    assert lowered[n - 4] == '.' && lowered[n - 3] == 'd' && lowered[n - 2] == 'w' && lowered[n - 1] == 'g';
    LowerKeepsDots(fileName);
    var ext := AfterLastDot(fileName);
    assert |ext| == 3;
    LowerSlice(fileName, n - 3, n);
    assert Lower(ext) == lowered[n - 3..];
  }

  /** A name without a '.' is its own extension: "dwg" alone shows the drawing icon. */
  lemma IconWithoutDot()
    ensures GetFileIcon("dwg", "") == Drawing
  {
    AfterLastDotNoDot("dwg");
    LowerOfLower("dwg");
  }

  /** Only the text after the last '.' counts, in any case, whatever the type says. */
  lemma IconAfterLastDot()
    ensures GetFileIcon("memorial.v2.PDF", "image/png") == Document
  {
    assert "memorial.v2.PDF" == "memorial.v2" + "." + "PDF";
    AfterLastDotIs("memorial.v2", "PDF");
    LowerPdf();
  }

  /**
   * Only the text after the last '.' decides the icon, whatever the type:
   * `prefix.e` gets the same icon as the bare `e` under any other type.
   */
  lemma IconOnlyExtension(prefix: string, e: string, fileType: string, otherType: string)
    requires '.' !in e
    ensures GetFileIcon(prefix + "." + e, fileType) == GetFileIcon(e, otherType)
  {
    var name := prefix + "." + e;
    AfterLastDotIs(prefix, e);
    AfterLastDotNoDot(e);
    assert AfterLastDot(name) == AfterLastDot(e);
  }

  lemma LowerPdf()
    ensures Lower("PDF") == "pdf"
  {
  }

  // ----- the form -----

  /** The form fields `handleSubmit` requires, in the order it checks them. */
  const RequiredFields: seq<string> := [
    "name", "location", "distribuidora", "projetista",
    "moduleQuantity", "moduleBrand", "moduleModel",
    "inverterQuantity", "inverterBrand", "inverterModel",
    "power"
  ]

  /** The initial and the reset `formData`: every field present and "". */
  function EmptyForm(): (form: map<string, string>)
    ensures form.Keys == set f | f in RequiredFields
    ensures forall f :: f in form ==> form[f] == ""
  {
    map f | f in RequiredFields :: ""
  }

  /** `requiredFields.filter((field) => !formData[field])`: absent and "" are both missing. */
  function MissingFields(form: map<string, string>, fields: seq<string>): (missing: seq<string>)
    ensures forall f :: f in missing <==> f in fields && (f !in form || form[f] == "")
    decreases |fields|
  {
    if fields == [] then []
    else
      var rest := MissingFields(form, fields[1..]);
      if fields[0] !in form || form[fields[0]] == "" then [fields[0]] + rest
      else rest
  }

  /** A freshly reset form is missing every required field, so it cannot be submitted again. */
  lemma EmptyFormMissesEverything()
    ensures MissingFields(EmptyForm(), RequiredFields) != []
    ensures forall f :: f in RequiredFields ==> f in MissingFields(EmptyForm(), RequiredFields)
  {
    assert "name" in RequiredFields;
  }

  /** The project record appended to the stored list on a successful submit. */
  datatype StoredProject = StoredProject(fields: map<string, string>, files: seq<UploadedFile>, id: int)

  /** How a submit ended. */
  datatype SubmitOutcome = MissingRequired | UploadsPending | Saved(project: StoredProject)

  /** An upload's result from the storage service. */
  datatype UploadResult = Uploaded(secureUrl: string, publicId: string) | UploadFailed

  /** The state of the registration page. */
  class ProjectForm {
    var formData: map<string, string>
    var uploadedFiles: seq<UploadedFile>
    /** The project list kept in the browser's storage under "solarProjects". */
    var storedProjects: seq<StoredProject>

    ghost predicate Valid()
      reads this
    {
      WellFormed(uploadedFiles)
    }

    constructor (stored: seq<StoredProject>)
      ensures Valid()
      ensures formData == EmptyForm() && uploadedFiles == [] && storedProjects == stored
    {
      formData := EmptyForm();
      uploadedFiles := [];
      storedProjects := stored;
    }

    /** `handleInputChange`: overwrite one field, leave everything else. */
    method HandleInputChange(field: string, value: string)
      requires Valid()
      modifies this
      ensures Valid()
      ensures formData == old(formData)[field := value]
      ensures forall f :: f in old(formData) && f != field ==> f in formData && formData[f] == old(formData)[f]
      ensures uploadedFiles == old(uploadedFiles) && storedProjects == old(storedProjects)
    {
      formData := formData[field := value];
    }

    /**
     * The synchronous start of `uploadToCloudinary`: validate, and on
     * acceptance append the optimistic record.
     */
    method BeginUpload(file: SelectedFile) returns (verdict: Validation)
      requires Valid()
      modifies this
      ensures Valid()
      ensures verdict == ValidateFile(file)
      ensures uploadedFiles ==
        if verdict == Accepted then old(uploadedFiles) + [Optimistic(file)] else old(uploadedFiles)
      ensures formData == old(formData) && storedProjects == old(storedProjects)
    {
      verdict := ValidateFile(file);
      if verdict == Accepted {
        uploadedFiles := uploadedFiles + [Optimistic(file)];
      }
    }

    /**
     * The completion of `uploadToCloudinary`, one atomic step: on success
     * resolve the in-flight records of that name, on failure drop every
     * record of that name.
     */
    method CompleteUpload(file: SelectedFile, result: UploadResult)
      requires Valid()
      modifies this
      ensures Valid()
      ensures uploadedFiles ==
        match result
        case Uploaded(url, id) => MarkUploaded(old(uploadedFiles), file.name, url, id)
        case UploadFailed => DropNamed(old(uploadedFiles), file.name)
      ensures formData == old(formData) && storedProjects == old(storedProjects)
    {
      match result
      case Uploaded(url, id) =>
        MarkUploadedEffect(uploadedFiles, file.name, url, id);
        uploadedFiles := MarkUploaded(uploadedFiles, file.name, url, id);
      case UploadFailed =>
        DropNamedEffect(uploadedFiles, file.name);
        uploadedFiles := DropNamed(uploadedFiles, file.name);
    }

    /**
     * `removeFile`: a delete request goes to the storage service only when a
     * non-empty identifier is given; the local removal by name happens anyway.
     */
    method RemoveFile(fileName: string, publicId: Option<string>) returns (deleteRequested: bool)
      requires Valid()
      modifies this
      ensures Valid()
      ensures deleteRequested <==> publicId.Some? && publicId.value != ""
      ensures uploadedFiles == DropNamed(old(uploadedFiles), fileName)
      ensures formData == old(formData) && storedProjects == old(storedProjects)
    {
      deleteRequested := publicId.Some? && publicId.value != "";
      DropNamedEffect(uploadedFiles, fileName);
      uploadedFiles := DropNamed(uploadedFiles, fileName);
    }

    /**
     * `handleSubmit`: refuse while a required field is missing, then while an
     * upload is in flight; otherwise store the project with its finished
     * attachments and reset the form. `now` stands for `Date.now()`.
     */
    method HandleSubmit(now: int) returns (outcome: SubmitOutcome)
      requires Valid()
      modifies this
      ensures Valid()
      ensures MissingFields(old(formData), RequiredFields) != [] ==>
        outcome == MissingRequired
      ensures MissingFields(old(formData), RequiredFields) == [] && AnyUploading(old(uploadedFiles)) ==>
        outcome == UploadsPending
      ensures MissingFields(old(formData), RequiredFields) == [] && !AnyUploading(old(uploadedFiles)) ==>
        outcome.Saved?
      ensures !outcome.Saved? ==>
        formData == old(formData) && uploadedFiles == old(uploadedFiles) && storedProjects == old(storedProjects)
      ensures outcome.Saved? ==>
        && MissingFields(old(formData), RequiredFields) == []
        && !AnyUploading(old(uploadedFiles))
        && outcome.project == StoredProject(old(formData), Finished(old(uploadedFiles)), now)
        && outcome.project.files == old(uploadedFiles)
        && storedProjects == old(storedProjects) + [outcome.project]
        && formData == EmptyForm() && uploadedFiles == []
    {
      if MissingFields(formData, RequiredFields) != [] {
        return MissingRequired;
      }
      if AnyUploading(uploadedFiles) {
        return UploadsPending;
      }
      var project := StoredProject(formData, Finished(uploadedFiles), now);
      FinishedWhenNoneUploading(uploadedFiles);
      storedProjects := storedProjects + [project];
      formData := EmptyForm();
      uploadedFiles := [];
      outcome := Saved(project);
    }
  }
}
