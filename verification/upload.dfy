/** The state rules of the reel upload form: file validation, file
    selection, the guard chain that runs before an upload starts, the reset,
    and when the upload button is offered. The upload itself (signing and
    sending the file) is an external service and is not modelled. */
module Upload {
  import opened Common

  /** What the form knows of a chosen file: its MIME type and size in bytes. */
  datatype FileInfo = FileInfo(name: string, mimeType: string, size: nat)

  /** The form's state. `progress` is a percentage; only its reset to 0 is modelled. */
  datatype UploadState = UploadState(
    file: Option<FileInfo>,
    previewUrl: Option<string>,
    progress: int,
    error: Option<string>,
    uploadSuccess: bool,
    uploading: bool,
    title: string,
    description: string)

  /** 100 MiB, the largest accepted file. */
  const MaxFileSize: nat := 100 * 1024 * 1024

  const ValidVideoTypes: seq<string> := ["video/mp4", "video/webm", "video/ogg", "video/avi", "video/mov"]

  const NotVideoMessage := "Please upload a video file"
  const TooLargeMessage := "Video must be less than 100MB"
  const BadFormatMessage := "Please upload a valid video format (MP4, WebM, OGG, AVI, MOV)"

  /** `validateFile`: `None` accepts the file, `Some(m)` rejects it and `m` is
      the message shown. The checks run in order: a `video/` type, then the
      size, then the five-entry whitelist. */
  function ValidateFile(f: FileInfo): (r: Option<string>)
    ensures r.None? <==> f.mimeType in ValidVideoTypes && f.size <= MaxFileSize
    ensures !StartsWith(f.mimeType, "video/") ==> r == Some(NotVideoMessage)
    ensures StartsWith(f.mimeType, "video/") && f.size > MaxFileSize ==> r == Some(TooLargeMessage)
    ensures StartsWith(f.mimeType, "video/") && f.size <= MaxFileSize && f.mimeType !in ValidVideoTypes ==>
      r == Some(BadFormatMessage)
  {
    WhitelistIsVideo(f.mimeType);
    if !StartsWith(f.mimeType, "video/") then Some(NotVideoMessage)
    else if f.size > MaxFileSize then Some(TooLargeMessage)
    else if f.mimeType !in ValidVideoTypes then Some(BadFormatMessage)
    else None
  }

  /** Every whitelisted type starts with "video/", so the first check never
      rejects a file the last one would accept. */
  lemma WhitelistIsVideo(t: string)
    ensures t in ValidVideoTypes ==> StartsWith(t, "video/")
  {
  }

  /** `handleFileSelect`: the validation's message (or none) becomes the
      error; an accepted file is selected and previewed under `url`, a
      rejected one leaves the selection as it was. */
  function SelectFile(st: UploadState, f: FileInfo, url: string): (r: UploadState)
    ensures r.error == ValidateFile(f)
    ensures ValidateFile(f).None? ==> r.file == Some(f) && r.previewUrl == Some(url)
    ensures ValidateFile(f).Some? ==> r == st.(error := ValidateFile(f))
  {
    var checked := st.(error := ValidateFile(f));
    if checked.error.None? then checked.(file := Some(f), previewUrl := Some(url)) else checked
  }

  /** What `handleUpload` does before it contacts the upload service: it
      halts with an error, or it starts the upload. */
  datatype UploadOutcome = Halted(state: UploadState) | Started(state: UploadState)

  const NoFileMessage := "Please select a file to upload"
  const NoTitleMessage := "Please enter a title for your reel"
  const NoDescriptionMessage := "Please enter a description for your reel"

  /** `handleUpload` up to `handleStartUpload`: a selected file, a non-blank
      title, a non-blank description, then `validateFile`; the first failure
      sets its message and stops. Starting sets `uploading`, clears the error
      and resets the progress. */
  function HandleUpload(st: UploadState): (r: UploadOutcome)
    ensures st.file.None? ==> r == Halted(st.(error := Some(NoFileMessage)))
    ensures st.file.Some? && Trim(st.title) == "" ==> r == Halted(st.(error := Some(NoTitleMessage)))
    ensures st.file.Some? && Trim(st.title) != "" && Trim(st.description) == "" ==>
      r == Halted(st.(error := Some(NoDescriptionMessage)))
    ensures r.Started? <==>
      st.file.Some? && Trim(st.title) != "" && Trim(st.description) != "" && ValidateFile(st.file.value).None?
    ensures r.Started? ==> r.state == st.(uploading := true, error := None, progress := 0)
    ensures r.Halted? ==> r.state.error.Some? && r.state == st.(error := r.state.error)
  {
    if st.file.None? then Halted(st.(error := Some(NoFileMessage)))
    else if Trim(st.title) == "" then Halted(st.(error := Some(NoTitleMessage)))
    else if Trim(st.description) == "" then Halted(st.(error := Some(NoDescriptionMessage)))
    else
      var v := ValidateFile(st.file.value);
      if v.Some? then Halted(st.(error := v))
      else Started(st.(uploading := true, error := None, progress := 0))
  }

  /** `resetUpload`: the form as it first opens. */
  function ResetUpload(st: UploadState): (r: UploadState)
    ensures r.file.None? && r.previewUrl.None? && r.error.None?
    ensures r.progress == 0 && !r.uploadSuccess && !r.uploading
    ensures r.title == "" && r.description == ""
  {
    UploadState(None, None, 0, None, false, false, "", "")
  }

  /** The upload button is offered for a selected file, while no upload
      runs, under a non-blank title and description. */
  predicate ShowUploadButton(st: UploadState): (b: bool)
    ensures b ==> st.file.Some?
    ensures b ==> (HandleUpload(st).Started? <==> ValidateFile(st.file.value).None?)
    ensures b ==> HandleUpload(st).Halted? ==> HandleUpload(st).state.error == ValidateFile(st.file.value)
  {
    st.file.Some? && !st.uploading && Trim(st.title) != "" && Trim(st.description) != ""
  }

  /** The selected file is always one the validation accepts. */
  predicate SelectionValid(st: UploadState)
  {
    st.file.Some? ==> ValidateFile(st.file.value).None?
  }

  // ------------------------------------------------------------- properties

  /** The size limit is inclusive: exactly 100 MiB is accepted, one byte more is not. */
  lemma SizeLimitInclusive(name: string)
    ensures ValidateFile(FileInfo(name, "video/mp4", 104857600)).None?
    ensures ValidateFile(FileInfo(name, "video/mp4", 104857601)) == Some(TooLargeMessage)
  {
  }

  /** A `video/` type outside the whitelist is refused for its format, and
      one that is not a video at all is refused first whatever its size. */
  lemma {:induction false} RejectionOrder(name: string, size: nat)
    ensures ValidateFile(FileInfo(name, "video/quicktime", size)) ==
      (if size > MaxFileSize then Some(TooLargeMessage) else Some(BadFormatMessage))
    ensures ValidateFile(FileInfo(name, "image/png", size)) == Some(NotVideoMessage)
  {
    assert StartsWith("video/quicktime", "video/");
    assert "image/png"[..6] != "video/" by { assert "image/png"[0] == 'i'; }
  }

  /** Selecting files and resetting the form never leave an invalid file selected. */
  lemma {:induction false} SelectionStaysValid(st: UploadState, f: FileInfo, url: string)
    requires SelectionValid(st)
    ensures SelectionValid(SelectFile(st, f, url))
    ensures SelectionValid(ResetUpload(st))
  {
  }

  /** A button press on a valid selection starts the upload: the button is
      only offered when the three form guards pass, and the selection was
      validated when it was made. */
  lemma {:induction false} ButtonStartsUpload(st: UploadState)
    requires SelectionValid(st) && ShowUploadButton(st)
    ensures HandleUpload(st).Started?
    ensures HandleUpload(st).state.uploading && HandleUpload(st).state.error.None?
    ensures !ShowUploadButton(HandleUpload(st).state)
  {
  }

  /** After a reset nothing is selected: no button, and a start attempt
      halts asking for a file. */
  lemma {:induction false} ResetNeedsNewFile(st: UploadState)
    ensures !ShowUploadButton(ResetUpload(st))
    ensures HandleUpload(ResetUpload(st)) == Halted(ResetUpload(st).(error := Some(NoFileMessage)))
  {
  }
}
