/**
 * The upload page as a small state machine: whether a drag hovers over the drop
 * zone, the PDF files picked for upload, the result of the last upload, the
 * toasts shown so far and the uploads started so far. Every handler keeps the
 * selection made of PDFs only.
 */
module UploadPage {
  import opened Basics
  import opened Text
  import opened Files
  import opened Models

  /** A toast notification; `destructive` is the red variant. */
  datatype Toast = Toast(title: string, description: string, destructive: bool)

  const InvalidFiles: Toast := Toast("Invalid Files", "Please select only PDF files.", true)
  const NoFiles: Toast := Toast("No Files", "Please select at least one PDF file to upload.", true)

  /** The list without the element at `index`; an index outside the list removes nothing. */
  function WithoutIndex<T>(s: seq<T>, index: int): (r: seq<T>)
    ensures 0 <= index < |s| ==> r == s[..index] + s[index + 1..]
    ensures !(0 <= index < |s|) ==> r == s
  {
    if s == [] then []
    else
      var rest := WithoutIndex(s[1..], index - 1);
      if index == 0 then
        assert rest == s[1..];
        rest
      else
        assert 0 < index < |s| ==> s[1..][..index - 1] == s[1..index] && s[1..][index..] == s[index + 1..];
        [s[0]] + rest
  }

  class Page {
    var dragActive: bool
    var selectedFiles: seq<FileInfo>
    var uploadResult: Option<UploadResponse>
    /** Every toast shown, oldest first. */
    var toasts: seq<Toast>
    /** The file lists handed to the upload mutation, oldest first. */
    var uploads: seq<seq<FileInfo>>

    /** Only PDF files are ever selected, and only non-empty selections are ever uploaded. */
    predicate Valid()
      reads this
    {
      && (forall i :: 0 <= i < |selectedFiles| ==> IsPdf(selectedFiles[i]))
      && (forall k :: 0 <= k < |uploads| ==> uploads[k] != [])
    }

    constructor()
      ensures Valid()
      ensures !dragActive && selectedFiles == [] && uploadResult == None && toasts == [] && uploads == []
    {
      dragActive := false;
      selectedFiles := [];
      uploadResult := None;
      toasts := [];
      uploads := [];
    }

    /** Drag enter and over light the drop zone, drag leave dims it, other events leave it. */
    method HandleDrag(eventType: string)
      modifies this
      ensures eventType == "dragenter" || eventType == "dragover" ==> dragActive
      ensures eventType == "dragleave" ==> !dragActive
      ensures eventType !in {"dragenter", "dragover", "dragleave"} ==> dragActive == old(dragActive)
      ensures selectedFiles == old(selectedFiles) && uploadResult == old(uploadResult)
      ensures toasts == old(toasts) && uploads == old(uploads)
    {
      if eventType == "dragenter" || eventType == "dragover" {
        dragActive := true;
      } else if eventType == "dragleave" {
        dragActive := false;
      }
    }

    /** Takes the PDFs of `files` as the new selection, or shows "Invalid Files" when there are none. */
    method SelectPdfs(files: seq<FileInfo>)
      requires Valid()
      modifies this
      ensures Valid()
      ensures PdfFiles(files) != [] ==> selectedFiles == PdfFiles(files) && toasts == old(toasts)
      ensures PdfFiles(files) == [] ==> selectedFiles == old(selectedFiles) && toasts == old(toasts) + [InvalidFiles]
      ensures dragActive == old(dragActive) && uploadResult == old(uploadResult) && uploads == old(uploads)
    {
      var pdfFiles := PdfFiles(files);
      if |pdfFiles| == 0 {
        toasts := toasts + [InvalidFiles];
        return;
      }
      selectedFiles := pdfFiles;
    }

    /**
     * A drop always dims the drop zone; a drop carrying at least one file replaces
     * the selection by its PDFs, or shows "Invalid Files" when it has none.
     */
    method HandleDrop(files: Option<seq<FileInfo>>)
      requires Valid()
      modifies this
      ensures Valid() && !dragActive
      ensures (files.None? || files.value == []) ==> selectedFiles == old(selectedFiles) && toasts == old(toasts)
      ensures files.Some? && files.value != [] && PdfFiles(files.value) != [] ==>
        selectedFiles == PdfFiles(files.value) && toasts == old(toasts)
      ensures files.Some? && files.value != [] && PdfFiles(files.value) == [] ==>
        selectedFiles == old(selectedFiles) && toasts == old(toasts) + [InvalidFiles]
      ensures uploadResult == old(uploadResult) && uploads == old(uploads)
    {
      dragActive := false;
      if files.Some? && |files.value| > 0 {
        SelectPdfs(files.value);
      }
    }

    /** A file-input change with a file list replaces the selection by its PDFs, or shows "Invalid Files". */
    method HandleFileChange(files: Option<seq<FileInfo>>)
      requires Valid()
      modifies this
      ensures Valid()
      ensures files.None? ==> selectedFiles == old(selectedFiles) && toasts == old(toasts)
      ensures files.Some? && PdfFiles(files.value) != [] ==> selectedFiles == PdfFiles(files.value) && toasts == old(toasts)
      ensures files.Some? && PdfFiles(files.value) == [] ==>
        selectedFiles == old(selectedFiles) && toasts == old(toasts) + [InvalidFiles]
      ensures dragActive == old(dragActive) && uploadResult == old(uploadResult) && uploads == old(uploads)
    {
      if files.Some? {
        SelectPdfs(files.value);
      }
    }

    /** Removes the file at `index` from the selection, keeping the others in order. */
    method RemoveFile(index: int)
      requires Valid()
      modifies this
      ensures Valid()
      ensures selectedFiles == WithoutIndex(old(selectedFiles), index)
      ensures dragActive == old(dragActive) && uploadResult == old(uploadResult)
      ensures toasts == old(toasts) && uploads == old(uploads)
    {
      selectedFiles := WithoutIndex(selectedFiles, index);
      forall i | 0 <= i < |selectedFiles|
        ensures IsPdf(selectedFiles[i])
      {
        assert selectedFiles[i] in old(selectedFiles);
      }
    }

    /** Starts the upload of the selection, or shows "No Files" and starts nothing when it is empty. */
    method HandleUpload()
      requires Valid()
      modifies this
      ensures Valid()
      ensures old(selectedFiles) == [] ==> uploads == old(uploads) && toasts == old(toasts) + [NoFiles]
      ensures old(selectedFiles) != [] ==> uploads == old(uploads) + [old(selectedFiles)] && toasts == old(toasts)
      ensures dragActive == old(dragActive) && selectedFiles == old(selectedFiles) && uploadResult == old(uploadResult)
    {
      if |selectedFiles| == 0 {
        toasts := toasts + [NoFiles];
        return;
      }
      uploads := uploads + [selectedFiles];
    }

    /** Back to an empty selection and no result. */
    method ResetUpload()
      requires Valid()
      modifies this
      ensures Valid()
      ensures selectedFiles == [] && uploadResult == None
      ensures dragActive == old(dragActive) && toasts == old(toasts) && uploads == old(uploads)
    {
      selectedFiles := [];
      uploadResult := None;
    }

    /** A finished upload: the result is kept and a toast reports the counts. */
    method OnUploadSuccess(data: UploadResponse)
      requires Valid()
      modifies this
      ensures Valid()
      ensures uploadResult == Some(data)
      ensures toasts == old(toasts) + [Toast("Upload Successful",
        "Successfully processed " + IntToString(data.parsedCount) + " transactions from "
          + NatToString(|selectedFiles|) + " file(s).", false)]
      ensures dragActive == old(dragActive) && selectedFiles == old(selectedFiles) && uploads == old(uploads)
    {
      uploadResult := Some(data);
      toasts := toasts + [Toast("Upload Successful",
        "Successfully processed " + IntToString(data.parsedCount) + " transactions from "
          + NatToString(|selectedFiles|) + " file(s).", false)];
    }

    /** A failed upload: a red toast carries the error message; nothing else changes. */
    method OnUploadError(message: string)
      requires Valid()
      modifies this
      ensures Valid()
      ensures toasts == old(toasts) + [Toast("Upload Failed", message, true)]
      ensures dragActive == old(dragActive) && selectedFiles == old(selectedFiles)
      ensures uploadResult == old(uploadResult) && uploads == old(uploads)
    {
      toasts := toasts + [Toast("Upload Failed", message, true)];
    }
  }
}
