/**
 * Files as the browser hands them to the pages, and the PDF filter every page
 * applies before uploading: a file counts as a PDF when its MIME type is exactly
 * "application/pdf".
 */
module Files {
  /** A selected file: its name and the MIME type the browser reports. */
  datatype FileInfo = FileInfo(name: string, mimeType: string)

  const PdfMimeType: string := "application/pdf"

  predicate IsPdf(f: FileInfo)
  {
    f.mimeType == PdfMimeType
  }

  /** The PDF files of the list, in their original order. */
  function PdfFiles(fs: seq<FileInfo>): (r: seq<FileInfo>)
    ensures |r| <= |fs|
    ensures forall i :: 0 <= i < |r| ==> IsPdf(r[i])
    ensures forall i :: 0 <= i < |fs| && IsPdf(fs[i]) ==> fs[i] in r
    ensures forall f :: f in r ==> f in fs
  {
    if fs == [] then []
    else
      var rest := PdfFiles(fs[1..]);
      assert forall i :: 1 <= i < |fs| ==> fs[i] == fs[1..][i - 1];
      if IsPdf(fs[0]) then [fs[0]] + rest else rest
  }

  /** How many files of the list are not PDFs. */
  function NonPdfCount(fs: seq<FileInfo>): nat
  {
    if fs == [] then 0 else (if IsPdf(fs[0]) then 0 else 1) + NonPdfCount(fs[1..])
  }

  /** Every file is either kept by the filter or counted as skipped. */
  lemma {:induction false} PdfFilesCount(fs: seq<FileInfo>)
    ensures |PdfFiles(fs)| + NonPdfCount(fs) == |fs|
  {
    if fs != [] { PdfFilesCount(fs[1..]); }
  }

  /** Filtering a concatenation filters each part and keeps their order. */
  lemma {:induction false} PdfFilesAppend(a: seq<FileInfo>, b: seq<FileInfo>)
    ensures PdfFiles(a + b) == PdfFiles(a) + PdfFiles(b)
  {
    if a != [] {
      assert (a + b)[1..] == a[1..] + b;
      PdfFilesAppend(a[1..], b);
    } else {
      assert a + b == b;
    }
  }

  /** A list of PDFs passes the filter unchanged, so filtering twice is filtering once. */
  lemma {:induction false} PdfFilesOfPdfs(fs: seq<FileInfo>)
    requires forall i :: 0 <= i < |fs| ==> IsPdf(fs[i])
    ensures PdfFiles(fs) == fs
  {
    if fs != [] { PdfFilesOfPdfs(fs[1..]); }
  }

  /** The filter keeps everything exactly when no file is skipped. */
  lemma {:induction false} NoneSkipped(fs: seq<FileInfo>)
    ensures NonPdfCount(fs) == 0 <==> PdfFiles(fs) == fs
  {
    PdfFilesCount(fs);
    if NonPdfCount(fs) == 0 {
      AllPdf(fs);
      PdfFilesOfPdfs(fs);
    }
  }

  lemma {:induction false} AllPdf(fs: seq<FileInfo>)
    requires NonPdfCount(fs) == 0
    ensures forall i :: 0 <= i < |fs| ==> IsPdf(fs[i])
  {
    if fs != [] {
      AllPdf(fs[1..]);
      assert forall i :: 1 <= i < |fs| ==> fs[i] == fs[1..][i - 1];
    }
  }
}
