/**
  `save_current_page`: after the browser's print, poll the download
  directory until a `.pdf` shows up, take the most recently created one and
  move it into the parcel folder under the capture's title. The directory
  listings the polls see are given as input; the clock only decides how many
  polls there are.
 */
module Capture {
  import opened Results
  import opened PyStr

  /** A directory entry: its file name and its creation time
      (`os.path.getctime`). */
  datatype Entry = Entry(name: string, ctime: real)

  const PDF_SUFFIX := ".pdf"

  predicate IsPdf(e: Entry) {
    EndsWith(e.name, PDF_SUFFIX)
  }

  /** `[f for f in os.listdir(download_dir) if f.endswith(".pdf")]`, in
      listing order. */
  function PdfFiles(listing: seq<Entry>): (r: seq<Entry>)
    ensures |r| <= |listing|
    ensures forall e :: e in r <==> e in listing && IsPdf(e)
  {
    if listing == [] then []
    else
      var init := listing[..|listing| - 1];
      var last := listing[|listing| - 1];
      assert listing == init + [last];
      PdfFiles(init) + (if IsPdf(last) then [last] else [])
  }

  /** The filter keeps listing order: filtering two parts of a listing is
      filtering each in turn. */
  lemma {:induction false} PdfFilesAppend(a: seq<Entry>, b: seq<Entry>)
    ensures PdfFiles(a + b) == PdfFiles(a) + PdfFiles(b)
    decreases |b|
  {
    if b == [] {
      assert a + b == a;
    } else {
      var b' := b[..|b| - 1];
      var last := b[|b| - 1];
      assert (a + b)[..|a + b| - 1] == a + b';
      assert (a + b)[|a + b| - 1] == last;
      PdfFilesAppend(a, b');
      var extra := if IsPdf(last) then [last] else [];
      assert PdfFiles(a) + PdfFiles(b') + extra == PdfFiles(a) + (PdfFiles(b') + extra);
    }
  }

  /** `max(files, key=os.path.getctime)`: the position of the first entry
      with the largest creation time (`max` keeps the first of equal keys). */
  function NewestIndex(files: seq<Entry>): (k: nat)
    requires files != []
    ensures k < |files|
    ensures forall i :: 0 <= i < |files| ==> files[i].ctime <= files[k].ctime
    ensures forall i :: 0 <= i < k ==> files[i].ctime < files[k].ctime
  {
    if |files| == 1 then 0
    else
      var k := NewestIndex(files[..|files| - 1]);
      if files[|files| - 1].ctime > files[k].ctime then |files| - 1 else k
  }

  /** The download a capture picks out of one listing, if it has any `.pdf`. */
  function Newest(listing: seq<Entry>): (r: Option<Entry>)
    ensures r.None? <==> PdfFiles(listing) == []
    ensures r.Some? ==> r.value in listing && IsPdf(r.value)
  {
    var pdfs := PdfFiles(listing);
    if pdfs == [] then None else Some(pdfs[NewestIndex(pdfs)])
  }

  /** The chosen file is a `.pdf` of the listing created no earlier than any
      other `.pdf` in it; there is none exactly when the listing has no `.pdf`. */
  lemma NewestIsLatestPdf(listing: seq<Entry>)
    ensures Newest(listing).None? <==> forall e :: e in listing ==> !IsPdf(e)
    ensures Newest(listing).Some? ==>
      && Newest(listing).value in listing
      && IsPdf(Newest(listing).value)
      && forall e :: e in listing && IsPdf(e) ==> e.ctime <= Newest(listing).value.ctime
  {
    var pdfs := PdfFiles(listing);
    if pdfs != [] {
      var k := NewestIndex(pdfs);
      assert pdfs[0] in pdfs;
      forall e | e in listing && IsPdf(e) ensures e.ctime <= pdfs[k].ctime {
        var i :| 0 <= i < |pdfs| && pdfs[i] == e;
      }
    } else {
      forall e | e in listing ensures !IsPdf(e) {
        assert e !in pdfs;
      }
    }
  }

  /** Stale downloads left by earlier captures lose to a newer file: a `.pdf`
      created strictly after every other `.pdf` in the directory is the one
      chosen. */
  lemma NewestPicksFreshFile(listing: seq<Entry>, newFile: Entry)
    requires newFile in listing && IsPdf(newFile)
    requires forall e :: e in listing && IsPdf(e) && e != newFile ==> e.ctime < newFile.ctime
    ensures Newest(listing) == Some(newFile)
  {
    NewestIsLatestPdf(listing);
  }

  /** The file name a capture is saved under: `f"{label}.pdf"`. */
  function PdfName(title: string): string
  {
    title + PDF_SUFFIX
  }

  /** A saved capture is itself a `.pdf`, and its title can be read back off
      its name. */
  lemma PdfNameRoundTrip(title: string)
    ensures EndsWith(PdfName(title), PDF_SUFFIX)
    ensures PdfName(title)[..|PdfName(title)| - |PDF_SUFFIX|] == title
  {
  }

  /** The `.pdf` files of the first poll that saw any, or none when no poll
      did: what `pdf_files` holds when the polling loop ends. */
  function FirstPdfs(polls: seq<seq<Entry>>): seq<Entry>
  {
    if polls == [] then []
    else if PdfFiles(polls[0]) != [] then PdfFiles(polls[0])
    else FirstPdfs(polls[1..])
  }

  /** The loop ends with no file exactly when no poll saw a `.pdf`; otherwise
      it holds the `.pdf` files of the first poll that saw one. */
  lemma {:induction false} FirstPdfsIsFirstHit(polls: seq<seq<Entry>>)
    ensures FirstPdfs(polls) == [] <==> forall i :: 0 <= i < |polls| ==> PdfFiles(polls[i]) == []
    ensures forall k :: (0 <= k < |polls| && PdfFiles(polls[k]) != [] &&
                         (forall i :: 0 <= i < k ==> PdfFiles(polls[i]) == [])) ==>
                        FirstPdfs(polls) == PdfFiles(polls[k])
  {
    if polls != [] {
      FirstPdfsIsFirstHit(polls[1..]);
      assert forall i :: 1 <= i < |polls| ==> polls[1..][i - 1] == polls[i];
      forall k | 0 <= k < |polls| && PdfFiles(polls[k]) != [] &&
                 (forall i :: 0 <= i < k ==> PdfFiles(polls[i]) == [])
        ensures FirstPdfs(polls) == PdfFiles(polls[k])
      {
        if k > 0 {
          assert polls[1..][k - 1] == polls[k];
          assert forall i :: 0 <= i < k - 1 ==> PdfFiles(polls[1..][i]) == [] by {
            forall i | 0 <= i < k - 1 ensures PdfFiles(polls[1..][i]) == [] {
              assert polls[1..][i] == polls[i + 1];
            }
          }
        }
      }
    }
  }

  /** The polling loop: list the download directory until a `.pdf` appears
      or the polls run out. */
  method AwaitPdfs(polls: seq<seq<Entry>>) returns (pdfFiles: seq<Entry>)
    ensures pdfFiles == FirstPdfs(polls)
  {
    pdfFiles := [];
    var i := 0;
    while |pdfFiles| == 0 && i < |polls|
      invariant 0 <= i <= |polls|
      invariant pdfFiles == [] ==> FirstPdfs(polls) == FirstPdfs(polls[i..])
      invariant pdfFiles != [] ==> pdfFiles == FirstPdfs(polls)
    {
      assert polls[i..][1..] == polls[i + 1..];
      pdfFiles := PdfFiles(polls[i]);
      i := i + 1;
    }
    if pdfFiles == [] {
      assert polls[i..] == [];
    }
  }

  /** What one capture did: moved a download into the parcel folder, or
      reported that it could not save. */
  datatype SaveOutcome = Saved(source: string, target: string) | NotSaved(title: string)

  /** `save_current_page(label, folder)` after the print: nothing is moved
      unless some poll saw a `.pdf`; otherwise the newest file of that poll
      goes to `folder/{label}.pdf`. A failure is reported, not raised. */
  method SaveCurrentPage(title: string, folder: string, downloadDir: string, polls: seq<seq<Entry>>)
    returns (outcome: SaveOutcome)
    ensures outcome.NotSaved? <==> forall i :: 0 <= i < |polls| ==> PdfFiles(polls[i]) == []
    ensures outcome.NotSaved? ==> outcome.title == title
    ensures outcome.Saved? ==>
      var files := FirstPdfs(polls);
      && files != []
      && outcome.source == PathJoin(downloadDir, files[NewestIndex(files)].name)
      && outcome.target == PathJoin(folder, PdfName(title))
    ensures outcome.Saved? ==>
      forall k :: 0 <= k < |polls| && PdfFiles(polls[k]) != [] &&
                  (forall i :: 0 <= i < k ==> PdfFiles(polls[i]) == []) ==>
        Newest(polls[k]).Some? && outcome.source == PathJoin(downloadDir, Newest(polls[k]).value.name)
  {
    var pdfFiles := AwaitPdfs(polls);
    FirstPdfsIsFirstHit(polls);
    if pdfFiles != [] {
      var latest := pdfFiles[NewestIndex(pdfFiles)];
      outcome := Saved(PathJoin(downloadDir, latest.name), PathJoin(folder, PdfName(title)));
    } else {
      outcome := NotSaved(title);
    }
  }
}
