/**
  The iOS browser screen's state: the single `lastDownloadedPDFURL` slot that
  `savePDF` writes and the QuickLook data-source methods read, and the
  navigation delegate that routes intercepted requests to the two download
  paths. The fetch result and the outcome of `data.write(to:)` are inputs; the
  completion handler is taken to run right after the decision.
*/
module WebViewController {
  import opened Foundation
  import opened UrlQuery
  import opened Download

  /** `documentsDirectory.appendingPathComponent(filename)`, kept as its two parts. */
  datatype FileUrl = FileUrl(directory: string, filename: string)

  /** `URL(fileURLWithPath: "")`, what the preview gets when nothing was saved. */
  const EmptyPathItem: FileUrl := FileUrl("", "")

  /** The save request, if any, that a decided navigation leads to. */
  function NavigationOutcome(url: Option<Url>, r: Response): (s: Option<SaveRequest>)
    ensures Decide(url).Allow? ==> s.None?
    ensures Decide(url).DirectDownload? ==> s == DownloadOutcome(url.value, r)
    ensures Decide(url).PrescriptionDownload? ==> s == PrescriptionOutcome(r)
  {
    match Decide(url)
    case Allow => None
    case DirectDownload(u) => DownloadOutcome(u, r)
    case PrescriptionDownload(_) => PrescriptionOutcome(r)
  }

  /** The slot after `savePDF` was (or was not) called with this request. */
  function SlotAfter(slot: Option<FileUrl>, directory: string, s: Option<SaveRequest>, writeSucceeds: bool): (r: Option<FileUrl>)
    ensures s.Some? && writeSucceeds ==> r == Some(FileUrl(directory, s.value.filename))
    ensures !(s.Some? && writeSucceeds) ==> r == slot
  {
    if s.Some? && writeSucceeds then Some(FileUrl(directory, s.value.filename)) else slot
  }

  /** Whether a preview is presented: only after a successful write. */
  predicate Presents(s: Option<SaveRequest>, writeSucceeds: bool)
  {
    s.Some? && writeSucceeds
  }

  /**
    On the prescription route, data that does not start with `%PDF` leads to
    no save and hence no preview.
  */
  lemma NonPdfPrescriptionNotSaved(url: Option<Url>, r: Response, writeSucceeds: bool)
    requires Decide(url).PrescriptionDownload?
    requires r.data.None? || !StartsWithPdfMagic(r.data.value)
    ensures NavigationOutcome(url, r).None?
    ensures !Presents(NavigationOutcome(url, r), writeSucceeds)
  {
  }

  /** A prescription URL without a downloadable extension is saved only as a PDF. */
  lemma PrescriptionSavesOnlyPdf(url: Option<Url>, r: Response)
    requires url.Some? && Contains(url.value.path, PrescriptionPathMarker) && !IsDownloadableFile(url.value)
    requires NavigationOutcome(url, r).Some?
    ensures StartsWithPdfMagic(NavigationOutcome(url, r).value.data)
    ensures HasSuffix(Lower(NavigationOutcome(url, r).value.filename), PdfSuffix)
  {
    PrescriptionFilenameEndsInPdf(r.headers);
  }

  class ViewController {
    const documentsDirectory: string
    var lastDownloadedPDFURL: Option<FileUrl>
    /** How many times `present(previewController, ...)` has been requested. */
    var previewsPresented: nat

    constructor(documentsDirectory: string)
      ensures this.documentsDirectory == documentsDirectory
      ensures lastDownloadedPDFURL == None && previewsPresented == 0
    {
      this.documentsDirectory := documentsDirectory;
      lastDownloadedPDFURL := None;
      previewsPresented := 0;
    }

    /**
      `savePDF(data:filename:)`: a successful write records the file in the
      slot and presents a preview; a failed write changes nothing.
    */
    method SavePDF(data: seq<byte>, filename: string, writeSucceeds: bool)
      modifies this
      ensures writeSucceeds ==> lastDownloadedPDFURL == Some(FileUrl(documentsDirectory, filename))
      ensures writeSucceeds ==> previewsPresented == old(previewsPresented) + 1
      ensures !writeSucceeds ==> lastDownloadedPDFURL == old(lastDownloadedPDFURL)
      ensures !writeSucceeds ==> previewsPresented == old(previewsPresented)
    {
      var fileUrl := FileUrl(documentsDirectory, filename);
      if writeSucceeds {
        lastDownloadedPDFURL := Some(fileUrl);
        previewsPresented := previewsPresented + 1;
      }
    }

    /** `numberOfPreviewItems(in:)`. */
    function NumberOfPreviewItems(): (n: int)
      reads this
      ensures n == 0 || n == 1
      ensures n == 1 <==> lastDownloadedPDFURL.Some?
    {
      if lastDownloadedPDFURL.Some? then 1 else 0
    }

    /** `previewController(_:previewItemAt:)`: the slot's file, whatever the index. */
    function PreviewItemAt(index: int): (item: FileUrl)
      reads this
      ensures lastDownloadedPDFURL.Some? ==> item == lastDownloadedPDFURL.value
      ensures lastDownloadedPDFURL.None? ==> item == EmptyPathItem
    {
      match lastDownloadedPDFURL
      case Some(u) => u
      case None => EmptyPathItem
    }

    /** `downloadFile(_:)`, from the response it receives on. */
    method DownloadFile(u: Url, response: Response, writeSucceeds: bool)
      modifies this
      ensures lastDownloadedPDFURL ==
        SlotAfter(old(lastDownloadedPDFURL), documentsDirectory, DownloadOutcome(u, response), writeSucceeds)
      ensures previewsPresented ==
        old(previewsPresented) + if Presents(DownloadOutcome(u, response), writeSucceeds) then 1 else 0
    {
      if response.transportError {
        return;
      }
      if !response.isHTTP {
        return;
      }
      if response.statusCode != StatusOk || response.data.None? {
        return;
      }
      var data := response.data.value;
      var filename := DeriveDownloadFilename(u, response.headers);
      SavePDF(data, filename, writeSucceeds);
    }

    /** `handlePrescriptionPdfDownload(webView:url:)`, from the response it receives on. */
    method HandlePrescriptionPdfDownload(response: Response, writeSucceeds: bool)
      modifies this
      ensures lastDownloadedPDFURL ==
        SlotAfter(old(lastDownloadedPDFURL), documentsDirectory, PrescriptionOutcome(response), writeSucceeds)
      ensures previewsPresented ==
        old(previewsPresented) + if Presents(PrescriptionOutcome(response), writeSucceeds) then 1 else 0
    {
      if response.transportError {
        return;
      }
      if !response.isHTTP {
        return;
      }
      if response.statusCode != StatusOk || response.data.None? {
        return;
      }
      var data := response.data.value;
      var filename := DerivePrescriptionFilename(response.headers);
      if !StartsWithPdfMagic(data) {
        return;
      }
      SavePDF(data, filename, writeSucceeds);
    }

    /**
      `webView(_:decidePolicyFor:decisionHandler:)`: the policy handed to the
      decision handler, and the effect of the download path it starts.
    */
    method DecidePolicyFor(url: Option<Url>, response: Response, writeSucceeds: bool) returns (policy: Policy)
      modifies this
      ensures policy == PolicyOf(Decide(url))
      ensures lastDownloadedPDFURL ==
        SlotAfter(old(lastDownloadedPDFURL), documentsDirectory, NavigationOutcome(url, response), writeSucceeds)
      ensures previewsPresented ==
        old(previewsPresented) + if Presents(NavigationOutcome(url, response), writeSucceeds) then 1 else 0
    {
      if url.None? {
        return PolicyAllow;
      }
      var u := url.value;
      if IsDownloadableFile(u) {
        DownloadFile(u, response, writeSucceeds);
        return PolicyCancel;
      }
      if Contains(u.path, PrescriptionPathMarker) {
        HandlePrescriptionPdfDownload(response, writeSucceeds);
        return PolicyCancel;
      }
      return PolicyAllow;
    }
  }

  /**
    Two successful saves in a row: the preview shows one item, the second
    file, at every index.
  */
  method LaterSaveReplacesEarlier(vc: ViewController, a: string, b: string, index: int)
    modifies vc
    ensures vc.NumberOfPreviewItems() == 1
    ensures vc.PreviewItemAt(index) == FileUrl(vc.documentsDirectory, b)
  {
    vc.SavePDF([], a, true);
    vc.SavePDF([], b, true);
  }
}
