/**
  The iOS controller's download logic without its I/O: which URLs count as
  downloadable files, the navigation decision, the checks a fetched response
  must pass, and how each download path derives the name it saves under.
  The fetch itself is asynchronous foreign networking; its outcome arrives here
  as a `Response` value.
*/
module Download {
  import opened Foundation
  import opened UrlQuery
  import opened ContentDisposition

  const AllowedExtensions: seq<string> := ["pdf", "jpeg", "jpg", "png"]
  const PrescriptionPathMarker: string := "/api/prescription-pdf"
  const ContentDispositionHeader: string := "Content-Disposition"
  const NameParameter: string := "name"
  const DefaultPrescriptionFilename: string := "prescription.pdf"
  const PdfSuffix: string := ".pdf"
  /** The bytes of "%PDF". */
  const PdfMagic: seq<byte> := [0x25, 0x50, 0x44, 0x46]
  const StatusOk: int := 200

  // ---------------------------------------------------------------------------
  // Classification

  /** `URL(fileURLWithPath: url.lastPathComponent).pathExtension.lowercased()`. */
  function PathExt(u: Url): string
  {
    Lower(PathExtension(u.lastPathComponent))
  }

  /**
    `url.valueOf("name")?.split(separator: ".").last?.lowercased()`: the
    lowercased last non-empty '.'-separated piece of the `name` value.
  */
  function QueryExtension(u: Url): (r: Option<string>)
    ensures r.Some? ==> ValueOf(u, NameParameter).Some?
  {
    match ValueOf(u, NameParameter)
    case None => None
    case Some(v) =>
      var pieces := Split(v, '.');
      if pieces == [] then None else Some(Lower(pieces[|pieces| - 1]))
  }

  /** `isDownloadableFile`. */
  function IsDownloadableFile(u: Url): (r: bool)
    ensures PathExt(u) != "" ==> (r <==> PathExt(u) in AllowedExtensions)
    ensures PathExt(u) == "" ==> (r <==> QueryExtension(u).Some? && QueryExtension(u).value in AllowedExtensions)
  {
    var ext := PathExt(u);
    if ext == [] && QueryExtension(u).Some? then QueryExtension(u).value in AllowedExtensions
    else ext in AllowedExtensions
  }

  /** With a path extension present the query string plays no part. */
  lemma ExtensionIgnoresQuery(u: Url, items: Option<seq<QueryItem>>)
    requires PathExt(u) != ""
    ensures IsDownloadableFile(u.(queryItems := items)) == IsDownloadableFile(u)
  {
  }

  /** Any name ending in '.' and an allowed extension, in any ASCII case, is downloadable. */
  lemma AllowedSuffixIsDownloadable(u: Url, stem: string, e: string)
    requires Lower(e) in AllowedExtensions
    requires u.lastPathComponent == stem + "." + e
    ensures IsDownloadableFile(u)
  {
    forall i | 0 <= i < |e|
      ensures e[i] != '.' && e[i] != '/'
    {
      assert Lower(e)[i] == LowerChar(e[i]);
    }
    PathExtensionAfterDot(stem, e);
  }

  /**
    Without a path extension the text after the last '.' of the `name` value
    decides, case-insensitively: `report.PDF` counts.
  */
  lemma QueryFallbackUsesLastPiece(u: Url, stem: string, e: string)
    requires PathExt(u) == ""
    requires ValueOf(u, NameParameter) == Some(stem + "." + e)
    requires e != [] && forall i :: 0 <= i < |e| ==> e[i] != '.'
    ensures IsDownloadableFile(u) <==> Lower(e) in AllowedExtensions
  {
    LastPieceAfterSeparator(stem, '.', e);
  }

  /** A dot-free `name` value is its own last piece, so `name=pdf` counts too. */
  lemma BareNameIsItsOwnExtension(u: Url, v: string)
    requires PathExt(u) == ""
    requires ValueOf(u, NameParameter) == Some(v)
    requires v != [] && forall i :: 0 <= i < |v| ==> v[i] != '.'
    ensures IsDownloadableFile(u) <==> Lower(v) in AllowedExtensions
  {
    SplitWhole(v, '.');
  }

  /** A missing `name`, or one made of dots only (the empty value included), gives false. */
  lemma NoQueryPieceNotDownloadable(u: Url)
    requires PathExt(u) == ""
    requires ValueOf(u, NameParameter).None? ||
             forall i :: 0 <= i < |ValueOf(u, NameParameter).value| ==> ValueOf(u, NameParameter).value[i] == '.'
    ensures !IsDownloadableFile(u)
  {
    if ValueOf(u, NameParameter).Some? {
      SplitEmptyIff(ValueOf(u, NameParameter).value, '.');
    }
  }

  /** The example `.../file?name=report.PDF`. */
  lemma ReportPdfQueryExample()
    ensures IsDownloadableFile(Url("/download/file", "file", Some([QueryItem("name", Some("report.PDF"))])))
  {
    var u := Url("/download/file", "file", Some([QueryItem("name", Some("report.PDF"))]));
    NoDotNoExtension("file");
    assert "report.PDF" == "report" + "." + "PDF";
    QueryFallbackUsesLastPiece(u, "report", "PDF");
    assert Lower("PDF") == "pdf";
  }

  // ---------------------------------------------------------------------------
  // Navigation decision

  /** What `decidePolicyFor` does with a navigation. */
  datatype Route = Allow | DirectDownload(url: Url) | PrescriptionDownload(url: Url)

  datatype Policy = PolicyAllow | PolicyCancel

  /**
    `webView(_:decidePolicyFor:decisionHandler:)`: a missing URL is allowed, a
    downloadable file goes to `downloadFile`, otherwise a prescription path
    goes to the prescription handler, and anything else is allowed.
  */
  function Decide(url: Option<Url>): (r: Route)
    ensures url.None? ==> r == Allow
    ensures url.Some? && IsDownloadableFile(url.value) ==> r == DirectDownload(url.value)
    ensures url.Some? && !IsDownloadableFile(url.value) && Contains(url.value.path, PrescriptionPathMarker) ==>
      r == PrescriptionDownload(url.value)
    ensures url.Some? && !IsDownloadableFile(url.value) && !Contains(url.value.path, PrescriptionPathMarker) ==>
      r == Allow
  {
    match url
    case None => Allow
    case Some(u) =>
      if IsDownloadableFile(u) then DirectDownload(u)
      else if Contains(u.path, PrescriptionPathMarker) then PrescriptionDownload(u)
      else Allow
  }

  /** The policy handed to the decision handler for a route. */
  function PolicyOf(r: Route): (p: Policy)
    ensures p == PolicyAllow <==> r.Allow?
  {
    if r.Allow? then PolicyAllow else PolicyCancel
  }

  /** `/api/prescription-pdf/42` has no extension and no query, so it takes the prescription route. */
  lemma PrescriptionRouteExample()
    ensures Decide(Some(Url("/api/prescription-pdf/42", "42", None))) == PrescriptionDownload(Url("/api/prescription-pdf/42", "42", None))
  {
    var u := Url("/api/prescription-pdf/42", "42", None);
    NoDotNoExtension("42");
    assert !IsDownloadableFile(u);
    assert u.path[0..|PrescriptionPathMarker|] == PrescriptionPathMarker;
    ContainsAt(u.path, PrescriptionPathMarker, 0);
  }

  /** A navigation is cancelled exactly when its URL is present and intercepted. */
  lemma CancelledExactlyWhenIntercepted(url: Option<Url>)
    ensures PolicyOf(Decide(url)) == PolicyCancel <==>
      url.Some? && (IsDownloadableFile(url.value) || Contains(url.value.path, PrescriptionPathMarker))
  {
  }

  // ---------------------------------------------------------------------------
  // Responses

  /** What the data task's completion handler receives. */
  datatype Response = Response(
    transportError: bool,         // `error != nil`
    isHTTP: bool,                 // `response as? HTTPURLResponse` succeeds
    statusCode: int,
    data: Option<seq<byte>>,
    headers: map<string, string>  // `allHeaderFields`, looked up by exact key
  )

  /** What a download path hands to `savePDF`. */
  datatype SaveRequest = SaveRequest(data: seq<byte>, filename: string)

  /**
    The guards both download paths share: no transport error, an HTTP
    response, status 200 and data present.
  */
  function AcceptedData(r: Response): (d: Option<seq<byte>>)
    ensures d.Some? <==> !r.transportError && r.isHTTP && r.statusCode == StatusOk && r.data.Some?
    ensures d.Some? ==> d == r.data
  {
    if r.transportError || !r.isHTTP || r.statusCode != StatusOk then None else r.data
  }

  /** The name the `Content-Disposition` header yields, if the header is there and matches. */
  function HeaderName(headers: map<string, string>): (r: Option<string>)
    ensures r.Some? <==>
      ContentDispositionHeader in headers && exists p :: MatchLengthAt(headers[ContentDispositionHeader], p).Some?
    ensures r.Some? ==> |r.value| <= 2 && PathExtension(r.value) == ""
  {
    if ContentDispositionHeader in headers then
      var n := HeaderFilename(headers[ContentDispositionHeader]);
      assert n.Some? ==> PathExtension(n.value) == "" by {
        if n.Some? { HeaderFilenameHasNoExtension(headers[ContentDispositionHeader]); }
      }
      n
    else None
  }

  // ---------------------------------------------------------------------------
  // downloadFile

  /** The name `downloadFile` arrives at before the `.pdf` default: later sources override earlier ones. */
  function DownloadBaseName(u: Url, headers: map<string, string>): string
  {
    if HeaderName(headers).Some? then HeaderName(headers).value
    else if ValueOf(u, NameParameter).Some? && ValueOf(u, NameParameter).value != "" then ValueOf(u, NameParameter).value
    else u.lastPathComponent
  }

  /** The name `downloadFile` saves under. */
  function ResolvedFilename(u: Url, headers: map<string, string>): (r: string)
    ensures r != ""
    ensures PathExtension(r) != ""
  {
    var base := DownloadBaseName(u, headers);
    if PathExtension(base) == "" then
      PathExtensionAfterDot(base, "pdf");
      assert base + PdfSuffix == base + "." + "pdf";
      base + PdfSuffix
    else base
  }

  /**
    The filename derivation of `downloadFile`, step by step as the source does
    it: `filename` and `ext` start from the last path component, are replaced
    by a non-empty `name` value, then by a header match, and `.pdf` is added
    when the final `ext` is empty.
  */
  method DeriveDownloadFilename(u: Url, headers: map<string, string>) returns (filename: string)
    ensures filename == ResolvedFilename(u, headers)
  {
    filename := u.lastPathComponent;
    var ext := Lower(PathExtension(filename));
    var nameParam := ValueOf(u, NameParameter);
    if nameParam.Some? && nameParam.value != "" {
      filename := nameParam.value;
      ext := Lower(PathExtension(filename));
    }
    if ContentDispositionHeader in headers {
      var disposition := headers[ContentDispositionHeader];
      var found := HeaderFilename(disposition);
      if found.Some? {
        filename := found.value;
        ext := Lower(PathExtension(filename));
      }
    }
    assert filename == DownloadBaseName(u, headers);
    assert ext == "" <==> PathExtension(filename) == "";
    if ext == "" {
      filename := filename + PdfSuffix;
    }
  }

  /** A header match always wins, and its name always gets `.pdf` added. */
  lemma HeaderMatchWins(u: Url, headers: map<string, string>)
    requires HeaderName(headers).Some?
    ensures ResolvedFilename(u, headers) == HeaderName(headers).value + PdfSuffix
  {
  }

  /** Without a header match a non-empty `name` value is used, its own extension kept. */
  lemma NameParameterBeatsPath(u: Url, headers: map<string, string>, v: string)
    requires HeaderName(headers).None?
    requires ValueOf(u, NameParameter) == Some(v) && v != ""
    ensures ResolvedFilename(u, headers) == if PathExtension(v) == "" then v + PdfSuffix else v
  {
  }

  /** With no hint at all the last path component is used. */
  lemma PathComponentFallback(u: Url, headers: map<string, string>)
    requires HeaderName(headers).None?
    requires ValueOf(u, NameParameter).None? || ValueOf(u, NameParameter).value == ""
    ensures ResolvedFilename(u, headers) ==
      if PathExtension(u.lastPathComponent) == "" then u.lastPathComponent + PdfSuffix else u.lastPathComponent
  {
  }

  /** `/files/report` with no hints is saved as `report.pdf`. */
  lemma ReportWithoutHintsExample()
    ensures ResolvedFilename(Url("/files/report", "report", None), map[]) == "report.pdf"
  {
    NoDotNoExtension("report");
  }

  /**
    On the route `decidePolicyFor` actually takes to `downloadFile`, a URL with
    neither a header match nor a non-empty `name` value already has a path
    extension, so its last path component is saved unchanged.
  */
  lemma DirectDownloadKeepsPathComponent(u: Url, headers: map<string, string>)
    requires Decide(Some(u)).DirectDownload?
    requires HeaderName(headers).None?
    requires ValueOf(u, NameParameter).None? || ValueOf(u, NameParameter).value == ""
    ensures PathExtension(u.lastPathComponent) != ""
    ensures ResolvedFilename(u, headers) == u.lastPathComponent
  {
    assert IsDownloadableFile(u);
    if PathExt(u) == "" {
      NoQueryPieceNotDownloadable(u);
      assert false;
    }
    PathComponentFallback(u, headers);
  }

  /**
    `Content-Disposition: filename=<VT>ab` matches nothing, so `/files/doc.pdf`
    keeps its own name.
  */
  lemma VerticalTabHeaderKeepsPathName()
    ensures ResolvedFilename(
      Url("/files/doc.pdf", "doc.pdf", None),
      map[ContentDispositionHeader := "filename=\U{000B}ab"]) == "doc.pdf"
  {
    VerticalTabBlocksMatch();
    PathExtensionAfterDot("doc", "pdf");
    assert "doc.pdf" == "doc" + "." + "pdf";
  }

  /**
    With `name=x.png` and `Content-Disposition: filename="y.jpg"` the header
    wins, but what it yields is the one-character name `"`: the file is saved
    as `".pdf`.
  */
  lemma HeaderAndNameExample()
    ensures ResolvedFilename(
      Url("/files/doc.pdf", "doc.pdf", Some([QueryItem("name", Some("x.png"))])),
      map[ContentDispositionHeader := "filename=\"y.jpg\""]) == "\".pdf"
  {
    QuotedNameYieldsQuote("y.jpg");
    assert "filename=\"y.jpg\"" == "filename=\"" + "y.jpg" + "\"";
  }

  /** The `name` value can replace an allowed extension by any other one. */
  lemma NameParameterKeepsForeignExtension()
    ensures ResolvedFilename(Url("/files/a.pdf", "a.pdf", Some([QueryItem("name", Some("x.exe"))])), map[]) == "x.exe"
  {
    var u := Url("/files/a.pdf", "a.pdf", Some([QueryItem("name", Some("x.exe"))]));
    assert HeaderName(map[]).None?;
    assert ValueOf(u, NameParameter) == Some("x.exe");
    assert DownloadBaseName(u, map[]) == "x.exe";
    PathExtensionAfterDot("x", "exe");
    assert "x.exe" == "x" + "." + "exe";
  }

  /** `downloadFile`'s guards and the request it hands to `savePDF`. */
  function DownloadOutcome(u: Url, r: Response): (s: Option<SaveRequest>)
    ensures s.Some? <==> AcceptedData(r).Some?
    ensures s.Some? ==> s.value == SaveRequest(r.data.value, ResolvedFilename(u, r.headers))
  {
    match AcceptedData(r)
    case None => None
    case Some(d) => Some(SaveRequest(d, ResolvedFilename(u, r.headers)))
  }

  // ---------------------------------------------------------------------------
  // handlePrescriptionPdfDownload

  /** The name `handlePrescriptionPdfDownload` saves under. */
  function PrescriptionFilename(headers: map<string, string>): (r: string)
    ensures HeaderName(headers).None? ==> r == DefaultPrescriptionFilename
    ensures HeaderName(headers).Some? ==> r == HeaderName(headers).value + PdfSuffix
  {
    var base := if HeaderName(headers).Some? then HeaderName(headers).value else DefaultPrescriptionFilename;
    if HasSuffix(Lower(base), PdfSuffix) then base else base + PdfSuffix
  }

  /**
    The filename derivation of `handlePrescriptionPdfDownload`: the default,
    replaced by a header match, with `.pdf` added unless the lowercased name
    already ends in it.
  */
  method DerivePrescriptionFilename(headers: map<string, string>) returns (filename: string)
    ensures filename == PrescriptionFilename(headers)
  {
    filename := DefaultPrescriptionFilename;
    if ContentDispositionHeader in headers {
      var disposition := headers[ContentDispositionHeader];
      var found := HeaderFilename(disposition);
      if found.Some? {
        filename := found.value;
      }
    }
    if !HasSuffix(Lower(filename), PdfSuffix) {
      filename := filename + PdfSuffix;
    }
  }

  /** The default prescription name is already lower-case. */
  lemma DefaultNameIsLower()
    ensures Lower(DefaultPrescriptionFilename) == DefaultPrescriptionFilename
  {
    assert forall i :: 0 <= i < |DefaultPrescriptionFilename| ==> !('A' <= DefaultPrescriptionFilename[i] <= 'Z');
  }

  /** The prescription name always ends in `.pdf`, whatever the header says. */
  lemma PrescriptionFilenameEndsInPdf(headers: map<string, string>)
    ensures HasSuffix(Lower(PrescriptionFilename(headers)), PdfSuffix)
  {
    var r := PrescriptionFilename(headers);
    if HeaderName(headers).Some? {
      var n := HeaderName(headers).value;
      LowerAppend(n, PdfSuffix);
      assert Lower(PdfSuffix) == PdfSuffix;
      assert Lower(r) == Lower(n) + PdfSuffix;
      assert Lower(r)[|Lower(r)| - |PdfSuffix|..] == PdfSuffix;
    } else {
      DefaultNameIsLower();
    }
  }

  /** `data.starts(with: [0x25, 0x50, 0x44, 0x46])`. */
  predicate StartsWithPdfMagic(data: seq<byte>)
  {
    |PdfMagic| <= |data| && data[..|PdfMagic|] == PdfMagic
  }

  /** `handlePrescriptionPdfDownload`'s guards and the request it hands to `savePDF`. */
  function PrescriptionOutcome(r: Response): (s: Option<SaveRequest>)
    ensures s.Some? <==> AcceptedData(r).Some? && StartsWithPdfMagic(r.data.value)
    ensures s.Some? ==> s.value == SaveRequest(r.data.value, PrescriptionFilename(r.headers))
  {
    match AcceptedData(r)
    case None => None
    case Some(d) => if StartsWithPdfMagic(d) then Some(SaveRequest(d, PrescriptionFilename(r.headers))) else None
  }

  /**
    A prescription URL whose last component ends in `.pdf` is taken by the
    generic download path, so data that is not a PDF is still saved.
  */
  lemma PdfPrescriptionUrlSkipsMagicCheck(u: Url, stem: string, r: Response)
    requires u.lastPathComponent == stem + ".pdf"
    requires Contains(u.path, PrescriptionPathMarker)
    requires AcceptedData(r).Some? && !StartsWithPdfMagic(r.data.value)
    ensures Decide(Some(u)) == DirectDownload(u)
    ensures DownloadOutcome(u, r).Some?
    ensures PrescriptionOutcome(r).None?
  {
    assert stem + ".pdf" == stem + "." + "pdf";
    assert Lower("pdf") == "pdf";
    AllowedSuffixIsDownloadable(u, stem, "pdf");
  }
}
