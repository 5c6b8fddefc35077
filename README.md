# capacitor-webview: download interception and file-chooser delivery

A Dafny model of the two pieces of logic in the capacitor-webview plugin that can
be stated precisely.

- **iOS browser screen** (`CustomWebViewController.swift`). The navigation delegate
  decides, for each navigation, whether to allow it or cancel it. A cancelled
  navigation goes to one of two download paths. One path is the generic
  `downloadFile`. The other is the prescription-PDF path, for URLs whose path
  contains `/api/prescription-pdf`. A URL counts as a downloadable file when the
  lowercased extension of its last path component is `pdf`, `jpeg`, `jpg` or `png`.
  When there is no extension, the last '.'-piece of the `name` query value decides.
  Each path checks the fetched response and derives a file name. The prescription
  path also requires the `%PDF` magic bytes. A successful save fills the single
  `lastDownloadedPDFURL` slot, and the QuickLook data source reads that slot.
- **Android activity** (`CustomWebviewActivity.java`). `onShowFileChooser` parks
  the web view's callback in `mUploadMessage`. `onActivityResult` hands that
  callback the chosen URIs exactly once, then clears the slot. The value handed
  over is null, the clip-data URIs in order, or the data string, which wins.
  `onRequestPermissionsResult` reloads the page only when both the camera and the
  microphone were granted.

Modules, one per component:

- `Foundation` (foundation.dfy): `Option`, bytes, and simple stated definitions of
  the Swift/Foundation helpers used. These are ASCII `lowercased()`, `hasSuffix`,
  `contains`, `pathExtension` and `split(separator:)`.
- `UrlQuery` (url_query.dfy): the URL record and `URL.valueOf`.
- `ContentDisposition` (content_disposition.dfy): the `filename="?(.+?)"?` match as
  ICU performs it.
- `Download` (download.dfy): classification, the navigation decision, the response
  guards and both filename derivations.
- `WebViewController` (view_controller.dfy): the iOS controller class and its slot.
- `FileChooser` (file_chooser.dfy): the Android activity class and its pending slot.

External results are inputs to the model. These are the fetched response (a
`Response` record), the outcome of `data.write(to:)` (a boolean) and the callbacks
and intents the Android platform supplies.

## Behaviour the model makes explicit

The model follows the code where it departs from what the plugin evidently means
to do:

- **A well-formed header never supplies the real file name.** Under ICU semantics the lazy
  `.+?` in `filename="?(.+?)"?` matches one character. The match then loses its
  first 9 characters and its last one, so the name taken from the header is at
  most two characters long. `filename="y.jpg"` yields `"` (`QuotedNameYieldsQuote`).
  So with `name=x.png` and that header, `downloadFile` saves `".pdf`
  (`HeaderAndNameExample`). An unquoted `filename=report.pdf` yields the empty name
  (`UnquotedNameYieldsEmpty`). Only a malformed header can yield a real
  character: `filename=a"` yields `a` (`MalformedHeaderExample`).
- **Header over `name` over path.** In `downloadFile` a header match overrides a
  non-empty `name` value, which overrides the last path component.
- **The saved name's extension is not always an allowed one.** `name=x.exe` on
  `/files/a.pdf` is saved as `x.exe` (`NameParameterKeepsForeignExtension`).
- **Prescription URLs are not themselves "downloadable files".** They are a
  separate route, tried only after the extension check. So a prescription URL
  ending in `.pdf` takes the generic path and skips the magic-byte check
  (`PdfPrescriptionUrlSkipsMagicCheck`).

## Model

| member | source | states |
|---|---|---|
| Foundation.Lower | ios/Sources/CustomWebviewPlugin/CustomWebViewController.swift:248 | `lowercased()` keeps the length, maps each character by ASCII lower-casing, and leaves no ASCII capital behind |
| Foundation.HasSuffix | ios/Sources/CustomWebviewPlugin/CustomWebViewController.swift:248 | `hasSuffix`: the second text is the tail of the first |
| Foundation.Contains | ios/Sources/CustomWebviewPlugin/CustomWebViewController.swift:176 | `contains`: the second text occurs in the first at some position |
| Foundation.PathExtension | ios/Sources/CustomWebviewPlugin/CustomWebViewController.swift:293-307 | `pathExtension`, simplified: the extension has no '.' or '/', and a non-empty extension `e` means the name ends in `.e`; no '.' in the last segment gives the empty extension |
| Foundation.Split | ios/Sources/CustomWebviewPlugin/CustomWebViewController.swift:206 | `split(separator:)`: the maximal runs of non-separator characters, in order, with empty pieces omitted (stated by `SplitPieces`, `SplitEmptyIff`, `SplitAround` and `LastPieceAfterSeparator`) |
| Foundation.PathExtensionAfterDot | ios/Sources/CustomWebviewPlugin/CustomWebViewController.swift:202 | the extension of `stem.e` is `e` when `e` has no '.' or '/' |
| Foundation.NoDotNoExtension | ios/Sources/CustomWebviewPlugin/CustomWebViewController.swift:202 | a name without '.' has the empty extension |
| Foundation.ContainsAt | ios/Sources/CustomWebviewPlugin/CustomWebViewController.swift:176 | a text that occurs at some position of the path is contained in it |
| Foundation.SplitPieces | ios/Sources/CustomWebviewPlugin/CustomWebViewController.swift:206 | every piece of `split(separator:)` is non-empty and free of the separator |
| Foundation.SplitEmptyIff | ios/Sources/CustomWebviewPlugin/CustomWebViewController.swift:206 | the split has no piece, so `.last` is nil, iff the value consists of separators only (the empty value included) |
| Foundation.SplitAround | ios/Sources/CustomWebviewPlugin/CustomWebViewController.swift:206 | a separator splits the input into the pieces of the part before it followed by the pieces of the part after it |
| Foundation.LastPieceAfterSeparator | ios/Sources/CustomWebviewPlugin/CustomWebViewController.swift:206 | the last piece of `stem.e` is `e` for a non-empty dot-free `e` |
| UrlQuery.FirstNamed | ios/Sources/CustomWebviewPlugin/CustomWebViewController.swift:380 | `first(where:)` finds the first item with the name, or reports that none has it |
| UrlQuery.ValueOf | ios/Sources/CustomWebviewPlugin/CustomWebViewController.swift:377-382 | `valueOf` gives the value of the first item named exactly so. A later item with a value is never seen past an earlier value-less one. No query items gives nil |
| ContentDisposition.IsLineTerminator | ios/Sources/CustomWebviewPlugin/CustomWebViewController.swift:242 | the characters ICU's `.` refuses without dot-all: U+000A to U+000D, U+0085, U+2028 and U+2029 |
| ContentDisposition.MatchLengthAt | ios/Sources/CustomWebviewPlugin/CustomWebViewController.swift:242-243 | a match of the pattern starts at p iff `filename=` stands there followed by a character that is not a line terminator to ICU's `.` (U+000A to U+000D, U+0085, U+2028, U+2029); it is 10 to 12 characters long |
| ContentDisposition.FirstMatch | ios/Sources/CustomWebviewPlugin/CustomWebViewController.swift:243 | `range(of:options:)` finds the leftmost match: no match starts before it, and none at all when it reports none |
| ContentDisposition.HeaderFilename | ios/Sources/CustomWebviewPlugin/CustomWebViewController.swift:242-244 | a name is produced iff the pattern matches somewhere; it is at most 2 characters long, and starts with `"` when it has 2 |
| ContentDisposition.HeaderFilenameHasNoExtension | ios/Sources/CustomWebviewPlugin/CustomWebViewController.swift:304-307 | a header-derived name never has a path extension, so `ext` is empty after the header override |
| ContentDisposition.QuotedNameYieldsQuote | ios/Sources/CustomWebviewPlugin/CustomWebViewController.swift:242-244 | `filename="<name>"` yields just `"` when the name has at least 2 characters, its first is not a line terminator and its second is not `"` |
| ContentDisposition.OneCharacterQuotedName | ios/Sources/CustomWebviewPlugin/CustomWebViewController.swift:242-244 | `filename="c"` yields `"c` |
| ContentDisposition.UnquotedNameYieldsEmpty | ios/Sources/CustomWebviewPlugin/CustomWebViewController.swift:242-244 | `filename=<name>` yields the empty name when the name has at least 2 characters, its first is neither `"` nor a line terminator and its second is not `"` |
| ContentDisposition.AttachmentHeaderExample | ios/Sources/CustomWebviewPlugin/CustomWebViewController.swift:304-306 | `attachment; filename="y.jpg"` yields `"` |
| ContentDisposition.MalformedHeaderExample | ios/Sources/CustomWebviewPlugin/CustomWebViewController.swift:242-244 | the malformed `filename=a"` yields `a` |
| ContentDisposition.VerticalTabBlocksMatch | ios/Sources/CustomWebviewPlugin/CustomWebViewController.swift:242-243 | `filename=` followed by a vertical tab matches nothing |
| Download.PathExt | ios/Sources/CustomWebviewPlugin/CustomWebViewController.swift:202 | the lowercased path extension of the last path component |
| Download.QueryExtension | ios/Sources/CustomWebviewPlugin/CustomWebViewController.swift:206 | the query-derived extension exists only when a `name` value exists |
| Download.IsDownloadableFile | ios/Sources/CustomWebviewPlugin/CustomWebViewController.swift:199-211 | with a non-empty lowercased path extension the result is exactly membership in {pdf, jpeg, jpg, png}. Otherwise it is membership of the lowercased last piece of `name`, and false without one |
| Download.ExtensionIgnoresQuery | ios/Sources/CustomWebviewPlugin/CustomWebViewController.swift:202-210 | with a path extension, changing the query items never changes the classification |
| Download.AllowedSuffixIsDownloadable | ios/Sources/CustomWebviewPlugin/CustomWebViewController.swift:202-210 | a last path component ending in `.pdf`, `.jpeg`, `.jpg` or `.png`, in any ASCII case, is downloadable |
| Download.QueryFallbackUsesLastPiece | ios/Sources/CustomWebviewPlugin/CustomWebViewController.swift:206-208 | without a path extension and with `name=stem.e`, the result is whether lowercased `e` is allowed (`report.PDF` counts) |
| Download.BareNameIsItsOwnExtension | ios/Sources/CustomWebviewPlugin/CustomWebViewController.swift:206-208 | a dot-free `name` value is tested as a whole, so `name=pdf` counts |
| Download.NoQueryPieceNotDownloadable | ios/Sources/CustomWebviewPlugin/CustomWebViewController.swift:206-210 | without a path extension, a missing, empty or all-dots `name` gives false |
| Download.ReportPdfQueryExample | ios/Sources/CustomWebviewPlugin/CustomWebViewController.swift:206-208 | `.../file?name=report.PDF` is downloadable |
| Download.Decide | ios/Sources/CustomWebviewPlugin/CustomWebViewController.swift:160-184 | a nil URL is allowed. A downloadable URL goes to `downloadFile`. Otherwise a path containing `/api/prescription-pdf` goes to the prescription handler, and anything else is allowed. The download check comes first |
| Download.PolicyOf | ios/Sources/CustomWebviewPlugin/CustomWebViewController.swift:163-183 | the decision handler gets `.allow` exactly for the allow route |
| Download.CancelledExactlyWhenIntercepted | ios/Sources/CustomWebviewPlugin/CustomWebViewController.swift:160-184 | a navigation is cancelled iff its URL is present and it is downloadable or its path contains the prescription marker |
| Download.PrescriptionRouteExample | ios/Sources/CustomWebviewPlugin/CustomWebViewController.swift:169-180 | `/api/prescription-pdf/42` without a query goes to the prescription handler |
| Download.AcceptedData | ios/Sources/CustomWebviewPlugin/CustomWebViewController.swift:275-290 | data is kept iff there is no error, the response is HTTP, the status is 200 and data is present |
| Download.HeaderName | ios/Sources/CustomWebviewPlugin/CustomWebViewController.swift:302-306 | a name is derived iff the `Content-Disposition` header is present and its value matches the pattern somewhere; the name has at most 2 characters and no extension |
| Download.DownloadBaseName | ios/Sources/CustomWebviewPlugin/CustomWebViewController.swift:292-309 | later sources override earlier ones: a header match, else a non-empty `name` value, else the last path component (its cases are stated by `HeaderMatchWins`, `NameParameterBeatsPath` and `PathComponentFallback`) |
| Download.ResolvedFilename | ios/Sources/CustomWebviewPlugin/CustomWebViewController.swift:292-313 | the name `downloadFile` saves under is never empty and always has an extension |
| Download.DeriveDownloadFilename | ios/Sources/CustomWebviewPlugin/CustomWebViewController.swift:292-313 | the step-by-step reassignment of `filename` and `ext` arrives at that name |
| Download.HeaderMatchWins | ios/Sources/CustomWebviewPlugin/CustomWebViewController.swift:301-313 | a header match overrides everything else, and its name always gets `.pdf` added |
| Download.NameParameterBeatsPath | ios/Sources/CustomWebviewPlugin/CustomWebViewController.swift:295-299 | without a header match a non-empty `name` value is the name, with `.pdf` added only when it has no extension |
| Download.PathComponentFallback | ios/Sources/CustomWebviewPlugin/CustomWebViewController.swift:292-293 | without a header match or a non-empty `name`, the last path component is the name, with `.pdf` added only when it has no extension |
| Download.ReportWithoutHintsExample | ios/Sources/CustomWebviewPlugin/CustomWebViewController.swift:292-313 | `downloadFile` on its own saves `/files/report` without hints as `report.pdf`; `decidePolicyFor` never sends that URL there, since it is not downloadable |
| Download.DirectDownloadKeepsPathComponent | ios/Sources/CustomWebviewPlugin/CustomWebViewController.swift:169-172 | on the route `decidePolicyFor` takes to `downloadFile`, without a header match or a non-empty `name` the last path component already has an extension and is saved unchanged |
| Download.VerticalTabHeaderKeepsPathName | ios/Sources/CustomWebviewPlugin/CustomWebViewController.swift:292-313 | `/files/doc.pdf` with `Content-Disposition: filename=<VT>ab` keeps the name `doc.pdf` |
| Download.HeaderAndNameExample | ios/Sources/CustomWebviewPlugin/CustomWebViewController.swift:295-313 | `name=x.png` with `filename="y.jpg"` is saved as `".pdf` |
| Download.NameParameterKeepsForeignExtension | ios/Sources/CustomWebviewPlugin/CustomWebViewController.swift:295-299 | `/files/a.pdf?name=x.exe` is saved as `x.exe` |
| Download.DownloadOutcome | ios/Sources/CustomWebviewPlugin/CustomWebViewController.swift:274-316 | `downloadFile` calls `savePDF` iff the response passes the guards, with the response data and the resolved name |
| Download.PrescriptionFilename | ios/Sources/CustomWebviewPlugin/CustomWebViewController.swift:239-250 | the name is `prescription.pdf` without a header match, and the header-derived name plus `.pdf` with one |
| Download.DerivePrescriptionFilename | ios/Sources/CustomWebviewPlugin/CustomWebViewController.swift:239-250 | the step-by-step reassignment of `filename` arrives at that name |
| Download.PrescriptionFilenameEndsInPdf | ios/Sources/CustomWebviewPlugin/CustomWebViewController.swift:248-250 | the lowercased prescription name always ends in `.pdf` |
| Download.StartsWithPdfMagic | ios/Sources/CustomWebviewPlugin/CustomWebViewController.swift:253 | the data begins with the four bytes `25 50 44 46` (`%PDF`) |
| Download.PrescriptionOutcome | ios/Sources/CustomWebviewPlugin/CustomWebViewController.swift:221-258 | the prescription path calls `savePDF` iff the guards pass and the data starts with `25 50 44 46` |
| Download.PdfPrescriptionUrlSkipsMagicCheck | ios/Sources/CustomWebviewPlugin/CustomWebViewController.swift:169-181 | a prescription URL ending in `.pdf` takes the generic path, so non-PDF data is saved there although the prescription path would refuse it |
| WebViewController.NavigationOutcome | ios/Sources/CustomWebviewPlugin/CustomWebViewController.swift:169-181 | an allowed navigation saves nothing; each cancelled one saves what its download path decides |
| WebViewController.SlotAfter | ios/Sources/CustomWebviewPlugin/CustomWebViewController.swift:328-331 | a successful write puts documents/filename in the slot; a failed or skipped one leaves it as it was |
| WebViewController.Presents | ios/Sources/CustomWebviewPlugin/CustomWebViewController.swift:328-338 | a preview is presented only when a save was requested and the write succeeded |
| WebViewController.NonPdfPrescriptionNotSaved | ios/Sources/CustomWebviewPlugin/CustomWebViewController.swift:253-258 | on the prescription route, data without the `%PDF` bytes is not saved and no preview is shown |
| WebViewController.PrescriptionSavesOnlyPdf | ios/Sources/CustomWebviewPlugin/CustomWebViewController.swift:176-181 | whatever a prescription-only URL saves starts with `%PDF` and has a name ending in `.pdf` |
| WebViewController.ViewController.constructor | ios/Sources/CustomWebviewPlugin/CustomWebViewController.swift:8-13 | a new screen has an empty slot and has shown no preview |
| WebViewController.ViewController.SavePDF | ios/Sources/CustomWebviewPlugin/CustomWebViewController.swift:323-342 | a successful write sets the slot to documents/filename and presents one preview. A failed write changes neither |
| WebViewController.ViewController.NumberOfPreviewItems | ios/Sources/CustomWebviewPlugin/CustomWebViewController.swift:346-350 | the count is 1 iff the slot is set, and 0 otherwise |
| WebViewController.ViewController.PreviewItemAt | ios/Sources/CustomWebviewPlugin/CustomWebViewController.swift:352-359 | for any index the item is the slot's URL, or the empty-path URL when the slot is empty |
| WebViewController.ViewController.DownloadFile | ios/Sources/CustomWebviewPlugin/CustomWebViewController.swift:265-321 | the slot and the number of previews change exactly as `DownloadOutcome` and the write outcome say |
| WebViewController.ViewController.HandlePrescriptionPdfDownload | ios/Sources/CustomWebviewPlugin/CustomWebViewController.swift:213-263 | the slot and the number of previews change exactly as `PrescriptionOutcome` and the write outcome say |
| WebViewController.ViewController.DecidePolicyFor | ios/Sources/CustomWebviewPlugin/CustomWebViewController.swift:160-184 | the policy is that of `Decide`, and the slot and previews change as the chosen download path says |
| WebViewController.LaterSaveReplacesEarlier | ios/Sources/CustomWebviewPlugin/CustomWebViewController.swift:329-331 | after two successful saves the preview shows one item, the second file, at every index |
| FileChooser.ChooserResults | android/src/main/java/com/webview/capacitor/custom/CustomWebviewActivity.java:177-192 | the value every delivery carries: null unless the result is OK with an intent; the data string as a one-element array when present; else the clip items' URIs in order, or null without clip data |
| FileChooser.SelectResults | android/src/main/java/com/webview/capacitor/custom/CustomWebviewActivity.java:177-192 | the value is null unless the result is OK and an intent came back. With clip data and no data string it holds the item URIs in index order, one per item. A data string overrides clip data with a one-element array, and without either the value is null |
| FileChooser.CustomWebViewActivity.constructor | android/src/main/java/com/webview/capacitor/custom/CustomWebviewActivity.java:37 | a new activity has no pending callback |
| FileChooser.CustomWebViewActivity.OnShowFileChooser | android/src/main/java/com/webview/capacitor/custom/CustomWebviewActivity.java:133-141 | the new callback overwrites the pending slot, nothing is delivered, and true is returned |
| FileChooser.CustomWebViewActivity.OnActivityResult | android/src/main/java/com/webview/capacitor/custom/CustomWebviewActivity.java:173-196 | nothing happens for another request code or without a pending callback. Otherwise the pending callback gets the selected value once and the slot becomes empty |
| FileChooser.ShouldReload | android/src/main/java/com/webview/capacitor/custom/CustomWebviewActivity.java:206-208 | the camera/microphone code with more than one result, the first two granted |
| FileChooser.CustomWebViewActivity.OnRequestPermissionsResult | android/src/main/java/com/webview/capacitor/custom/CustomWebviewActivity.java:204-214 | the page reloads iff the code is the camera/microphone code, there are more than 1 results and the first two are granted. Otherwise, for that code, the notice is shown |
| FileChooser.RepeatedResultDeliversOnce | android/src/main/java/com/webview/capacitor/custom/CustomWebviewActivity.java:193-194 | a chooser answered twice calls its callback exactly once |

## Left out

- View construction, the button bar, layout constraints and web view settings are left out. So are the close, back, forward and reload buttons. They are UI only.
- The injected fetch/XHR wrapper scripts are left out, since they run in the page's own JavaScript runtime. The message and log handlers that receive their reports only print.
- The `didBecome download` delegate callbacks are left out, since they only print.
- The cookie store, `URLSession` tasks and `task.resume()` are left out as asynchronous foreign networking. The fetch result is the `Response` input, and the completion handler runs right after the decision. Interleaved concurrent downloads are not modelled.
- `FileManager`, `data.write`, `DispatchQueue.main.async` and the QuickLook presentation are left out as I/O and thread dispatch. The write outcome is a boolean input, and a presentation is counted in `previewsPresented`.
- The documents-directory URL is kept as a directory and a file name (`FileUrl`); `appendingPathComponent`'s normalisation is not modelled. `URL(fileURLWithPath: "")` is the constant `EmptyPathItem`.
- Foundation URL parsing is not modelled: `path`, `lastPathComponent` and the `URLComponents` query items are fields of the URL record, and there is no percent-decoding.
- `pathExtension` is simplified to the text after the last '.' of the last '/'-segment. Foundation's own edge cases, such as a leading dot or a trailing '/' (Foundation ignores it, so `name=a.pdf/` keeps `a.pdf/` there; the model sees an empty last segment and saves `a.pdf/.pdf`), are not modelled.
- `lowercased()` maps ASCII letters only.
- Strings are sequences of Unicode code points. Swift's grapheme clusters (which `dropFirst` and `dropLast` count) and NSString's UTF-16 units are not distinguished from them.
- The `Content-Disposition` header is looked up by exact key in the header map. `HTTPURLResponse`'s own header-name canonicalisation is not modelled.
- Android's `DownloadManager`, `URLUtil.guessFileName`, `CookieManager` and the download toast are left out, since they are library calls whose behaviour is not visible here.
- `onPermissionRequest`, `checkSelfPermission` and `requestCameraAndMicrophonePermission` are left out as platform permission calls. The "permissions are required" toast is counted in `permissionNotices`.
- Creating and starting the chooser intent (`createIntent`, the MIME types, `startActivityForResult`) is left out as platform calls.
- `Uri.parse` keeps its text, and `ClipData.Item.getUri()` is never null in the model.
- The plugin entry points (`CustomWebviewPlugin.swift`, `CustomWebviewPlugin.java`) are thin wrappers over the Capacitor bridge; their only logic rejects an unparseable or empty URL. They are left out, along with `Package.swift` and the TypeScript registration shim.
