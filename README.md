# Signing a PDF with a signature image: a Dafny model

This project models the `POST /sign-pdf` handler of a small Express service
(`sign-pdf.js`). The handler stamps one signature image into every requested
field of a stored PDF and writes the signed copy. It then appends an audit
record that links the SHA-256 digest of the original bytes to that of the signed
bytes.

The model has four modules:

- `Values` (values.dfy): bytes, hex digests and `Option`. `None` stands for a
  call that throws.
- `Geometry` (geometry.dfy): how one field is placed. The field's fractions of the
  page become a box in PDF points, with the y axis flipped to the bottom-left
  origin. The image is fitted into the box without distortion and centred in it.
  This part is pure arithmetic over mathematical reals.
- `Document` (document.dfy): the loaded document as a list of pages. Each page
  has its size and the list of `drawImage` calls made on it. `DrawAll` is the
  field loop as a left fold that stops at the first field whose page does not
  exist. `PdfDocument` is the mutable document object the handler draws on.
- `Signing` (signing.dfy): the handler. `Env` bundles the foreign calls
  (`PDFDocument.load`, `embedPng`, `embedJpg`, `save`, `sha256`) as deterministic
  functions. `Prepare` and `Handle` state the whole pipeline as a function.
  `SigningService` holds the process state: the PDF directory, the signed-file
  directory, whether `db` has been set, and the `audit` collection. Its method
  `SignPdf` is the imperative handler: a loop over the fields that draws on a
  fresh `PdfDocument`, then the ordered file write and audit insert. It is
  proved equal to `Handle`.

The geometry is total. In JavaScript `boxRatio = w_pts / h_pts` is ±Infinity
or NaN when `h_pts` is 0, and the comparison `imgRatio > boxRatio` then has a
definite outcome. `Geometry.Wider` states that comparison for every real box
size, so the handler needs no precondition on the fields. The containment,
tightness and centring lemmas assume a box of positive size. The model assumes
that a decoded image has positive pixel dimensions (the `Dim` type), so that the
aspect ratio is positive. The handler itself does not check this.

Behaviour of the handler that the model keeps:

- The code does not guard against a box of zero height. Such a field is drawn
  at the size the IEEE comparison yields: zero, or the field's own negative width.
- Every field is drawn, whatever its `type`. The comment before the loop
  speaks of fields of type 'signature', but the loop does not test the type,
  and the model's `Field` does not carry it.
- The code answers every failure with `{ok: false, error: err.message}`. The
  model's `Error` only names the step that failed.
- A missing page is not checked for explicitly. `pages[pageIndex]` is
  `undefined`, so `getSize()` throws. `PageIndex` is that lookup.
- The output name is `<pdfId>-signed-<Date.now()>.pdf`, so it is not unique
  within one millisecond. A second write to the same `OutPath` replaces the file
  in `signed`.
- The returned URL takes its own clock reading (`Clock.atReply`). The file name
  uses `Clock.atWrite`, so the URL need not name the written file.
  `SuccessAppendsOneRecord` states which reading each uses.

## Model

| member | source | states |
|---|---|---|
| Geometry.FieldBox | sign-pdf.js:61-64 | the box has the field's fractions of the page as its size; its top edge lies `topPct` of the page below the page top (the exact y flip), and its right edge lies `leftPct + widthPct` of the page from the left |
| Geometry.FieldBoxWithinPage | sign-pdf.js:61-64 | a field with fractions in [0,1] that does not run past the right or bottom edge has its box inside [0,pdfW] x [0,pdfH] |
| Geometry.WiderIsRatioComparison | sign-pdf.js:67-71 | for a box of non-zero height, the branch test is exactly `imgRatio > w_pts / h_pts` |
| Geometry.Wider | sign-pdf.js:67-71 | definition of the branch test `imgRatio > boxRatio` for every real box size; its meaning is stated by WiderIsRatioComparison |
| Geometry.Fit | sign-pdf.js:66-79 | the fitted size keeps the image's aspect ratio (`drawW == drawH * imgRatio`) and is tight: full box width when the image is relatively wider, full box height otherwise |
| Geometry.FitContained | sign-pdf.js:66-79 | in a box of positive size the fitted image is positive and never larger than the box in either dimension |
| Geometry.FitIsLargest | sign-pdf.js:66-79 | every undistorted size that fits in the box is no larger than the fit, so the fit is the largest undistorted size |
| Geometry.Centre | sign-pdf.js:81-83 | the centred rectangle keeps the fitted size and leaves equal margins on both sides of each axis |
| Geometry.Place | sign-pdf.js:61-91 | the rectangle handed to `drawImage` has the image's aspect ratio, for every field and page size |
| Geometry.PlaceInField | sign-pdf.js:61-83 | for a field of positive size the drawn rectangle lies inside the field's box, touches both sides along the constraining dimension, and has equal margins on each axis |
| Geometry.PlaceOnPage | sign-pdf.js:61-83 | a well-formed field of positive size on a page of positive size is drawn within the page |
| Geometry.LetterExample | sign-pdf.js:61-83 | on a 612 x 792 page, a 3:1 image in field (0.1, 0.8, 0.3, 0.1) is drawn at (61.2, 88.2) with size 183.6 x 61.2 |
| Document.Ratio | sign-pdf.js:50-52 | `imgRatio` is positive and equals the image's width over its height |
| Document.PageIndex | sign-pdf.js:56-58 | a page exists exactly when `1 <= f.page <= pages.length`, and then its index is `f.page - 1` |
| Document.DrawField | sign-pdf.js:56-91 | definition of one iteration of the field loop; its properties are stated by DrawFieldAt and DrawAllSucceedsIff |
| Document.DrawAll | sign-pdf.js:55-92 | definition of the field loop as a fold that stops at the first missing page; its properties are stated by DrawAllSucceedsIff, DrawAllKeepsPageCount, DrawAllAppends, UntargetedPageUnchanged and DrawAllOnePerField |
| Document.TargetingCount | sign-pdf.js:55-58 | the number of fields attributed to page j is the number of fields whose page number is j + 1 |
| Document.TargetingOnlyThatPage | sign-pdf.js:55-58 | the fields attributed to page j all name page j + 1 |
| Document.TargetingEmptyIff | sign-pdf.js:55-58 | no field is attributed to page j exactly when no field names page j + 1 |
| Document.DrawsOnFollowsTargeting | sign-pdf.js:55-91 | a page receives one draw per field naming it, and the i-th draw is that of the i-th such field in input order |
| Document.DrawAllSucceedsIff | sign-pdf.js:55-58 | the field loop completes exactly when every field names an existing page |
| Document.DrawAllKeepsPageCount | sign-pdf.js:55-92 | the field loop neither adds nor removes pages |
| Document.DrawFieldAt | sign-pdf.js:56-91 | one field adds its draw to the page it names and to no other page |
| Document.DrawAllAppends | sign-pdf.js:55-92 | after the loop each page keeps its size and earlier draws, followed by exactly the draws of the fields naming it, in input order |
| Document.UntargetedPageUnchanged | sign-pdf.js:55-92 | a page that no field names is untouched |
| Document.DrawAllOnePerField | sign-pdf.js:55-92 | the loop makes exactly one draw per field, duplicates included |
| Document.PdfDocument.Load | sign-pdf.js:31-32 | the loaded document holds the bytes it came from and their pages |
| Document.PdfDocument.DrawImage | sign-pdf.js:86-91 | `drawImage` appends one draw to the chosen page and changes nothing else |
| Signing.Embed | sign-pdf.js:39-49 | PNG decoding is tried first and used when it succeeds; JPEG is used only when PNG fails; decoding fails exactly when both fail |
| Signing.Prepare | sign-pdf.js:24-97 | when preparation succeeds the PDF exists, `originalHash` is the digest of its stored bytes, and `signedHash` is the digest of the saved bytes |
| Signing.Handle | sign-pdf.js:22-123 | definition of the whole handler on the stores' contents; its properties are stated by FailureLeavesAuditUnchanged, SuccessAppendsOneRecord, SignedIff, WrittenButNotAudited and the lemmas below |
| Signing.FailureLeavesAuditUnchanged | sign-pdf.js:103-122 | a request fails exactly when it leaves the audit collection as it was |
| Signing.SuccessAppendsOneRecord | sign-pdf.js:94-119 | a success appends exactly one record, for the written file; the record and the reply carry the same two hashes, which are the digests of the stored PDF and of the written file |
| Signing.SignedStoreChange | sign-pdf.js:24-101 | the signed-file directory changes only by the one saved document under the request's output name, and only when preparation and the write succeed; every failure before the write leaves it unchanged |
| Signing.SignedIff | sign-pdf.js:22-123 | a request succeeds exactly when preparation succeeds, the file write succeeds and `db` is set |
| Signing.WrittenButNotAudited | sign-pdf.js:99-111 | when `db` is not yet set the signed file is written but the request fails with no audit record: the write and the insert are not one transaction |
| Signing.MissingPageFailsWithoutArtifacts | sign-pdf.js:55-58 | a field naming page < 1 or beyond the last page fails the whole request, with no file written and no audit record |
| Signing.MissingPageLeavesStoresUnchanged | sign-pdf.js:24-58 | for any request and environment, a field naming a page the stored PDF lacks makes the request fail with no file written and no audit record |
| Signing.UndecodableImageFailsBeforeFields | sign-pdf.js:43-52 | when neither decoder accepts the image the request fails the same way whatever the fields are, before any field is drawn, with nothing written |
| Signing.SignedFileIsDrawnDocument | sign-pdf.js:55-101 | on success every field named an existing page, and the written file is the saved document in which each page holds its earlier draws plus one draw per field naming it, in input order; one draw per field overall |
| Signing.SignatureDrawsArePlaced | sign-pdf.js:85-91 | each added draw is the one embedded image at Place of the field it comes from, on the page that field names |
| Signing.SigningService.constructor | sign-pdf.js:10-16 | at start-up `db` is not set, and the PDF directory, the signed-file directory and the audit collection hold what they held before the process started |
| Signing.SigningService.Connect | sign-pdf.js:14-16 | once the connection resolves, `db` is set |
| Signing.SigningService.SignPdf | sign-pdf.js:22-123 | the imperative handler's reply, written files and audit collection are exactly those of `Handle`, for the given outcome of this request's file write |

## Left out

- HTTP transport is not modelled: routing, JSON body parsing, `res.status` and `res.json`, and `app.listen`. The request arrives as a `Request` value.
- Decoding the signature's data URL (`split(',')[1]` and `Buffer.from(..., 'base64')`) is not modelled. The request carries the decoded bytes. A data URL without a comma would throw before embedding, and that path is not modelled.
- `readFileSync` is a lookup in the map `pdfs`, and a missing entry is a failure. Other read errors and path construction are not modelled.
- `writeFileSync` is modelled only as succeeding or failing (the `writable` flag). Partial writes are not modelled.
- The MongoDB connection is modelled only as whether `db` is set. `insertOne` always succeeds once it is set. Network or server errors from `insertOne` are not modelled.
- pdf-lib (`load`, `getPages`, `embedPng`, `embedJpg`, `getSize`, `drawImage`, `save`) is reduced to the functions in `Env` and to the page list. Embedding also adds an image object to the document, and the model does not record that.
- SHA-256 is an uninterpreted deterministic function (`Env.sha256`). Collision resistance is not modelled.
- IEEE-754 rounding is not modelled: the geometry is over mathematical reals. A box of height `-0` (from a field with `heightPct` of `-0`) is treated like `+0`. Fields whose numbers are missing or not numbers, which JavaScript turns into NaN, are not modelled.
- Field page numbers are integers. A fractional page number also reads `undefined` and fails in the source, and that case is not modelled.
- Timestamps are the three readings of `Clock`. Real time and `new Date()` formatting are not modelled.
- Images with a zero dimension (`imgRatio` Infinity or NaN, as a JPEG whose height is given later in a DNL marker can yield) are not modelled: `Dim` excludes them.
- `console.error(err)` in the error path is not modelled. It only logs, and the reply is the same.
- Concurrency between requests is not modelled: each call of `SignPdf` runs to completion.
- Signing.SignatureDrawsArePlaced: it does not restate aspect preservation or containment for the draw. Those follow from the contracts of Geometry.Place and Geometry.PlaceInField, applied to the rectangle it names.
