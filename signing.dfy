/**
 * The `POST /sign-pdf` handler: read the stored PDF, hash it, load it, embed the
 * signature image (PNG first, JPEG if that fails), draw the image into every
 * requested field, save and hash the result, write the signed file and append
 * an audit record. Any failure ends the request with `{ok: false}`.
 */
module Signing {
  import opened Values
  import opened Geometry
  import opened Document

  /** The request body, with the signature's data URL already decoded to bytes. */
  datatype Request = Request(pdfId: string, signature: Bytes, fields: seq<Field>)

  /**
   * The foreign calls the handler makes, each a deterministic function of its
   * arguments: None stands for a call that throws.
   */
  datatype Env = Env(
    load: Bytes -> Option<seq<Page>>,           // PDFDocument.load + getPages
    embedPng: Bytes -> Option<Image>,           // pdfDoc.embedPng, at scale 1
    embedJpg: Bytes -> Option<Image>,           // pdfDoc.embedJpg, at scale 1
    save: (Bytes, seq<Page>) -> Option<Bytes>,  // pdfDoc.save of the drawn pages
    sha256: Bytes -> Digest)                    // the sha256 helper

  /** The three clock readings: the output file name, `signedAt` and the URL. */
  datatype Clock = Clock(atWrite: int, atAudit: int, atReply: int)

  /** `./signed/<pdfId>-signed-<stamp>.pdf` */
  datatype OutPath = OutPath(pdfId: string, stamp: int)

  /** `/signed-files/<pdfId>-signed-<stamp>.pdf` */
  datatype Url = Url(pdfId: string, stamp: int)

  /** One document of the `audit` collection. */
  datatype AuditRecord = AuditRecord(
    pdfId: string, originalHash: Digest, signedHash: Digest,
    signedAt: int, fields: seq<Field>, outPath: OutPath)

  /** The step at which a request failed. */
  datatype Error =
    | NotFound            // readFileSync: no such PDF
    | CorruptDocument     // PDFDocument.load threw
    | UnsupportedFormat   // both embedPng and embedJpg threw
    | PageNotFound        // a field names a page the document does not have
    | SerializationError  // pdfDoc.save threw
    | WriteFailed         // writeFileSync threw
    | NotConnected        // db is still undefined, so db.collection threw

  /** `{ok: true, url, originalHash, signedHash}` or `{ok: false, error}`. */
  datatype Response = Signed(url: Url, originalHash: Digest, signedHash: Digest) | Failed(error: Error)

  /** What the handler leaves behind: its reply, the signed files and the audit log. */
  datatype Outcome = Outcome(response: Response, signed: map<OutPath, Bytes>, audit: seq<AuditRecord>)

  /** The signed document before it is stored: the hashes and the saved bytes. */
  datatype Prepared = Prepared(originalHash: Digest, bytes: Bytes, signedHash: Digest)

  datatype Result<T> = Ok(value: T) | Err(error: Error)

  /** The embedded image: the PNG decoding if it succeeds, else the JPEG one. */
  function Embed(env: Env, sig: Bytes): (r: Option<Image>)
    ensures r.Some? <==> env.embedPng(sig).Some? || env.embedJpg(sig).Some?
    ensures env.embedPng(sig).Some? ==> r == env.embedPng(sig)
    ensures env.embedPng(sig).None? ==> r == env.embedJpg(sig)
  {
    match env.embedPng(sig)
    case Some(img) => Some(img)
    case None => env.embedJpg(sig)
  }

  /** Everything the handler does before it touches the output stores. */
  function Prepare(pdfs: map<string, Bytes>, req: Request, env: Env): (r: Result<Prepared>)
    ensures r.Ok? ==> req.pdfId in pdfs
    ensures r.Ok? ==> r.value.originalHash == env.sha256(pdfs[req.pdfId])
    ensures r.Ok? ==> r.value.signedHash == env.sha256(r.value.bytes)
  {
    if req.pdfId !in pdfs then Err(NotFound)
    else
      var orig := pdfs[req.pdfId];
      var origHash := env.sha256(orig);
      match env.load(orig)
      case None => Err(CorruptDocument)
      case Some(pages) =>
        match Embed(env, req.signature)
        case None => Err(UnsupportedFormat)
        case Some(img) =>
          match DrawAll(pages, req.fields, img, SignatureLayout(img))
          case None => Err(PageNotFound)
          case Some(drawn) =>
            match env.save(orig, drawn)
            case None => Err(SerializationError)
            case Some(out) => Ok(Prepared(origHash, out, env.sha256(out)))
  }

  /** The whole handler on the stores' contents: `pdfs` is the PDF directory,
      `writable` whether the signed directory accepts the write, `signed` its
      contents, `connected` whether `db` has been set and `audit` the collection. */
  function Handle(pdfs: map<string, Bytes>, writable: bool, signed: map<OutPath, Bytes>,
                  connected: bool, audit: seq<AuditRecord>,
                  req: Request, env: Env, clock: Clock): Outcome
  {
    match Prepare(pdfs, req, env)
    case Err(e) => Outcome(Failed(e), signed, audit)
    case Ok(p) =>
      var path := OutPath(req.pdfId, clock.atWrite);
      if !writable then Outcome(Failed(WriteFailed), signed, audit)
      else if !connected then Outcome(Failed(NotConnected), signed[path := p.bytes], audit)
      else
        var rec := AuditRecord(req.pdfId, p.originalHash, p.signedHash, clock.atAudit, req.fields, path);
        Outcome(Signed(Url(req.pdfId, clock.atReply), p.originalHash, p.signedHash),
                signed[path := p.bytes], audit + [rec])
  }

  /** A failed request leaves the audit log as it was. */
  lemma FailureLeavesAuditUnchanged(pdfs: map<string, Bytes>, writable: bool, signed: map<OutPath, Bytes>,
                                    connected: bool, audit: seq<AuditRecord>,
                                    req: Request, env: Env, clock: Clock)
    ensures var o := Handle(pdfs, writable, signed, connected, audit, req, env, clock);
            o.response.Failed? <==> o.audit == audit
  {}

  /** A successful request appends exactly one audit record, after the signed file
      has been written; the record and the reply carry the same two hashes, the
      first that of the stored PDF and the second that of the written file. */
  lemma SuccessAppendsOneRecord(pdfs: map<string, Bytes>, writable: bool, signed: map<OutPath, Bytes>,
                                connected: bool, audit: seq<AuditRecord>,
                                req: Request, env: Env, clock: Clock)
    requires Handle(pdfs, writable, signed, connected, audit, req, env, clock).response.Signed?
    ensures var o := Handle(pdfs, writable, signed, connected, audit, req, env, clock);
            && |o.audit| == |audit| + 1 && o.audit[..|audit|] == audit
            && var rec := o.audit[|audit|];
               && rec == AuditRecord(req.pdfId, o.response.originalHash, o.response.signedHash,
                                     clock.atAudit, req.fields, OutPath(req.pdfId, clock.atWrite))
               && req.pdfId in pdfs && o.response.originalHash == env.sha256(pdfs[req.pdfId])
               && rec.outPath in o.signed && o.response.signedHash == env.sha256(o.signed[rec.outPath])
               && o.response.url == Url(req.pdfId, clock.atReply)
  {
    var o := Handle(pdfs, writable, signed, connected, audit, req, env, clock);
    assert o.audit[..|audit|] == audit;
  }

  /** The signed-file directory gains the saved document under the request's
      output name exactly when it is prepared and the write succeeds, whether or
      not `db` is set; otherwise, and for every other name, it is unchanged. */
  lemma SignedStoreChange(pdfs: map<string, Bytes>, writable: bool, signed: map<OutPath, Bytes>,
                          connected: bool, audit: seq<AuditRecord>,
                          req: Request, env: Env, clock: Clock)
    ensures Handle(pdfs, writable, signed, connected, audit, req, env, clock).signed
         == if Prepare(pdfs, req, env).Ok? && writable
            then signed[OutPath(req.pdfId, clock.atWrite) := Prepare(pdfs, req, env).value.bytes]
            else signed
  {}

  /** A request succeeds exactly when the document is prepared and both stores
      accept their write; the signed file is then the one saved document. */
  lemma SignedIff(pdfs: map<string, Bytes>, writable: bool, signed: map<OutPath, Bytes>,
                  connected: bool, audit: seq<AuditRecord>,
                  req: Request, env: Env, clock: Clock)
    ensures var o := Handle(pdfs, writable, signed, connected, audit, req, env, clock);
            o.response.Signed? <==> Prepare(pdfs, req, env).Ok? && writable && connected
  {}

  /** The handler writes the file before it uses `db`, so when `db` is not yet
      set the signed file is written, but the request fails and no audit record
      exists: the write and the insert are not one transaction. */
  lemma WrittenButNotAudited(pdfs: map<string, Bytes>, signed: map<OutPath, Bytes>,
                             audit: seq<AuditRecord>, req: Request, env: Env, clock: Clock)
    requires Prepare(pdfs, req, env).Ok?
    ensures var o := Handle(pdfs, true, signed, false, audit, req, env, clock);
            && o.response == Failed(NotConnected)
            && o.signed == signed[OutPath(req.pdfId, clock.atWrite) := Prepare(pdfs, req, env).value.bytes]
            && o.audit == audit
  {}

  /** A field naming a page the loaded document does not have (page numbers are
      1-based) fails the whole request, and nothing is written to either store. */
  lemma MissingPageFailsWithoutArtifacts(pdfs: map<string, Bytes>, writable: bool, signed: map<OutPath, Bytes>,
                                         connected: bool, audit: seq<AuditRecord>,
                                         req: Request, env: Env, clock: Clock, k: nat)
    requires req.pdfId in pdfs && env.load(pdfs[req.pdfId]).Some?
    requires Embed(env, req.signature).Some?
    requires k < |req.fields|
    requires req.fields[k].page < 1 || req.fields[k].page > |env.load(pdfs[req.pdfId]).value|
    ensures Handle(pdfs, writable, signed, connected, audit, req, env, clock)
         == Outcome(Failed(PageNotFound), signed, audit)
  {
    var img := Embed(env, req.signature).value;
    DrawAllSucceedsIff(env.load(pdfs[req.pdfId]).value, req.fields, img, SignatureLayout(img));
  }

  /** Whatever else the request and the environment do, a field naming a page the
      stored PDF does not have makes the request fail with both stores unchanged. */
  lemma MissingPageLeavesStoresUnchanged(pdfs: map<string, Bytes>, writable: bool, signed: map<OutPath, Bytes>,
                                         connected: bool, audit: seq<AuditRecord>,
                                         req: Request, env: Env, clock: Clock, k: nat)
    requires k < |req.fields|
    requires req.pdfId in pdfs && env.load(pdfs[req.pdfId]).Some? ==>
               req.fields[k].page < 1 || req.fields[k].page > |env.load(pdfs[req.pdfId]).value|
    ensures var o := Handle(pdfs, writable, signed, connected, audit, req, env, clock);
            o.response.Failed? && o.signed == signed && o.audit == audit
  {
    if req.pdfId in pdfs && env.load(pdfs[req.pdfId]).Some? && Embed(env, req.signature).Some? {
      MissingPageFailsWithoutArtifacts(pdfs, writable, signed, connected, audit, req, env, clock, k);
    }
  }

  /** When neither decoder accepts the signature the request fails the same way
      whatever the fields are: it stops before any field is looked at. */
  lemma UndecodableImageFailsBeforeFields(pdfs: map<string, Bytes>, writable: bool, signed: map<OutPath, Bytes>,
                                          connected: bool, audit: seq<AuditRecord>,
                                          req: Request, env: Env, clock: Clock, fields: seq<Field>)
    requires req.pdfId in pdfs && env.load(pdfs[req.pdfId]).Some?
    requires env.embedPng(req.signature).None? && env.embedJpg(req.signature).None?
    ensures Handle(pdfs, writable, signed, connected, audit, req, env, clock)
         == Handle(pdfs, writable, signed, connected, audit, req.(fields := fields), env, clock)
         == Outcome(Failed(UnsupportedFormat), signed, audit)
  {}

  /** A successful request used the PNG decoding when there is one, and drew
      every field: the stored file is the saved document in which each page
      holds its original draws followed by one draw per field naming it, in input
      order, each the same image undistorted. */
  lemma SignedFileIsDrawnDocument(pdfs: map<string, Bytes>, writable: bool, signed: map<OutPath, Bytes>,
                                  connected: bool, audit: seq<AuditRecord>,
                                  req: Request, env: Env, clock: Clock)
    requires Handle(pdfs, writable, signed, connected, audit, req, env, clock).response.Signed?
    ensures req.pdfId in pdfs && env.load(pdfs[req.pdfId]).Some? && Embed(env, req.signature).Some?
    ensures env.embedPng(req.signature).Some? ==> Embed(env, req.signature) == env.embedPng(req.signature)
    ensures var pages := env.load(pdfs[req.pdfId]).value;
            var img := Embed(env, req.signature).value;
            && AllPagesExist(req.fields, |pages|)
            && DrawAll(pages, req.fields, img, SignatureLayout(img)).Some?
            && var drawn := DrawAll(pages, req.fields, img, SignatureLayout(img)).value;
               && |drawn| == |pages|
               && env.save(pdfs[req.pdfId], drawn)
                  == Some(Handle(pdfs, writable, signed, connected, audit, req, env, clock).signed[OutPath(req.pdfId, clock.atWrite)])
               && TotalDraws(drawn) == TotalDraws(pages) + |req.fields|
               && forall j :: 0 <= j < |pages| ==>
                    drawn[j] == pages[j].(draws := pages[j].draws + DrawsOn(req.fields, j, pages[j].width, pages[j].height, img, SignatureLayout(img)))
  {
    var pages := env.load(pdfs[req.pdfId]).value;
    var img := Embed(env, req.signature).value;
    var layout := SignatureLayout(img);
    DrawAllSucceedsIff(pages, req.fields, img, layout);
    DrawAllKeepsPageCount(pages, req.fields, img, layout);
    DrawAllOnePerField(pages, req.fields, img, layout);
    forall j | 0 <= j < |pages|
      ensures DrawAll(pages, req.fields, img, layout).value[j]
           == pages[j].(draws := pages[j].draws + DrawsOn(req.fields, j, pages[j].width, pages[j].height, img, layout))
    {
      DrawAllAppends(pages, req.fields, img, layout, j);
    }
  }

  /** Each draw the handler adds to a page is the signature image placed where
      Place puts the field it comes from, so Place's contract and PlaceInField
      apply to it: undistorted, and inside the field's box. */
  lemma SignatureDrawsArePlaced(fields: seq<Field>, j: nat, w: real, h: real, img: Image, i: nat)
    requires i < |Targeting(fields, j)|
    ensures var f := Targeting(fields, j)[i];
            && f.page == j + 1
            && i < |DrawsOn(fields, j, w, h, img, SignatureLayout(img))|
            && DrawsOn(fields, j, w, h, img, SignatureLayout(img))[i] == Draw(img, Place(f, w, h, Ratio(img)))
  {
    TargetingOnlyThatPage(fields, j);
    DrawsOnFollowsTargeting(fields, j, w, h, img, SignatureLayout(img));
  }

  /**
   * The process state the handler reads and writes: the PDF directory, the
   * signed-file directory, and the MongoDB connection with its `audit` collection.
   * Whether the signed directory accepts a write is decided per request.
   */
  class SigningService {
    const pdfs: map<string, Bytes>
    var signed: map<OutPath, Bytes>
    var connected: bool
    var audit: seq<AuditRecord>

    /** The process at start-up: `db` is not yet set, and the directories and
        the collection hold what earlier runs left in them. */
    constructor (pdfs: map<string, Bytes>, signed: map<OutPath, Bytes>, audit: seq<AuditRecord>)
      ensures this.pdfs == pdfs && this.signed == signed && this.audit == audit
      ensures !connected
    {
      this.pdfs := pdfs;
      this.signed := signed;
      connected := false;
      this.audit := audit;
    }

    /** `MongoClient.connect(...).then(client => { db = ... })`. */
    method Connect()
      modifies this`connected
      ensures connected
    {
      connected := true;
    }

    /** `POST /sign-pdf`; `writable` says whether this request's file write succeeds. */
    method SignPdf(req: Request, env: Env, clock: Clock, writable: bool) returns (resp: Response)
      modifies this`signed, this`audit
      ensures Outcome(resp, signed, audit) == Handle(pdfs, writable, old(signed), connected, old(audit), req, env, clock)
    {
      if req.pdfId !in pdfs {
        return Failed(NotFound);
      }
      var origBytes := pdfs[req.pdfId];
      var origHash := env.sha256(origBytes);

      var loaded := env.load(origBytes);
      if loaded.None? {
        return Failed(CorruptDocument);
      }
      var pdfDoc := new PdfDocument.Load(origBytes, loaded.value);

      var embeddedImage: Image;
      var png := env.embedPng(req.signature);
      if png.Some? {
        embeddedImage := png.value;
      } else {
        var jpg := env.embedJpg(req.signature);
        if jpg.None? {
          return Failed(UnsupportedFormat);
        }
        embeddedImage := jpg.value;
      }
      assert Embed(env, req.signature) == Some(embeddedImage);
      var imgRatio := Ratio(embeddedImage);
      ghost var layout := SignatureLayout(embeddedImage);

      var i := 0;
      while i < |req.fields|
        modifies pdfDoc
        invariant 0 <= i <= |req.fields|
        invariant DrawAll(loaded.value, req.fields, embeddedImage, layout)
               == DrawAll(pdfDoc.pages, req.fields[i..], embeddedImage, layout)
      {
        var f := req.fields[i];
        assert req.fields[i..][0] == f && req.fields[i..][1..] == req.fields[i + 1..];
        var pageIndex := PageIndex(f.page, |pdfDoc.pages|);
        if pageIndex.None? {
          assert DrawAll(pdfDoc.pages, req.fields[i..], embeddedImage, layout) == None;
          assert Prepare(pdfs, req, env) == Err(PageNotFound);
          return Failed(PageNotFound);
        }
        var page := pdfDoc.pages[pageIndex.value];
        var box := Place(f, page.width, page.height, imgRatio);
        pdfDoc.DrawImage(pageIndex.value, Draw(embeddedImage, box));
        i := i + 1;
      }
      assert req.fields[i..] == [];

      var modified := env.save(pdfDoc.source, pdfDoc.pages);
      if modified.None? {
        return Failed(SerializationError);
      }
      var postHash := env.sha256(modified.value);

      var outPath := OutPath(req.pdfId, clock.atWrite);
      if !writable {
        return Failed(WriteFailed);
      }
      signed := signed[outPath := modified.value];

      if !connected {
        return Failed(NotConnected);
      }
      audit := audit + [AuditRecord(req.pdfId, origHash, postHash, clock.atAudit, req.fields, outPath)];

      resp := Signed(Url(req.pdfId, clock.atReply), origHash, postHash);
    }
  }
}
