/**
 * The in-memory PDF document as the handler uses it: an ordered list of pages,
 * each with its size and the images drawn on it so far, and the field loop that
 * draws the one embedded signature image once per requested field.
 */
module Document {
  import opened Values
  import opened Geometry

  /** A length in pixels of a decoded image. The model assumes it is positive:
      the handler itself divides width by height without a check. */
  type Dim = r: real | r > 0.0 witness 1.0

  /** An image embedded in the document, with its size at scale 1. */
  datatype Image = Image(handle: nat, width: Dim, height: Dim)

  /** One `drawImage` call: which image, and where. */
  datatype Draw = Draw(image: Image, at: Rect)

  /** A page: its size in points and the images drawn on it, oldest first. */
  datatype Page = Page(width: real, height: real, draws: seq<Draw>)

  /** The image's aspect ratio, width over height. */
  function Ratio(img: Image): (r: real)
    ensures r > 0.0
    ensures r * img.height == img.width
  {
    img.width / img.height
  }

  /** The 0-based index of the page that a 1-based page number names, if a page
      of that number exists among `count` pages. */
  function PageIndex(page: int, count: nat): (r: Option<nat>)
    ensures r.Some? <==> 1 <= page <= count
    ensures r.Some? ==> r.value < count && r.value + 1 == page
  {
    if 1 <= page <= count then Some(page - 1) else None
  }

  /** Where the image for a field goes on a page of the given width and height. */
  type Layout = (Field, real, real) -> Rect

  /** The handler's layout for image `img`: the field's box with the image fitted
      and centred in it. */
  function SignatureLayout(img: Image): Layout
  {
    (f: Field, w: real, h: real) => Place(f, w, h, Ratio(img))
  }

  /** The draw that field `f` produces on a page of `w` by `h` points. */
  function FieldDraw(f: Field, w: real, h: real, img: Image, layout: Layout): Draw
  {
    Draw(img, layout(f, w, h))
  }

  /** `pages` after field `f` has been drawn, or None when its page does not exist. */
  function DrawField(pages: seq<Page>, f: Field, img: Image, layout: Layout): Option<seq<Page>>
  {
    match PageIndex(f.page, |pages|)
    case None => None
    case Some(k) =>
      var p := pages[k];
      Some(pages[k := p.(draws := p.draws + [FieldDraw(f, p.width, p.height, img, layout)])])
  }

  /** `pages` after the fields have been drawn in order; None as soon as one of
      them names a page that does not exist. */
  function DrawAll(pages: seq<Page>, fields: seq<Field>, img: Image, layout: Layout): Option<seq<Page>>
    decreases |fields|
  {
    if fields == [] then Some(pages)
    else match DrawField(pages, fields[0], img, layout)
      case None => None
      case Some(next) => DrawAll(next, fields[1..], img, layout)
  }

  /** Every field names one of the `count` pages. */
  predicate AllPagesExist(fields: seq<Field>, count: nat)
  {
    forall k :: 0 <= k < |fields| ==> 1 <= fields[k].page <= count
  }

  /** The page numbers the fields name, in input order. */
  function PageNumbers(fields: seq<Field>): seq<int>
  {
    seq(|fields|, k requires 0 <= k < |fields| => fields[k].page)
  }

  /** The fields that target the page of 0-based index `j`, in input order. */
  function Targeting(fields: seq<Field>, j: nat): (t: seq<Field>)
    ensures |t| <= |fields|
  {
    if fields == [] then []
    else (if fields[0].page == j + 1 then [fields[0]] else []) + Targeting(fields[1..], j)
  }

  /** Targeting keeps only fields that name the page of index `j`. */
  lemma {:induction false} TargetingOnlyThatPage(fields: seq<Field>, j: nat)
    ensures forall i :: 0 <= i < |Targeting(fields, j)| ==> Targeting(fields, j)[i].page == j + 1
  {
    if fields != [] {
      TargetingOnlyThatPage(fields[1..], j);
    }
  }

  /** Targeting keeps as many fields as name page j + 1. */
  lemma {:induction false} TargetingCount(fields: seq<Field>, j: nat)
    ensures |Targeting(fields, j)| == multiset(PageNumbers(fields))[j + 1]
  {
    if fields == [] {
      assert PageNumbers(fields) == [];
    } else {
      TargetingCount(fields[1..], j);
      assert PageNumbers(fields) == [fields[0].page] + PageNumbers(fields[1..]);
    }
  }

  /** No field targets the page of index `j` exactly when Targeting is empty. */
  lemma {:induction false} TargetingEmptyIff(fields: seq<Field>, j: nat)
    ensures Targeting(fields, j) == [] <==> forall k :: 0 <= k < |fields| ==> fields[k].page != j + 1
  {
    if fields != [] {
      TargetingEmptyIff(fields[1..], j);
      assert forall k :: 1 <= k < |fields| ==> fields[k] == fields[1..][k - 1];
    }
  }

  /** The draws that `fields` add to the page of index `j` and size `w` by `h`:
      one per field targeting it, in input order, all of the same image. */
  function DrawsOn(fields: seq<Field>, j: nat, w: real, h: real, img: Image, layout: Layout): (ds: seq<Draw>)
  {
    if fields == [] then []
    else (if fields[0].page == j + 1 then [FieldDraw(fields[0], w, h, img, layout)] else []) + DrawsOn(fields[1..], j, w, h, img, layout)
  }

  /** There is one draw per field that targets the page, and the i-th draw is
      the draw of the i-th such field. */
  lemma {:induction false} DrawsOnFollowsTargeting(fields: seq<Field>, j: nat, w: real, h: real, img: Image, layout: Layout)
    ensures |DrawsOn(fields, j, w, h, img, layout)| == |Targeting(fields, j)|
    ensures forall i :: 0 <= i < |DrawsOn(fields, j, w, h, img, layout)| ==>
              DrawsOn(fields, j, w, h, img, layout)[i] == FieldDraw(Targeting(fields, j)[i], w, h, img, layout)
  {
    if fields != [] {
      DrawsOnFollowsTargeting(fields[1..], j, w, h, img, layout);
    }
  }

  /** The field loop succeeds exactly when every field names an existing page. */
  lemma {:induction false} DrawAllSucceedsIff(pages: seq<Page>, fields: seq<Field>, img: Image, layout: Layout)
    ensures DrawAll(pages, fields, img, layout).Some? <==> AllPagesExist(fields, |pages|)
    decreases |fields|
  {
    if fields != [] {
      match DrawField(pages, fields[0], img, layout)
      case None =>
        assert !(1 <= fields[0].page <= |pages|);
      case Some(next) =>
        DrawAllSucceedsIff(next, fields[1..], img, layout);
        assert AllPagesExist(fields, |pages|) <==> AllPagesExist(fields[1..], |pages|) by {
          if AllPagesExist(fields[1..], |pages|) {
            forall k | 0 <= k < |fields| ensures 1 <= fields[k].page <= |pages| {
              if k > 0 { assert fields[k] == fields[1..][k - 1]; }
            }
          }
        }
    }
  }

  /** A successful field loop neither adds nor removes pages. */
  lemma {:induction false} DrawAllKeepsPageCount(pages: seq<Page>, fields: seq<Field>, img: Image, layout: Layout)
    requires DrawAll(pages, fields, img, layout).Some?
    ensures |DrawAll(pages, fields, img, layout).value| == |pages|
    decreases |fields|
  {
    if fields != [] {
      DrawAllKeepsPageCount(DrawField(pages, fields[0], img, layout).value, fields[1..], img, layout);
    }
  }

  /** Drawing one field adds its draw to the page it targets and to no other page. */
  lemma DrawFieldAt(pages: seq<Page>, f: Field, img: Image, layout: Layout, j: nat)
    requires DrawField(pages, f, img, layout).Some? && j < |pages|
    ensures |DrawField(pages, f, img, layout).value| == |pages|
    ensures DrawField(pages, f, img, layout).value[j]
         == pages[j].(draws := pages[j].draws + DrawsOn([f], j, pages[j].width, pages[j].height, img, layout))
  {
    assert [f][1..] == [];
  }

  lemma DrawsOnSplit(fields: seq<Field>, j: nat, w: real, h: real, img: Image, layout: Layout)
    requires fields != []
    ensures DrawsOn(fields, j, w, h, img, layout) == DrawsOn([fields[0]], j, w, h, img, layout) + DrawsOn(fields[1..], j, w, h, img, layout)
  {
    assert [fields[0]][1..] == [];
  }

  /** After a successful field loop the page of index `j` keeps its size and its
      earlier draws, and gains exactly the draws of the fields that target it,
      in input order. */
  lemma {:induction false} DrawAllAppends(pages: seq<Page>, fields: seq<Field>, img: Image, layout: Layout, j: nat)
    requires DrawAll(pages, fields, img, layout).Some? && j < |pages|
    ensures j < |DrawAll(pages, fields, img, layout).value|
    ensures DrawAll(pages, fields, img, layout).value[j]
         == pages[j].(draws := pages[j].draws + DrawsOn(fields, j, pages[j].width, pages[j].height, img, layout))
    decreases |fields|
  {
    DrawAllKeepsPageCount(pages, fields, img, layout);
    if fields != [] {
      var p := pages[j];
      var next := DrawAllUnfold(pages, fields, img, layout);
      DrawFieldAt(pages, fields[0], img, layout, j);
      DrawAllAppends(next, fields[1..], img, layout, j);
      DrawsOnSplit(fields, j, p.width, p.height, img, layout);
      ghost var added := DrawsOn([fields[0]], j, p.width, p.height, img, layout);
      ghost var rest := DrawsOn(fields[1..], j, p.width, p.height, img, layout);
      assert p.draws + added + rest == p.draws + (added + rest);
    }
  }

  lemma DrawAllUnfold(pages: seq<Page>, fields: seq<Field>, img: Image, layout: Layout) returns (next: seq<Page>)
    requires DrawAll(pages, fields, img, layout).Some? && fields != []
    ensures DrawField(pages, fields[0], img, layout) == Some(next)
    ensures DrawAll(pages, fields, img, layout) == DrawAll(next, fields[1..], img, layout)
  {
    next := DrawField(pages, fields[0], img, layout).value;
  }

  /** A page that no field targets comes out of the field loop unchanged. */
  lemma UntargetedPageUnchanged(pages: seq<Page>, fields: seq<Field>, img: Image, layout: Layout, j: nat)
    requires DrawAll(pages, fields, img, layout).Some?
    requires j < |pages| && forall k :: 0 <= k < |fields| ==> fields[k].page != j + 1
    ensures j < |DrawAll(pages, fields, img, layout).value| && DrawAll(pages, fields, img, layout).value[j] == pages[j]
  {
    DrawAllAppends(pages, fields, img, layout, j);
    TargetingEmptyIff(fields, j);
    DrawsOnFollowsTargeting(fields, j, pages[j].width, pages[j].height, img, layout);
  }

  /** The number of draws over all pages. */
  function TotalDraws(pages: seq<Page>): nat
  {
    if pages == [] then 0 else |pages[0].draws| + TotalDraws(pages[1..])
  }

  lemma {:induction false} TotalDrawsUpdate(pages: seq<Page>, k: nat, p: Page)
    requires k < |pages|
    ensures TotalDraws(pages[k := p]) + |pages[k].draws| == TotalDraws(pages) + |p.draws|
    decreases |pages|
  {
    if k > 0 {
      TotalDrawsUpdate(pages[1..], k - 1, p);
      assert pages[k := p][1..] == pages[1..][k - 1 := p];
    } else {
      assert pages[k := p][1..] == pages[1..];
    }
  }

  /** A successful field loop makes exactly one draw per field, duplicates included. */
  lemma {:induction false} DrawAllOnePerField(pages: seq<Page>, fields: seq<Field>, img: Image, layout: Layout)
    requires DrawAll(pages, fields, img, layout).Some?
    ensures TotalDraws(DrawAll(pages, fields, img, layout).value) == TotalDraws(pages) + |fields|
    decreases |fields|
  {
    if fields != [] {
      var k := fields[0].page - 1;
      var p := pages[k];
      var next := DrawField(pages, fields[0], img, layout).value;
      TotalDrawsUpdate(pages, k, p.(draws := p.draws + [FieldDraw(fields[0], p.width, p.height, img, layout)]));
      DrawAllOnePerField(next, fields[1..], img, layout);
    }
  }

  /**
   * The document that `PDFDocument.load` returns: the bytes it was loaded from
   * and its pages, which `drawImage` extends in place.
   */
  class PdfDocument {
    const source: Bytes
    var pages: seq<Page>

    constructor Load(source: Bytes, pages: seq<Page>)
      ensures this.source == source && this.pages == pages
    {
      this.source := source;
      this.pages := pages;
    }

    /** `page.drawImage(image, box)` on the page of 0-based index `k`. */
    method DrawImage(k: nat, d: Draw)
      requires k < |pages|
      modifies this
      ensures pages == old(pages)[k := old(pages)[k].(draws := old(pages)[k].draws + [d])]
    {
      pages := pages[k := pages[k].(draws := pages[k].draws + [d])];
    }
  }
}
