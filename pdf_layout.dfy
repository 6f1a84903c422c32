/**
 * The geometry of a block and the serialised form of a part
 * (utils/pdf_extract.py, PDFLayout and PDFPart).
 */
module PdfLayout {
  import opened Wrappers
  import opened BlockTypes
  import Decimal

  /** The analysis service's box: Left, Top, Width and Height as page fractions. */
  datatype BoundingBox = BoundingBox(left: real, top: real, width: real, height: real)

  /** One entry of a block's `Relationships`: its `Type` and its `Ids`. */
  datatype Relationship = Relationship(relType: string, ids: seq<string>)

  /**
   * One raw block of a page's analysis result. `text` is None where the block
   * has no `Text` key; an absent `Relationships` key is the empty sequence.
   */
  datatype Block = Block(
    id: string,
    blockTypeName: string,
    box: BoundingBox,
    text: Option<string>,
    relationships: seq<Relationship>)

  /** PDFLayout: the block type and the box as its two corners. */
  datatype Layout = Layout(blockType: BlockType, xmin: real, ymin: real, xmax: real, ymax: real)

  /** The `layout` entry of a serialised part. */
  datatype LayoutDict = LayoutDict(blockType: string, xmin: real, ymin: real, xmax: real, ymax: real)

  /** The pixel box `(left, top, right, bottom)` a part's image was cropped from its page with. */
  datatype Crop = Crop(left: real, top: real, right: real, bottom: real)

  /** PDFPart. `image` stands for the cropped image by the box it was cut with. */
  datatype Part = Part(
    page: int,
    partIndex: int,
    layout: Layout,
    text: Option<string>,
    image: Option<Crop>,
    imageIndex: Option<int>,
    parent: Option<int>)

  /** The dictionary `save_image_and_to_dict` returns (and one JSON line of the output holds). */
  datatype PartDict = PartDict(
    page: int,
    partIndex: int,
    layout: LayoutDict,
    text: Option<string>,
    imagePath: Option<string>,
    imageIndex: Option<int>,
    parent: Option<int>)

  datatype LayoutError =
    | UnknownBlockType(name: string)   // KeyError from `BlockType[name]`
    | ImageWithoutIndex                // TypeError from formatting a None image index

  /** `PDFLayout.from_dict`: the second corner is the first one plus width and height. */
  function FromDict(b: Block): (r: Result<Layout, LayoutError>)
    ensures r.Ok? <==> FromName(b.blockTypeName).Some?
    ensures r.Err? ==> r.error == UnknownBlockType(b.blockTypeName)
    ensures r.Ok? ==> Name(r.value.blockType) == b.blockTypeName
    ensures r.Ok? ==> r.value.xmin == b.box.left && r.value.ymin == b.box.top
    ensures r.Ok? ==> r.value.xmax - r.value.xmin == b.box.width
    ensures r.Ok? ==> r.value.ymax - r.value.ymin == b.box.height
  {
    match FromName(b.blockTypeName)
    case None => Err(UnknownBlockType(b.blockTypeName))
    case Some(t) =>
      Ok(Layout(t, b.box.left, b.box.top, b.box.left + b.box.width, b.box.top + b.box.height))
  }

  function ToLayoutDict(l: Layout): LayoutDict
  {
    LayoutDict(Name(l.blockType), l.xmin, l.ymin, l.xmax, l.ymax)
  }

  /** `PDFLayout.from_json_dict`: the type by its name, the four coordinates as stored. */
  function FromJsonDict(d: LayoutDict): (r: Result<Layout, LayoutError>)
    ensures r.Ok? <==> FromName(d.blockType).Some?
    ensures r.Ok? ==> ToLayoutDict(r.value) == d
  {
    match FromName(d.blockType)
    case None => Err(UnknownBlockType(d.blockType))
    case Some(t) => Ok(Layout(t, d.xmin, d.ymin, d.xmax, d.ymax))
  }

  /** IMAGE_PATH_FORMAT: `images/` and the image index as at least six digits, then `.jpg`. */
  function ImagePath(imageIndex: int): string
  {
    "images/" + Decimal.FormatZeroPadded(imageIndex, 6) + ".jpg"
  }

  /**
   * The dictionary part of `save_image_and_to_dict` (writing the image file is
   * not modelled): a part with an image names its file by its image index.
   */
  function ToDict(p: Part): Result<PartDict, LayoutError>
  {
    if p.image.Some? && p.imageIndex.None? then Err(ImageWithoutIndex)
    else
      var path := if p.image.Some? then Some(ImagePath(p.imageIndex.value)) else None;
      Ok(PartDict(p.page, p.partIndex, ToLayoutDict(p.layout), p.text, path, p.imageIndex, p.parent))
  }

  /** `PDFPart.from_json` on a parsed line: the image itself is not read back. */
  function FromJson(d: PartDict): Result<Part, LayoutError>
  {
    match FromJsonDict(d.layout)
    case Err(e) => Err(e)
    case Ok(layout) => Ok(Part(d.page, d.partIndex, layout, d.text, None, d.imageIndex, d.parent))
  }

  /**
   * Reading a saved part back gives the same page, part index, layout, text,
   * image index and parent; only the image is lost. Saving fails exactly for an
   * image without an index.
   */
  lemma SaveLoadRoundTrip(p: Part)
    ensures ToDict(p).Err? <==> p.image.Some? && p.imageIndex.None?
    ensures ToDict(p).Ok? ==> FromJson(ToDict(p).value) == Ok(p.(image := None))
  {
    if ToDict(p).Ok? {
      NameRoundTrip(p.layout.blockType);
    }
  }

  /** A saved part names an image file exactly when it has an image. */
  lemma SavedImagePath(p: Part)
    requires ToDict(p).Ok?
    ensures ToDict(p).value.imagePath.Some? <==> p.image.Some?
    ensures p.image.Some? ==> ToDict(p).value.imagePath == Some(ImagePath(p.imageIndex.value))
  {
  }

  /**
   * The file name of an image holds its index: it reads back as that index, and
   * for indices below a million it is exactly six digits.
   */
  lemma ImagePathHoldsIndex(n: int)
    ensures var path := ImagePath(n);
      |path| >= 12 && path[..7] == "images/" && path[|path| - 4..] == ".jpg"
      && Decimal.ParseSigned(path[7..|path| - 4]) == Some(n)
    ensures 0 <= n < 1000000 ==> |ImagePath(n)| == 17
  {
    var middle := Decimal.FormatZeroPadded(n, 6);
    Decimal.FormatZeroPaddedRoundTrip(n, 6);
    var path := "images/" + middle + ".jpg";
    assert path[7..|path| - 4] == middle;
    if n >= 0 {
      Decimal.ZeroPadRoundTrip(n, 6);
    }
    if 0 <= n < 1000000 {
      assert Decimal.Pow10(6) == 1000000;
      Decimal.DigitsLength(n, 6);
    }
  }
}
