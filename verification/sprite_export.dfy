/** What the two rasterising scripts share: RGBA images from the imaging
    library become sprite frames with alpha dropped, and the byte list is built
    in frame order. The `.bin` file is not touched when the GIF preview fails
    for want of a first image; it is opened for writing before `bytearray`
    converts the list, so a value above 255 leaves it empty. */
module SpriteExport {
  import opened Wrappers
  import opened SpriteFormat

  /** A pixel as `getpixel` returns it for an RGBA PNG. */
  datatype Rgba = Rgba(r: byte, g: byte, b: byte, a: byte)

  /** A PNG as the imaging library reports it: size and rows top to bottom. */
  datatype Image = Image(width: nat, height: nat, rows: seq<seq<Rgba>>)
  {
    predicate Valid()
    {
      |rows| == height && forall y :: 0 <= y < |rows| ==> |rows[y]| == width
    }
  }

  /** An image whose size matches its pixel rows, as every opened PNG does. */
  type Raster = im: Image | im.Valid() witness Image(0, 0, [])

  /** The rasteriser (Inkscape, then `Image.open`): frame number and export
      width and height to the image produced. */
  type Renderer = (nat, nat, nat) -> Raster

  function DropAlpha(p: Rgba): Rgb
  {
    Rgb(p.r, p.g, p.b)
  }

  /** The frame written for an image: same size, each pixel's R, G, B. */
  function ToFrame(im: Raster): (f: Frame)
    ensures f.Valid() && f.width == im.width && f.height == im.height
    ensures forall y, x :: 0 <= y < im.height && 0 <= x < im.width ==>
              f.rows[y][x].r == im.rows[y][x].r && f.rows[y][x].g == im.rows[y][x].g && f.rows[y][x].b == im.rows[y][x].b
  {
    Frame(im.width, im.height,
      seq(|im.rows|, y requires 0 <= y < |im.rows| =>
        seq(|im.rows[y]|, x requires 0 <= x < |im.rows[y]| => DropAlpha(im.rows[y][x]))))
  }

  function Frames(images: seq<Raster>): (fs: seq<Frame>)
    ensures |fs| == |images|
    ensures forall i :: 0 <= i < |images| ==> fs[i] == ToFrame(images[i]) && fs[i].Valid()
  {
    seq(|images|, i requires 0 <= i < |images| => ToFrame(images[i]))
  }

  /** The script's byte list for `images`, before `bytearray`. */
  function Encode(images: seq<Raster>): (bs: seq<int>)
    ensures |bs| > 0 && bs[0] == |images|
  {
    Serialize(Frames(images))
  }

  /** The encoded length: one count byte, then 2 + 3·w·h bytes per image. */
  lemma EncodeLength(images: seq<Raster>)
    ensures |Encode(images)| == 1 + TotalSize(Frames(images))
  {
    SerializeLength(Frames(images));
  }

  /** Image `i`'s block starts with its width byte and then its height byte;
      blocks follow one another in image order. */
  lemma EncodeHeader(images: seq<Raster>, i: nat)
    requires i < |images|
    ensures var o := BlockOffset(Frames(images), i);
            && o + 1 < |Encode(images)|
            && Encode(images)[o] == images[i].width
            && Encode(images)[o + 1] == images[i].height
  {
    SerializeFrameHeader(Frames(images), i);
  }

  /** Pixel (x, y) of image `i` is written row-major as its R, G and B
      values; its alpha value is never written. */
  lemma EncodePixel(images: seq<Raster>, i: nat, y: nat, x: nat)
    requires i < |images| && y < images[i].height && x < images[i].width
    ensures var p := BlockOffset(Frames(images), i) + 2 + 3 * (y * images[i].width + x);
            && p + 2 < |Encode(images)|
            && Encode(images)[p] == images[i].rows[y][x].r
            && Encode(images)[p + 1] == images[i].rows[y][x].g
            && Encode(images)[p + 2] == images[i].rows[y][x].b
  {
    SerializePixel(Frames(images), i, y, x);
  }

  /** Why the sprite bytes are not written: no frames (`images[0]` raises
      while saving the GIF preview, before the `.bin` is opened), or a count,
      width or height above 255 (`bytearray` raises after the `.bin` was
      opened for writing, leaving it empty). */
  datatype ExportError = NoFrames | ByteOutOfRange

  /** Every size the single-byte fields must carry is below 256. */
  predicate SizesFitBytes(images: seq<Raster>)
  {
    |images| < 256 && forall i :: 0 <= i < |images| ==> images[i].width < 256 && images[i].height < 256
  }

  /** The sprite bytes the script writes, or why it raises instead. */
  function Export(images: seq<Raster>): (r: Result<seq<byte>, ExportError>)
    ensures |images| == 0 <==> r == Failure(NoFrames)
    ensures r.Success? <==> 0 < |images| && SizesFitBytes(images)
    ensures r.Success? ==> r.value == Encode(images)
    ensures r.Success? ==> Decode(r.value) == Some(Frames(images))
  {
    var frames := Frames(images);
    assert Encodable(frames) <==> SizesFitBytes(images);
    SerializeFitsBytes(frames);
    if |images| == 0 then Failure(NoFrames)
    else
      match ToBytes(Encode(images))
      case None => Failure(ByteOutOfRange)
      case Some(bs) =>
        RoundTrip(frames);
        Success(bs)
  }

  /** The `.bin` file once the script has run: `None` when it was never
      opened, else its contents. */
  function BinFile(images: seq<Raster>): (file: Option<seq<byte>>)
    ensures file.None? <==> |images| == 0
    ensures file == Some([]) <==> 0 < |images| && !SizesFitBytes(images)
    ensures 0 < |images| && SizesFitBytes(images) ==> file == Some(Export(images).value)
    ensures file.Some? && file.value != [] ==> Decode(file.value) == Some(Frames(images))
  {
    match Export(images)
    case Success(bs) => Some(bs)
    case Failure(NoFrames) => None
    case Failure(ByteOutOfRange) => Some([])
  }

  /** The images rendered for frames 1 to `n`, in that order, at the export size. */
  function RenderAll(n: nat, width: nat, height: nat, render: Renderer): (images: seq<Raster>)
    ensures |images| == n
    ensures forall k :: 0 <= k < n ==> images[k] == render(k + 1, width, height)
  {
    seq(n, k requires 0 <= k < n => render(k + 1, width, height))
  }

  /** The rasteriser produces images of exactly the requested export size. */
  ghost predicate HonoursSize(render: Renderer, width: nat, height: nat)
  {
    forall frame: nat :: render(frame, width, height).width == width && render(frame, width, height).height == height
  }

  /** Images all `w` by `h` take `2 + 3·w·h` bytes each. */
  lemma {:induction false} UniformTotalSize(images: seq<Raster>, w: nat, h: nat)
    requires forall i :: 0 <= i < |images| ==> images[i].width == w && images[i].height == h
    ensures TotalSize(Frames(images)) == |images| * (2 + 3 * w * h)
  {
    if |images| > 0 {
      UniformTotalSize(images[1..], w, h);
      var block := 2 + 3 * w * h;
      assert Frames(images)[1..] == Frames(images[1..]);
      assert BlockSize(Frames(images)[0]) == block;
      assert |images| * block == block + (|images| - 1) * block;
    }
  }

  /** Exporting `n` frames rendered at `w` by `h`: it succeeds exactly when
      there are 1 to 255 frames and both sides fit a byte, the file holds
      1 + n·(2 + 3·w·h) bytes, and it decodes to the rendered frames 1..n in
      order with alpha dropped. */
  lemma ExportRendered(n: nat, w: nat, h: nat, render: Renderer)
    requires HonoursSize(render, w, h)
    ensures var r := Export(RenderAll(n, w, h, render));
            && (r.Success? <==> 1 <= n <= 255 && w < 256 && h < 256)
            && (r.Success? ==> |r.value| == 1 + n * (2 + 3 * w * h))
            && (r.Success? ==> Decode(r.value).Some? && |Decode(r.value).value| == n)
            && (r.Success? ==> forall k :: 0 <= k < n ==> Decode(r.value).value[k] == ToFrame(render(k + 1, w, h)))
  {
    var images := RenderAll(n, w, h, render);
    assert forall i :: 0 <= i < |images| ==> images[i].width == w && images[i].height == h;
    if n > 0 {
      assert images[0].width == w && images[0].height == h;
    }
    EncodeLength(images);
    UniformTotalSize(images, w, h);
  }
}
