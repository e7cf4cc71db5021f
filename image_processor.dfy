/** `ImageProcessor::generateThumbnail` and its helpers: choosing the output
    MIME type, the centred crop-to-fill rectangle, the codec dispatch of
    `createImageFromFile` / `saveImage`, and the PNG compression level. The GD
    calls are reduced to what they leave on a canvas; the geometry is exact
    (`real`), where GD would truncate fractional crop offsets. */
module ImageProcessor {
  import opened Php
  import opened Text
  import opened Storage

  /** The GD functions whose presence the code tests with `function_exists`. */
  datatype Gd = Gd(webpDecode: bool, webpEncode: bool)

  const JpegMime := "image/jpeg"
  const PngMime := "image/png"
  const GifMime := "image/gif"
  const WebpMime := "image/webp"

  /** The four MIME types GD is asked to read and write. */
  const Supported: set<string> := {JpegMime, PngMime, GifMime, WebpMime}

  // ---------------------------------------------------------------------------
  // Output format (lines 42-54)
  // ---------------------------------------------------------------------------

  /** The extensions the `match` names. */
  predicate KnownExtension(ext: string) {
    ext == "jpg" || ext == "jpeg" || ext == "png" || ext == "gif" || ext == "webp"
  }

  /** The `match` on the lower-cased destination extension. */
  function MimeForExtension(ext: string, sourceMime: string): string {
    if ext == "jpg" || ext == "jpeg" then JpegMime
    else if ext == "png" then PngMime
    else if ext == "gif" then GifMime
    else if ext == "webp" then WebpMime
    else sourceMime
  }

  /** The output MIME type: an explicit (truthy) format wins, unvalidated;
      otherwise the destination's extension; otherwise the source's type. */
  function OutputMime(outputFormat: Option<string>, thumbnailPath: string, sourceMime: string): (r: string)
    ensures "image/" <= r || r == sourceMime
  {
    if outputFormat.Some? && Truthy(outputFormat.value) then
      "image/" + (if outputFormat.value == "jpg" then "jpeg" else outputFormat.value)
    else
      MimeForExtension(ToLower(Extension(thumbnailPath)), sourceMime)
  }

  /** An explicit format decides alone: neither the destination path nor the
      source type matter, 'jpg' is spelled 'jpeg', and any other format is
      pasted after "image/" unchecked. */
  lemma ExplicitFormatWins(f: string, p1: string, p2: string, m1: string, m2: string)
    requires Truthy(f)
    ensures OutputMime(Some(f), p1, m1) == OutputMime(Some(f), p2, m2)
    ensures f == "jpg" ==> OutputMime(Some(f), p1, m1) == JpegMime
    ensures f != "jpg" ==> OutputMime(Some(f), p1, m1) == "image/" + f
  {
  }

  /** PHP treats "" and "0" as no format at all. */
  lemma FalsyFormatIsIgnored(f: string, p: string, m: string)
    requires f == "" || f == "0"
    ensures OutputMime(Some(f), p, m) == OutputMime(None, p, m)
  {
  }

  /** Without a format, a known extension (in any letter case) picks its MIME
      type: 'jpg' and 'jpeg' give JPEG, the others their own type. */
  lemma ExtensionSelectsMime(dir: string, stem: string, ext: string, sourceMime: string)
    requires '/' !in stem && '.' !in ext && '/' !in ext
    requires KnownExtension(ToLower(ext))
    ensures OutputMime(None, dir + "/" + stem + "." + ext, sourceMime) ==
            if ToLower(ext) == "jpg" || ToLower(ext) == "jpeg" then JpegMime else "image/" + ToLower(ext)
    ensures OutputMime(None, dir + "/" + stem + "." + ext, sourceMime) in Supported
  {
    ExtensionOfJoin(dir, stem, ext);
    KnownExtensionMime(dir + "/" + stem + "." + ext, ToLower(ext), sourceMime);
  }

  lemma KnownExtensionMime(p: string, e: string, sourceMime: string)
    requires ToLower(Extension(p)) == e && KnownExtension(e)
    ensures OutputMime(None, p, sourceMime) == if e == "jpg" || e == "jpeg" then JpegMime else "image/" + e
    ensures OutputMime(None, p, sourceMime) in Supported
  {
    assert OutputMime(None, p, sourceMime) == MimeForExtension(e, sourceMime);
    MimeOfKnownExtension(e, sourceMime);
  }

  lemma MimeOfKnownExtension(e: string, sourceMime: string)
    requires KnownExtension(e)
    ensures MimeForExtension(e, sourceMime) == if e == "jpg" || e == "jpeg" then JpegMime else "image/" + e
    ensures MimeForExtension(e, sourceMime) in Supported
  {
  }

  /** The extension of `dir/stem.ext` is `ext`. */
  lemma ExtensionOfJoin(dir: string, stem: string, ext: string)
    requires '/' !in stem && '.' !in ext && '/' !in ext
    ensures Extension(dir + "/" + stem + "." + ext) == ext
  {
    var name := stem + "." + ext;
    assert '/' !in name;
    assert dir + "/" + stem + "." + ext == dir + "/" + name;
    BasenameOfJoin(dir, name);
    AfterLastOfJoinDot(stem, ext);
  }

  /** Without a format, an unknown extension keeps the source's type. */
  lemma UnknownExtensionKeepsSource(p: string, sourceMime: string)
    requires !KnownExtension(ToLower(Extension(p)))
    ensures OutputMime(None, p, sourceMime) == sourceMime
  {
  }

  /** The output type is one GD can write whenever the source type is, unless
      an explicit format names something else. */
  lemma OutputMimeSupported(p: string, sourceMime: string)
    requires sourceMime in Supported
    ensures OutputMime(None, p, sourceMime) in Supported
  {
    var e := ToLower(Extension(p));
    assert OutputMime(None, p, sourceMime) == MimeForExtension(e, sourceMime);
    if KnownExtension(e) {
      MimeOfKnownExtension(e, sourceMime);
    }
  }

  lemma BasenameOfJoin(dir: string, name: string)
    requires name != [] && '/' !in name
    ensures Basename(dir + "/" + name) == name
  {
    var p := dir + "/" + name;
    assert TrimTrailingSlashes(p) == p;
    AfterLastOfJoin(dir, name);
  }

  lemma AfterLastOfJoinDot(stem: string, ext: string)
    requires '.' !in ext
    ensures '.' in stem + "." + ext
    ensures AfterLast(stem + "." + ext, '.') == ext
  {
    var s := stem + "." + ext;
    assert s[|stem|] == '.';
    AfterLastOfJoinChar(stem, ext, '.');
  }

  lemma {:induction false} AfterLastOfJoinChar(a: string, b: string, c: char)
    requires c !in b
    ensures AfterLast(a + [c] + b, c) == b
    decreases |b|
  {
    if b != [] {
      var s := a + [c] + b;
      var m := b[..|b| - 1];
      assert s[..|s| - 1] == a + [c] + m;
      AfterLastOfJoinChar(a, m, c);
      assert b == m + [b[|b| - 1]];
    }
  }

  // ---------------------------------------------------------------------------
  // Crop-to-fill geometry (lines 63-78)
  // ---------------------------------------------------------------------------

  /** The source rectangle `imagecopyresampled` samples from. */
  datatype Crop = Crop(x: real, y: real, width: real, height: real)

  /** A source relatively wider than the target keeps its full height and is
      cropped left and right; otherwise it keeps its full width and is cropped
      top and bottom. Either way the crop is centred. */
  function CropToFill(sourceWidth: real, sourceHeight: real, width: real, height: real): Crop
    requires sourceHeight > 0.0 && height > 0.0 && width > 0.0
  {
    var sourceRatio := sourceWidth / sourceHeight;
    var targetRatio := width / height;
    if sourceRatio > targetRatio then
      var newWidth := sourceHeight * targetRatio;
      Crop((sourceWidth - newWidth) / 2.0, 0.0, newWidth, sourceHeight)
    else
      var newHeight := sourceWidth / targetRatio;
      Crop(0.0, (sourceHeight - newHeight) / 2.0, sourceWidth, newHeight)
  }

  /** For positive sizes the crop lies inside the source, is centred on both
      axes, keeps one axis whole, and has exactly the target's aspect ratio. */
  lemma CropIsCentredCover(sw: real, sh: real, w: real, h: real)
    requires sw > 0.0 && sh > 0.0 && w > 0.0 && h > 0.0
    ensures var c := CropToFill(sw, sh, w, h);
            && c.x >= 0.0 && c.y >= 0.0
            && 2.0 * c.x + c.width == sw && 2.0 * c.y + c.height == sh
            && 0.0 < c.width <= sw && 0.0 < c.height <= sh
            && ((c.x == 0.0 && c.width == sw) || (c.y == 0.0 && c.height == sh))
            && c.width * h == c.height * w
  {
    var c := CropToFill(sw, sh, w, h);
    var t := w / h;
    assert t * h == w;
    if sw / sh > t {
      assert sw == (sw / sh) * sh;
      assert sw > t * sh by { StrictScale(sw / sh, t, sh); }
      assert c.width == sh * t;
      assert c.width * h == sh * (t * h);
    } else {
      assert sw == (sw / sh) * sh;
      assert sw <= t * sh by { Scale(sw / sh, t, sh); }
      assert c.height == sw / t;
      assert c.height * t == sw;
      assert c.height <= sh by { DivideBound(sw, t, sh); }
      assert c.height * w == c.height * (t * h) == sw * h;
    }
  }

  lemma StrictScale(a: real, b: real, k: real)
    requires a > b && k > 0.0
    ensures a * k > b * k
  {
  }

  lemma Scale(a: real, b: real, k: real)
    requires a <= b && k > 0.0
    ensures a * k <= b * k
  {
  }

  lemma DivideBound(x: real, t: real, s: real)
    requires t > 0.0 && x <= t * s
    ensures x / t <= s
  {
    assert x / t * t == x;
    if x / t > s {
      StrictScale(x / t, s, t);
    }
  }

  /** Cover semantics: no rectangle with the target's aspect ratio that fits
      in the source is larger than the crop. */
  lemma CropIsLargest(sw: real, sh: real, w: real, h: real, cw: real, ch: real)
    requires sw > 0.0 && sh > 0.0 && w > 0.0 && h > 0.0
    requires 0.0 < cw <= sw && 0.0 < ch <= sh && cw * h == ch * w
    ensures var c := CropToFill(sw, sh, w, h);
            cw <= c.width && ch <= c.height
  {
    var c := CropToFill(sw, sh, w, h);
    CropIsCentredCover(sw, sh, w, h);
    if c.width == sw {
      RatioBound(cw, ch, c.width, c.height, h, w);
    } else {
      assert c.height == sh;
      RatioBound(ch, cw, c.height, c.width, w, h);
    }
  }

  /** Two rectangles of the same aspect ratio: the one no wider is no taller. */
  lemma RatioBound(a: real, b: real, wideA: real, tallB: real, h: real, w: real)
    requires h > 0.0 && w > 0.0
    requires a * h == b * w && wideA * h == tallB * w && a <= wideA
    ensures b <= tallB
  {
    Scale(a, wideA, h);
    if b > tallB {
      StrictScale(b, tallB, w);
    }
  }

  /** Equal aspect ratios take the else branch and keep the whole source. */
  lemma CropOfEqualRatios(sw: real, sh: real, w: real, h: real)
    requires sw > 0.0 && sh > 0.0 && w > 0.0 && h > 0.0
    requires sw * h == sh * w
    ensures CropToFill(sw, sh, w, h) == Crop(0.0, 0.0, sw, sh)
  {
    var t := w / h;
    assert sw / sh == t by {
      assert (sw / sh) * (sh * h) == sw * h;
      assert t * (sh * h) == sh * w;
    }
    assert sw / t == sh by {
      assert sh * t == sh * w / h;
      assert sh * w / h == sw;
    }
  }

  /** A 1600x1000 source cut for a 400x400 thumbnail keeps the full height
      and drops 300 pixels on either side. */
  lemma CropLandscapeToSquare()
    ensures CropToFill(1600.0, 1000.0, 400.0, 400.0) == Crop(300.0, 0.0, 1000.0, 1000.0)
  {
  }

  // ---------------------------------------------------------------------------
  // Codec dispatch (lines 133-168) and the PNG level (line 159)
  // ---------------------------------------------------------------------------

  /** `9 - floor(($quality / 100) * 9)`. For an integer quality the product
      is never within rounding distance of an integer unless it is one, so
      integer floor division gives the same value. */
  function PngLevel(quality: int): int {
    9 - (9 * quality) / 100
  }

  /** The integer formula is the real-valued one of the source. */
  lemma PngLevelIsFloor(q: int)
    ensures PngLevel(q) == 9 - ((q as real / 100.0) * 9.0).Floor
  {
    var f := (9 * q) / 100;
    var x := (q as real / 100.0) * 9.0;
    assert x == (9 * q) as real / 100.0;
    assert 100 * f <= 9 * q < 100 * f + 100;
    assert f as real <= x < f as real + 1.0;
  }

  /** A quality in 0..100 gives a level in 0..9; 100 gives 0, 0 gives 9, and
      a higher quality never gives a higher level. */
  lemma PngLevelRange(q: int, q': int)
    requires 0 <= q <= q' <= 100
    ensures 0 <= PngLevel(q) <= 9 && 0 <= PngLevel(q') <= 9
    ensures PngLevel(q') <= PngLevel(q)
    ensures PngLevel(100) == 0 && PngLevel(0) == 9
  {
    assert 9 * q <= 9 * q';
    DivMonotone(9 * q, 9 * q', 100);
  }

  lemma DivMonotone(a: int, b: int, d: int)
    requires 0 <= a <= b && d > 0
    ensures a / d <= b / d
  {
    var qa, qb := a / d, b / d;
    assert a == d * qa + a % d && b == d * qb + b % d;
    if qa > qb {
      MulMonotone(d, qb + 1, qa);
    }
  }

  lemma MulMonotone(d: int, x: int, y: int)
    requires d > 0 && x <= y
    ensures d * x <= d * y
  {
  }

  /** `createImageFromFile`: whether a decoder exists for the source type. */
  predicate HasDecoder(mime: string, gd: Gd) {
    if mime == JpegMime || mime == PngMime || mime == GifMime then true
    else if mime == WebpMime then gd.webpDecode
    else false
  }

  /** `saveImage`: the encoder and quality argument used for an output type,
      or None when the switch reaches `default` or WebP support is missing. */
  function Encoder(mime: string, quality: int, gd: Gd): Option<Encoding> {
    if mime == JpegMime then Some(Jpeg(quality))
    else if mime == PngMime then Some(Png(PngLevel(quality)))
    else if mime == GifMime then Some(Gif)
    else if mime == WebpMime then (if gd.webpEncode then Some(Webp(quality)) else None)
    else None
  }

  /** Exactly the four supported types have codecs, WebP only when GD was
      built with it; GIF ignores the quality and PNG gets its level. */
  lemma CodecsAreTheSupportedFour(mime: string, q: int, gd: Gd)
    ensures HasDecoder(mime, gd) <==> mime in Supported && (mime == WebpMime ==> gd.webpDecode)
    ensures Encoder(mime, q, gd).Some? <==> mime in Supported && (mime == WebpMime ==> gd.webpEncode)
    ensures mime == PngMime ==> Encoder(mime, q, gd) == Some(Png(PngLevel(q)))
    ensures mime == GifMime ==> Encoder(mime, q, gd) == Some(Gif)
  {
  }

  // ---------------------------------------------------------------------------
  // The canvas and the pipeline
  // ---------------------------------------------------------------------------

  /** Output types whose canvas is made transparent before drawing. */
  predicate KeepsAlpha(mime: string) {
    mime == PngMime || mime == GifMime || mime == WebpMime
  }

  /** A GD true-colour image resource. */
  class Canvas {
    var width: int
    var height: int
    var alphaBlending: bool
    var alphaSaved: bool
    var transparentFill: bool
    var drawn: Option<Resample>

    /** `imagecreatetruecolor($w, $h)`: blending on, nothing saved or drawn. */
    constructor (w: int, h: int)
      requires w > 0 && h > 0
      ensures width == w && height == h
      ensures alphaBlending && !alphaSaved && !transparentFill && drawn == None
    {
      width, height := w, h;
      alphaBlending, alphaSaved, transparentFill := true, false, false;
      drawn := None;
    }

    /** `imagealphablending(false)`, `imagesavealpha(true)` and a fully
        transparent `imagefilledrectangle` over the whole canvas. */
    method PreserveTransparency()
      modifies this
      ensures width == old(width) && height == old(height) && drawn == old(drawn)
      ensures !alphaBlending && alphaSaved && transparentFill
    {
      alphaBlending := false;
      alphaSaved := true;
      transparentFill := true;
    }

    /** `imagecopyresampled` from a source rectangle onto (dstX, dstY, dstW, dstH). */
    method CopyResampled(dstX: int, dstY: int, dstW: int, dstH: int, crop: Crop)
      modifies this
      ensures width == old(width) && height == old(height)
      ensures alphaBlending == old(alphaBlending) && alphaSaved == old(alphaSaved)
      ensures transparentFill == old(transparentFill)
      ensures drawn == Some(Resample(dstX, dstY, dstW, dstH, crop.x, crop.y, crop.width, crop.height))
    {
      drawn := Some(Resample(dstX, dstY, dstW, dstH, crop.x, crop.y, crop.width, crop.height));
    }

    function Snapshot(): Raster
      reads this
    {
      Raster(width, height, alphaBlending, alphaSaved, transparentFill, drawn)
    }
  }

  /** What `file_exists` and `getimagesize` find at the source path. */
  function Probe(files: map<string, Blob>, path: string): Option<ImageInfo> {
    if path !in files then None
    else match files[path]
      case Stored(probe, _) => probe
      case Rendered(r, e) =>
        if r.width > 0 && r.height > 0 then Some(ImageInfo(r.width, r.height, EncodingMime(e))) else None
      case Resized(_) => None
  }

  /** Whether GD's decoder accepts the bytes at the path. */
  predicate Decodes(files: map<string, Blob>, path: string) {
    path in files && (files[path].Stored? ==> files[path].decodable)
  }

  function EncodingMime(e: Encoding): string {
    match e
    case Jpeg(_) => JpegMime
    case Png(_) => PngMime
    case Gif => GifMime
    case Webp(_) => WebpMime
  }

  /** The canvas the pipeline leaves behind for a decoded source: exactly
      `width x height`, filled from (0,0) with the centred crop, and prepared
      for transparency only for PNG, GIF and WebP output. */
  function ThumbnailCanvas(info: ImageInfo, mime: string, width: int, height: int): Raster
    requires info.height > 0 && width > 0 && height > 0
  {
    var c := CropToFill(info.width as real, info.height as real, width as real, height as real);
    var alpha := KeepsAlpha(mime);
    Raster(width, height, !alpha, alpha, alpha,
           Some(Resample(0, 0, width, height, c.x, c.y, c.width, c.height)))
  }

  /** The source takes `dirname` of the full path under the disk root, so a
      thumbnail path with no directory part ("t.jpg", "/t.jpg", "") names the
      root, which exists and is not created again. */
  predicate IsDiskRoot(dir: string) {
    dir == "." || dir == "/" || dir == ""
  }

  /** The point at which the pipeline stops, given the disk before the call. */
  datatype Stage =
    | NoSource     // file missing or not an image: returns false
    | NoDecoder    // createImageFromFile gave false: returns false
    | Raises(e: Error)
    | Encodes(info: ImageInfo, mime: string)  // reaches saveImage

  function StageOf(files: map<string, Blob>, sourcePath: string, thumbnailPath: string,
                   width: int, height: int, outputFormat: Option<string>, gd: Gd): (st: Stage)
    ensures st.Encodes? ==> st.info.height > 0 && width > 0 && height > 0
  {
    var probe := Probe(files, sourcePath);
    if probe.None? then NoSource
    else
      var info := probe.value;
      if !(HasDecoder(info.mime, gd) && Decodes(files, sourcePath)) then NoDecoder
      else if info.height == 0 || height == 0 || (width == 0 && info.width == 0) then Raises(DivisionByZero)
      else if width <= 0 || height < 0 then Raises(ValueError)
      else Encodes(info, OutputMime(outputFormat, thumbnailPath, info.mime))
  }

  /** `generateThumbnail`. `encoderSucceeds` stands for the result of the GD
      encoder call itself (a write error makes it return false). */
  method GenerateThumbnail(disk: Disk, sourcePath: string, thumbnailPath: string,
                           width: int, height: int, quality: int,
                           outputFormat: Option<string>, gd: Gd, encoderSucceeds: bool)
    returns (r: Call<bool>)
    requires disk.Valid()
    requires 0 <= quality <= 100  // documented range of the quality argument
    modifies disk
    ensures disk.Valid()
    ensures match StageOf(old(disk.files), sourcePath, thumbnailPath, width, height, outputFormat, gd)
            case NoSource => r == Returns(false) && unchanged(disk)
            case NoDecoder => r == Returns(false) && unchanged(disk)
            case Raises(e) => r == Throws(e) && unchanged(disk)
            case Encodes(info, mime) =>
              var dir := Dirname(thumbnailPath);
              var enc := Encoder(mime, quality, gd);
              var ok := enc.Some? && encoderSucceeds;
              && r == Returns(ok)
              && disk.files == (if ok then old(disk.files)[thumbnailPath := Rendered(ThumbnailCanvas(info, mime, width, height), enc.value)]
                                else old(disk.files))
              && disk.dirs == old(disk.dirs) + (if IsDiskRoot(dir) then {} else Ancestors(dir) + {dir})
                              + (if ok then Ancestors(thumbnailPath) else {})
  {
    ghost var stage := StageOf(disk.files, sourcePath, thumbnailPath, width, height, outputFormat, gd);
    var probe := Probe(disk.files, sourcePath);
    if probe.None? {
      assert stage == NoSource;
      return Returns(false);
    }
    var info := probe.value;
    var mime := OutputMime(outputFormat, thumbnailPath, info.mime);
    if !HasDecoder(info.mime, gd) || !Decodes(disk.files, sourcePath) {
      assert stage == NoDecoder;
      return Returns(false);
    }
    // The ratios divide by both heights, and a zero-width target over a
    // zero-width source reaches `$sourceWidth / $targetRatio` with a zero ratio.
    if info.height == 0 || height == 0 || (width == 0 && info.width == 0) {
      assert stage == Raises(DivisionByZero);
      return Throws(DivisionByZero);
    }
    // imagecreatetruecolor rejects a size that is not positive.
    if width <= 0 || height < 0 {
      assert stage == Raises(ValueError);
      return Throws(ValueError);
    }
    assert stage == Encodes(info, mime);
    var crop := CropToFill(info.width as real, info.height as real, width as real, height as real);
    var canvas := new Canvas(width, height);
    if KeepsAlpha(mime) {
      canvas.PreserveTransparency();
    }
    canvas.CopyResampled(0, 0, width, height, crop);
    var dir := Dirname(thumbnailPath);
    if !IsDiskRoot(dir) {
      disk.MakeDirectory(dir);
    }
    var enc := Encoder(mime, quality, gd);
    if enc.Some? && encoderSucceeds {
      disk.Put(thumbnailPath, Rendered(canvas.Snapshot(), enc.value));
      return Returns(true);
    }
    return Returns(false);
  }
}
