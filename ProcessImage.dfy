/** SurfaceProcessRawImageBehavior: a listener of the capture behavior that turns every frame
    it receives into a JPEG, cropped to its CropTo rectangle and optionally saved under its
    ImagePath, and keeps the bytes as LastProcessedImage. */
module ProcessImage {
  import opened Prelude
  import opened Geometry
  import opened Imaging

  class SurfaceProcessRawImageBehavior {
    /** The CropTo dependency property (a Rect; a struct is never null). */
    var cropTo: RectF
    /** The ImagePath dependency property; None is null. */
    var imagePath: Option<string>
    /** The PreprocessImage dependency property; nothing reads it. */
    var preprocessImage: bool
    /** The re-entrancy flag. */
    var isProcessingImage: bool
    /** LastProcessedImage; None until the first completed call. */
    var lastProcessedImage: Option<seq<byte>>
    /** Every GDI+ request made by this behavior, in order. */
    var imageOps: seq<ImageOp>

    /** A new behavior: CropTo is the default Rect, ImagePath null, PreprocessImage true. */
    constructor()
      ensures cropTo == RectF(0.0, 0.0, 0.0, 0.0) && imagePath == None && preprocessImage
      ensures !isProcessingImage && lastProcessedImage == None && imageOps == []
    {
      cropTo := RectF(0.0, 0.0, 0.0, 0.0);
      imagePath := None;
      preprocessImage := true;
      isProcessingImage := false;
      lastProcessedImage := None;
      imageOps := [];
    }

    /** The crop rectangle in sensor coordinates: CropTo with each component cast to int,
        then scaled like the capture behavior's ScaleBoundingBox. */
    function CropRegion(metrics: Metrics, appSize: Size): Rect
      requires PositiveSize(appSize)
      reads this`cropTo
    {
      ScaleBoundingBox(Truncate(cropTo), metrics.Size(), appSize)
    }

    /** OnRawImageCaptured. `metrics` and `appSize` are the capture behavior's static
        NormalizedMetrics and appSize, `palette` the palette of the bitmap wrapped around
        the frame, `encoded` what the JPEG encoder produces and `nowTicks` DateTime.Now.Ticks.
        A call made while a frame is being processed changes nothing; otherwise the frame
        is processed, LastProcessedImage becomes the encoded bytes and the flag is cleared. */
    method OnRawImageCaptured(rawImage: seq<byte>, metrics: Metrics, appSize: Size, palette: array<Color>,
                              encoded: seq<byte>, nowTicks: nat)
      requires PositiveSize(appSize)
      requires palette.Length == PaletteSize
      modifies palette, this`isProcessingImage, this`lastProcessedImage, this`imageOps
      ensures old(isProcessingImage) ==> (isProcessingImage && lastProcessedImage == old(lastProcessedImage)
        && imageOps == old(imageOps) && palette[..] == old(palette[..]))
      ensures !old(isProcessingImage) ==> (!isProcessingImage && lastProcessedImage == Some(encoded)
        && palette[..] == GrayscalePalette()
        && imageOps == old(imageOps) + ProcessingOps(rawImage, metrics, CropRegion(metrics, appSize),
             if imagePath.Some? then Some(SavePath(imagePath.value, nowTicks)) else None))
    {
      if !isProcessingImage {
        isProcessingImage := true;
        var crop := ScaleBoundingBox(Truncate(cropTo), metrics.Size(), appSize);
        var path := if imagePath.Some? then Some(SavePath(imagePath.value, nowTicks)) else None;
        var ops := RenderCapture(rawImage, metrics, crop, path, palette);
        imageOps := imageOps + ops;
        lastProcessedImage := Some(encoded);
        isProcessingImage := false;
      }
    }
  }
}
