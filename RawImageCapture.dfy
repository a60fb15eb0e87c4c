/** SurfaceRawImageCaptureBehavior: the "image pump" attached to the SurfaceWindow. It takes
    every normalized frame the Surface SDK delivers and, at most once per throttle period,
    hands it to every registered listener. Its static fields (the listener list, the sensor
    metrics, the window size) and its instance fields are fields of one object here. */
module RawImageCapture {
  import opened Prelude
  import opened Geometry
  import opened Clock
  import opened Registry
  import opened Imaging

  class SurfaceRawImageCaptureBehavior<L(==)> {
    /** Static: the window size, set when the window has loaded. */
    var appSize: Size
    /** Static: the ImageMetrics of the normalized image, set by the first successful capture. */
    var normalizedMetrics: Metrics
    /** Static: the registered ISurfaceRawImageAware listeners, in registration order. */
    var rawImageListeners: seq<L>
    var imageAvailable: bool
    /** DateTime ticks of the last dispatch. */
    var lastBehaviorPollAt: int
    /** The contents of the SDK's normalized image buffer; None while the buffer is null.
        TryGetRawImage allocates it once and UpdateRawImage rewrites it in place. */
    var normalizedImage: Option<seq<byte>>
    /** Whether the LastNormalizedImage property has been assigned. It is only ever assigned
        the buffer above, so from then on it refers to that very array. */
    var lastImageIsBuffer: bool
    /** Every OnRawImageCaptured call made on a listener, in order. */
    var deliveries: seq<Delivery<L>>

    /** The LastNormalizedImage property: null until the first dispatch, afterwards the SDK
        buffer itself, so it shows whatever frame the SDK last wrote into it. */
    function LastNormalizedImage(): Option<seq<byte>>
      reads this`lastImageIsBuffer, this`normalizedImage
    {
      if lastImageIsBuffer then normalizedImage else None
    }

    /** The registry holds each listener once, and the image flag and the property only
        ever point at a buffer that exists. */
    predicate Valid()
      reads this
    {
      && NoDuplicates(rawImageListeners)
      && (imageAvailable ==> normalizedImage.Some?)
      && (lastImageIsBuffer ==> normalizedImage.Some?)
    }

    /** A fresh behavior created at time `now`: lastBehaviorPollAt is initialised to DateTime.Now. */
    constructor(now: int)
      ensures Valid()
      ensures rawImageListeners == [] && deliveries == []
      ensures !imageAvailable && normalizedImage == None && LastNormalizedImage() == None
      ensures lastBehaviorPollAt == now
      ensures appSize == Size(0, 0) && normalizedMetrics == Metrics(0, 0, 0)
    {
      appSize := Size(0, 0);
      normalizedMetrics := Metrics(0, 0, 0);
      rawImageListeners := [];
      imageAvailable := false;
      lastBehaviorPollAt := now;
      normalizedImage := None;
      lastImageIsBuffer := false;
      deliveries := [];
    }

    /** AddRawImageListener: appends the listener unless it is already registered. */
    method AddRawImageListener(listener: L)
      requires Valid()
      modifies this`rawImageListeners
      ensures Valid()
      ensures rawImageListeners == Added(old(rawImageListeners), listener)
      ensures listener in rawImageListeners
    {
      AddedSpec(rawImageListeners, listener);
      if listener !in rawImageListeners {
        rawImageListeners := rawImageListeners + [listener];
      }
    }

    /** RemoveRawImageListener: List.Remove when the listener is registered, nothing otherwise. */
    method RemoveRawImageListener(listener: L)
      requires Valid()
      modifies this`rawImageListeners
      ensures Valid()
      ensures listener in old(rawImageListeners) ==> rawImageListeners == Removed(old(rawImageListeners), listener)
      ensures listener !in old(rawImageListeners) ==> rawImageListeners == old(rawImageListeners)
      ensures listener !in rawImageListeners
    {
      RemovedSpec(rawImageListeners, listener);
      if listener in rawImageListeners {
        rawImageListeners := Removed(rawImageListeners, listener);
      }
    }

    /** GetWindowSizeOnLoaded: the window's actual size, each dimension cast to int. */
    method GetWindowSizeOnLoaded(actualWidth: real, actualHeight: real)
      requires Valid()
      modifies this`appSize
      ensures Valid()
      ensures appSize == Size(TruncateReal(actualWidth), TruncateReal(actualHeight))
    {
      appSize := Size(TruncateReal(actualWidth), TruncateReal(actualHeight));
    }

    /** OnContactTargetFrameReceived. `captured` is the outcome of the SDK call
        (TryGetRawImage for the first frame, UpdateRawImage into the same buffer afterwards):
        the buffer's contents when it reports an image, None when it does not. `metrics` is
        what TryGetRawImage reports and `now` is DateTime.Now. Because LastNormalizedImage is
        the buffer, once it has been set it shows every frame the SDK captures, including
        the frames the throttle keeps from the listeners. */
    method OnContactTargetFrameReceived(captured: Option<seq<byte>>, metrics: Metrics, now: int)
      requires Valid()
      modifies this`imageAvailable, this`normalizedImage, this`normalizedMetrics,
               this`lastImageIsBuffer, this`lastBehaviorPollAt, this`deliveries
      ensures Valid()
      ensures imageAvailable == captured.Some?
      ensures normalizedImage == if captured.Some? then captured else old(normalizedImage)
      ensures normalizedMetrics == if old(normalizedImage).None? && captured.Some? then metrics else old(normalizedMetrics)
      ensures var dispatched := captured.Some? && PollDue(now - old(lastBehaviorPollAt));
        && lastImageIsBuffer == (old(lastImageIsBuffer) || dispatched)
        && (dispatched ==> LastNormalizedImage() == captured)
        && lastBehaviorPollAt == (if dispatched then now else old(lastBehaviorPollAt))
        && deliveries == old(deliveries) + (if dispatched then FanOut(rawImageListeners, captured.value) else [])
      ensures old(LastNormalizedImage()).Some? && captured.Some? ==> LastNormalizedImage() == captured
      ensures captured.None? ==> LastNormalizedImage() == old(LastNormalizedImage())
    {
      imageAvailable := false;
      if normalizedImage.None? {
        imageAvailable := captured.Some?;
        if captured.Some? {
          normalizedImage := captured;
          normalizedMetrics := metrics;
        }
      } else {
        imageAvailable := captured.Some?;
        if captured.Some? {
          normalizedImage := captured;
        }
      }

      if imageAvailable {
        var timeSinceLastPoll := now - lastBehaviorPollAt;
        if PollDue(timeSinceLastPoll) {
          lastImageIsBuffer := true;
          lastBehaviorPollAt := now;
          Dispatch(normalizedImage.value);
        }
      }
    }

    /** The foreach over the registered listeners: each receives `image`, in list order. */
    method Dispatch(image: seq<byte>)
      requires Valid()
      modifies this`deliveries
      ensures Valid()
      ensures deliveries == old(deliveries) + FanOut(rawImageListeners, image)
    {
      var i := 0;
      while i < |rawImageListeners|
        invariant 0 <= i <= |rawImageListeners|
        invariant deliveries == old(deliveries) + FanOut(rawImageListeners[..i], image)
      {
        FanOutSnoc(rawImageListeners, i, image);
        deliveries := deliveries + [Delivery(rawImageListeners[i], image)];
        i := i + 1;
      }
      assert rawImageListeners[..i] == rawImageListeners;
    }
  }
}
