/** SurfaceWindowRawImageCapture: the attached behavior (all static) that turns raw capture on
    and off with the IsEnabled and UseExplicitCapture attached properties, starts a capture
    when an untracked object touches the table, pumps frames to the dependent triggers and
    turns the current frame into a JPEG. The static fields, the attached properties of the
    one window it is attached to and the Surface SDK subscriptions are fields of one object. */
module WindowCapture {
  import opened Prelude
  import opened Geometry
  import opened Clock
  import opened Registry
  import opened Imaging

  /** What a change of a boolean attached property does to a listener. */
  datatype Transition = Start | Stop | Keep

  /** The test both property-changed callbacks make: listening starts when the value goes
      from false (or unset) to true and stops when it goes from true to false. A bool
      attached property always has a bool old value (its default is false), so the unset
      case never arises. */
  function PropertyTransition(oldValue: bool, newValue: bool): Transition
  {
    if newValue && !oldValue then Start
    else if !newValue && oldValue then Stop
    else Keep
  }

  /** Whether listening is on after a transition. */
  function ListeningAfter(listening: bool, t: Transition): bool
  {
    match t
    case Start => true
    case Stop => false
    case Keep => listening
  }

  /** Listening after the property, currently `current`, takes the successive `values`,
      each change applying the transition of its old and new value. */
  function ListeningAfterChanges(listening: bool, current: bool, values: seq<bool>): bool
    decreases |values|
  {
    if values == [] then listening
    else ListeningAfterChanges(ListeningAfter(listening, PropertyTransition(current, values[0])), values[0], values[1..])
  }

  /** A change starts listening exactly when the property turns on, stops it exactly when
      it turns off, and does nothing when the value is set to what it was; so listening
      always equals the new value. */
  lemma PropertyTransitionSpec(oldValue: bool, newValue: bool)
    ensures PropertyTransition(oldValue, newValue) == Start <==> newValue && !oldValue
    ensures PropertyTransition(oldValue, newValue) == Stop <==> !newValue && oldValue
    ensures PropertyTransition(oldValue, newValue) == Keep <==> oldValue == newValue
    ensures ListeningAfter(oldValue, PropertyTransition(oldValue, newValue)) == newValue
  {
  }

  /** Starting in step with the property (both false by default), listening stays in step
      through any series of changes: it ends equal to the last value set. */
  lemma {:induction false} ListeningFollowsProperty(current: bool, values: seq<bool>)
    ensures ListeningAfterChanges(current, current, values) == if values == [] then current else values[|values| - 1]
    decreases |values|
  {
    if values != [] {
      PropertyTransitionSpec(current, values[0]);
      ListeningFollowsProperty(values[0], values[1..]);
    }
  }

  /** The RawImageCapturedEventArgs payloads: a file name when the capture was saved, the
      JPEG bytes otherwise. */
  datatype CapturedArgs = ImageUri(uri: string) | RawImage(image: seq<byte>)

  /** A CaptureRawImageAsync call: the background capture it schedules. */
  datatype CaptureRequest = CaptureRequest(saveTo: Option<string>, cropTo: RectF, preprocessImage: bool, hasCallback: bool)

  /** Removing a delegate from an event removes one subscription, if there is one. */
  function Unsubscribed(handlers: nat): nat
  {
    if handlers > 0 then handlers - 1 else 0
  }

  class SurfaceWindowRawImageCapture<B(==)> {
    var appSize: Size
    /** Whether EnableImage(Normalized) is in effect on the current ContactTarget. */
    var imageEnabled: bool
    /** FrameReceived subscriptions of OnContactTargetFrameReceived on the current ContactTarget. */
    var frameHandlers: nat
    /** ContactDown subscriptions of OnContactDown on the window. */
    var contactDownHandlers: nat
    /** The dependent SurfaceRawImageTriggerBase behaviors, in registration order. */
    var dependentBehaviors: seq<B>
    var imageAvailable: bool
    var lastBehaviorPollAt: int
    /** DateTime ticks of the last capture; DateTime's default is tick 0. */
    var lastContactAt: int
    var normalizedImage: Option<seq<byte>>
    var normalizedMetrics: Metrics
    /** The window's attached properties read by the handlers. */
    var useExplicitCapture: bool
    var saveTo: Option<string>
    var preprocessImage: bool
    /** Every OnRawImageCaptured call on a dependent behavior, in order. */
    var deliveries: seq<Delivery<B>>
    /** Every background capture scheduled, in order. */
    var captureRequests: seq<CaptureRequest>
    /** Every GDI+ request, in order. */
    var imageOps: seq<ImageOp>
    /** Every RawImageCaptured event raised on the window, in order. */
    var raisedEvents: seq<CapturedArgs>

    /** The dependent behaviors are registered once each, and an available image is one
        the SDK has put in the buffer. */
    predicate Valid()
      reads this
    {
      && NoDuplicates(dependentBehaviors)
      && (imageAvailable ==> normalizedImage.Some?)
    }

    constructor(now: int)
      ensures Valid()
      ensures appSize == Size(0, 0) && !imageEnabled && frameHandlers == 0 && contactDownHandlers == 0
      ensures dependentBehaviors == [] && !imageAvailable && lastBehaviorPollAt == now && lastContactAt == 0
      ensures normalizedImage == None && normalizedMetrics == Metrics(0, 0, 0)
      ensures !useExplicitCapture && saveTo == None && !preprocessImage
      ensures deliveries == [] && captureRequests == [] && imageOps == [] && raisedEvents == []
    {
      appSize := Size(0, 0);
      imageEnabled := false;
      frameHandlers := 0;
      contactDownHandlers := 0;
      dependentBehaviors := [];
      imageAvailable := false;
      lastBehaviorPollAt := now;
      lastContactAt := 0;
      normalizedImage := None;
      normalizedMetrics := Metrics(0, 0, 0);
      useExplicitCapture := false;
      saveTo := None;
      preprocessImage := false;
      deliveries := [];
      captureRequests := [];
      imageOps := [];
      raisedEvents := [];
    }

    method AddRawImageCaptureBehavior(behavior: B)
      requires Valid()
      modifies this`dependentBehaviors
      ensures Valid()
      ensures dependentBehaviors == Added(old(dependentBehaviors), behavior)
      ensures behavior in dependentBehaviors
    {
      AddedSpec(dependentBehaviors, behavior);
      if behavior !in dependentBehaviors {
        dependentBehaviors := dependentBehaviors + [behavior];
      }
    }

    method RemoveRawImageCaptureBehavior(behavior: B)
      requires Valid()
      modifies this`dependentBehaviors
      ensures Valid()
      ensures behavior in old(dependentBehaviors) ==> dependentBehaviors == Removed(old(dependentBehaviors), behavior)
      ensures behavior !in old(dependentBehaviors) ==> dependentBehaviors == old(dependentBehaviors)
      ensures behavior !in dependentBehaviors
    {
      RemovedSpec(dependentBehaviors, behavior);
      if behavior in dependentBehaviors {
        dependentBehaviors := Removed(dependentBehaviors, behavior);
      }
    }

    method DisableRawImage()
      requires Valid()
      modifies this`imageEnabled, this`frameHandlers
      ensures Valid()
      ensures !imageEnabled && frameHandlers == Unsubscribed(old(frameHandlers))
    {
      imageEnabled := false;
      frameHandlers := Unsubscribed(frameHandlers);
    }

    method EnableRawImage()
      requires Valid()
      modifies this`imageEnabled, this`frameHandlers
      ensures Valid()
      ensures imageEnabled && frameHandlers == old(frameHandlers) + 1
    {
      imageEnabled := true;
      frameHandlers := frameHandlers + 1;
    }

    /** A new ContactTarget for the window, with raw images enabled and one subscription. */
    method StartListeningForRawInput()
      requires Valid()
      modifies this`imageEnabled, this`frameHandlers
      ensures Valid()
      ensures imageEnabled && frameHandlers == 1
    {
      frameHandlers := 0;
      EnableRawImage();
    }

    method StopListeningForRawInput()
      requires Valid()
      modifies this`imageEnabled, this`frameHandlers
      ensures Valid()
      ensures !imageEnabled && frameHandlers == Unsubscribed(old(frameHandlers))
    {
      DisableRawImage();
    }

    /** Subscribes OnContactDown unless the window uses explicit capture. */
    method StartListeningForContactDown()
      requires Valid()
      modifies this`contactDownHandlers
      ensures Valid()
      ensures contactDownHandlers == if useExplicitCapture then old(contactDownHandlers) else old(contactDownHandlers) + 1
    {
      if !useExplicitCapture {
        contactDownHandlers := contactDownHandlers + 1;
      }
    }

    /** Unsubscribes OnContactDown unless the window uses explicit capture. */
    method StopListeningForContactDown()
      requires Valid()
      modifies this`contactDownHandlers
      ensures Valid()
      ensures contactDownHandlers == if useExplicitCapture then old(contactDownHandlers) else Unsubscribed(old(contactDownHandlers))
    {
      if !useExplicitCapture {
        contactDownHandlers := Unsubscribed(contactDownHandlers);
      }
    }

    /** OnIsEnabledPropertyChanged: turning IsEnabled on starts raw input and contact-down
        listening, turning it off stops both, setting it to its old value does nothing. The
        Loaded handler it also attaches is OnWindowLoaded. */
    method OnIsEnabledPropertyChanged(oldValue: bool, newValue: bool)
      requires Valid()
      modifies this`imageEnabled, this`frameHandlers, this`contactDownHandlers
      ensures Valid()
      ensures match PropertyTransition(oldValue, newValue)
        case Start => (imageEnabled && frameHandlers == 1
          && contactDownHandlers == (if useExplicitCapture then old(contactDownHandlers) else old(contactDownHandlers) + 1))
        case Stop => (!imageEnabled && frameHandlers == Unsubscribed(old(frameHandlers))
          && contactDownHandlers == (if useExplicitCapture then old(contactDownHandlers) else Unsubscribed(old(contactDownHandlers))))
        case Keep => (imageEnabled == old(imageEnabled) && frameHandlers == old(frameHandlers)
          && contactDownHandlers == old(contactDownHandlers))
    {
      match PropertyTransition(oldValue, newValue)
      case Start =>
        StartListeningForRawInput();
        StartListeningForContactDown();
      case Stop =>
        StopListeningForRawInput();
        StopListeningForContactDown();
      case Keep =>
    }

    /** The window's Loaded handler: appSize is the actual size, each dimension cast to int. */
    method OnWindowLoaded(actualWidth: real, actualHeight: real)
      requires Valid()
      modifies this`appSize
      ensures Valid()
      ensures appSize == Size(TruncateReal(actualWidth), TruncateReal(actualHeight))
    {
      appSize := Size(TruncateReal(actualWidth), TruncateReal(actualHeight));
    }

    /** OnUseExplicitCapturePropertyChanged. The property already holds the new value when
        the callback runs, and Start/StopListeningForContactDown read it: turning explicit
        capture on adds no handler, turning it off removes one. */
    method OnUseExplicitCapturePropertyChanged(oldValue: bool, newValue: bool)
      requires Valid()
      modifies this`useExplicitCapture, this`contactDownHandlers
      ensures Valid()
      ensures useExplicitCapture == newValue
      ensures contactDownHandlers == if PropertyTransition(oldValue, newValue) == Stop
        then Unsubscribed(old(contactDownHandlers)) else old(contactDownHandlers)
    {
      useExplicitCapture := newValue;
      match PropertyTransition(oldValue, newValue)
      case Start =>
        StartListeningForContactDown();
      case Stop =>
        StopListeningForContactDown();
      case Keep =>
    }

    /** CaptureRawImageAsync: records the capture time and schedules the background capture
        with the window's SaveTo. */
    method CaptureRawImageAsync(cropTo: RectF, preprocess: bool, hasCallback: bool, now: int)
      requires Valid()
      modifies this`lastContactAt, this`captureRequests
      ensures Valid()
      ensures lastContactAt == now
      ensures captureRequests == old(captureRequests) + [CaptureRequest(saveTo, cropTo, preprocess, hasCallback)]
    {
      lastContactAt := now;
      captureRequests := captureRequests + [CaptureRequest(saveTo, cropTo, preprocess, hasCallback)];
    }

    /** OnContactDown. The handler reads the clock twice: `contact.at` is the read it tests
        against the last capture, `contact.recordedAt` the later read CaptureRawImageAsync
        stores. A contact that is neither a finger nor a tag, more than 10 s after the last
        capture, schedules a capture of the whole image (an all-zero crop) with no callback. */
    method OnContactDown(contact: Contact)
      requires Valid()
      modifies this`lastContactAt, this`captureRequests
      ensures Valid()
      ensures var starts := ContactStartsCapture(contact.at - old(lastContactAt), contact.isFinger, contact.isTag);
        && lastContactAt == (if starts then contact.recordedAt else old(lastContactAt))
        && captureRequests == old(captureRequests)
           + (if starts then [CaptureRequest(saveTo, RectF(0.0, 0.0, 0.0, 0.0), preprocessImage, false)] else [])
    {
      var timeSinceLastContact := contact.at - lastContactAt;
      if ContactStartsCapture(timeSinceLastContact, contact.isFinger, contact.isTag) {
        CaptureRawImageAsync(RectF(0.0, 0.0, 0.0, 0.0), preprocessImage, false, contact.recordedAt);
      }
    }

    /** OnContactTargetFrameReceived, with the SDK's outcome as in the capture behavior; the
        dependent behaviors receive the frame when the Seconds-component throttle passes. */
    method OnContactTargetFrameReceived(captured: Option<seq<byte>>, metrics: Metrics, now: int)
      requires Valid()
      modifies this`imageAvailable, this`normalizedImage, this`normalizedMetrics,
               this`lastBehaviorPollAt, this`deliveries
      ensures Valid()
      ensures imageAvailable == captured.Some?
      ensures normalizedImage == if captured.Some? then captured else old(normalizedImage)
      ensures normalizedMetrics == if old(normalizedImage).None? && captured.Some? then metrics else old(normalizedMetrics)
      ensures var dispatched := captured.Some? && PollDue(now - old(lastBehaviorPollAt));
        && lastBehaviorPollAt == (if dispatched then now else old(lastBehaviorPollAt))
        && deliveries == old(deliveries) + (if dispatched then FanOut(dependentBehaviors, captured.value) else [])
    {
      imageAvailable := false;
      if normalizedImage.None? {
        imageAvailable := captured.Some?;
        if captured.Some? {
          normalizedImage := captured;
          normalizedMetrics := metrics;
        }
      } else {
        imageAvailable := captured.Some?;
        if captured.Some? {
          normalizedImage := captured;
        }
      }

      if imageAvailable {
        var timeSinceLastPoll := now - lastBehaviorPollAt;
        if PollDue(timeSinceLastPoll) {
          lastBehaviorPollAt := now;
          Dispatch(normalizedImage.value);
        }
      }
    }

    /** NotifyRawImageCaptured. When an image is available: raw input is paused, the frame is
        wrapped in a bitmap whose `palette` is rewritten, cropped to the scaled `cropTo` unless
        that is all zero, encoded (`encoded` is what the JPEG encoder produces) and saved under
        SaveTo when there is one; off the dispatcher thread the event is raised on the window
        and its arguments returned; raw input is then resumed. `nowTicks` is DateTime.Now.Ticks. */
    method NotifyRawImageCaptured(saveTo: Option<string>, cropTo: Rect, palette: array<Color>, encoded: seq<byte>,
                                  nowTicks: nat, onDispatcherThread: bool)
      returns (returnArgs: Option<CapturedArgs>)
      requires Valid()
      requires palette.Length == PaletteSize
      requires imageAvailable ==> PositiveSize(appSize)
      modifies palette, this`imageEnabled, this`frameHandlers, this`imageOps, this`raisedEvents
      ensures Valid()
      ensures !imageAvailable ==> (returnArgs == None && imageOps == old(imageOps) && raisedEvents == old(raisedEvents)
        && imageEnabled == old(imageEnabled) && frameHandlers == old(frameHandlers) && palette[..] == old(palette[..]))
      ensures imageAvailable ==>
        var path := if saveTo.Some? then Some(SavePath(saveTo.value, nowTicks)) else None;
        var args := if saveTo.Some? then ImageUri(path.value) else RawImage(encoded);
        && imageOps == old(imageOps)
           + ProcessingOps(normalizedImage.value, normalizedMetrics, ScaleBoundingBox(cropTo, normalizedMetrics.Size(), appSize), path)
        && palette[..] == GrayscalePalette()
        && returnArgs == (if onDispatcherThread then None else Some(args))
        && raisedEvents == old(raisedEvents) + (if onDispatcherThread then [] else [args])
        && imageEnabled && frameHandlers == Unsubscribed(old(frameHandlers)) + 1
    {
      returnArgs := None;
      if imageAvailable {
        DisableRawImage();
        var crop := ScaleBoundingBox(cropTo, normalizedMetrics.Size(), appSize);
        var imagePath := if saveTo.Some? then Some(SavePath(saveTo.value, nowTicks)) else None;
        var ops := RenderCapture(normalizedImage.value, normalizedMetrics, crop, imagePath, palette);
        imageOps := imageOps + ops;
        if !onDispatcherThread {
          var args := if imagePath.Some? then ImageUri(imagePath.value) else RawImage(encoded);
          raisedEvents := raisedEvents + [args];
          returnArgs := Some(args);
        }
        EnableRawImage();
      }
    }

    /** The foreach over the registered behaviors: each receives `image`, in list order. */
    method Dispatch(image: seq<byte>)
      requires Valid()
      modifies this`deliveries
      ensures Valid()
      ensures deliveries == old(deliveries) + FanOut(dependentBehaviors, image)
    {
      var i := 0;
      while i < |dependentBehaviors|
        invariant 0 <= i <= |dependentBehaviors|
        invariant deliveries == old(deliveries) + FanOut(dependentBehaviors[..i], image)
      {
        FanOutSnoc(dependentBehaviors, i, image);
        deliveries := deliveries + [Delivery(dependentBehaviors[i], image)];
        i := i + 1;
      }
      assert dependentBehaviors[..i] == dependentBehaviors;
    }
  }
}
