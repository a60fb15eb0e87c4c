# SurfaceRawInput in Dafny

A model of the logic in SurfaceRawInput, a set of WPF behaviors and triggers for the Microsoft
Surface table that work on its raw infrared image. It covers:

- **The image pumps** (`SurfaceRawImageCaptureBehavior`, and the static
  `SurfaceWindowRawImageCapture`). They take each normalized 768-wide sensor frame and hand
  it to every registered listener, at most once per throttle period.
- **The intensity trigger** (`SurfaceActivationTriggerBase`). It scans the part of each frame
  under its element and calls its Got/Lost hooks.
- **The capture paths** (`SurfaceWindowRawImageCapture.NotifyRawImageCaptured` and
  `SurfaceProcessRawImageBehavior`). They turn a frame into a JPEG: rewrite the palette, crop
  to a scaled rectangle, encode, and optionally save under a time-stamped file name.

Modules:

| module | file | what it holds |
|---|---|---|
| `Prelude` | Prelude.dfy | `Option`, `byte`, C#'s truncating `/` and `%`, the `(int)` cast of a double, `int.MaxValue` |
| `Geometry` | Geometry.dfy | `Rectangle`/`Rect`, both `ScaleBoundingBox` copies, the `floor(v / 0.75)` map |
| `Clock` | Clock.dfy | `TimeSpan.Seconds`, the frame throttle, the contact-down debounce |
| `Registry` | Registry.dfy | the listener lists used as sets, and the fan-out to them |
| `Imaging` | Imaging.dfy | the palette rewrite (in place on an array), the save path, the GDI+ request sequence |
| `ActivationScan` | ActivationScan.dfy | specification of the scan: which samples it reads, its hits, its box, its hooks |
| `ActivationTrigger` | ActivationTrigger.dfy | the trigger as a class whose loop is proved against `ActivationScan` |
| `RawImageCapture` | RawImageCapture.dfy | `SurfaceRawImageCaptureBehavior` as a class |
| `WindowCapture` | WindowCapture.dfy | `SurfaceWindowRawImageCapture` as a class, and the property-change rule |
| `ProcessImage` | ProcessImage.dfy | `SurfaceProcessRawImageBehavior` as a class |

Modelling choices:

- **Static state.** Each C# class's static fields and instance fields are the fields of one
  Dafny object. Each method's `modifies` clause names the fields it changes.
- **Class invariants.** Each capture class has a `Valid()` predicate: the listener or
  behavior list holds each entry once, and an available image (and, for the capture
  behavior, `LastNormalizedImage`) refers to a buffer that exists. The constructor
  establishes it and every method keeps it.
- **The shared image buffer.** `TryGetRawImage` allocates the normalized buffer once and
  `UpdateRawImage` rewrites that same array afterwards. `LastNormalizedImage` is only ever
  assigned that array, so it is modelled as a flag saying it refers to the buffer. Once set,
  it shows every frame the SDK writes, including frames the throttle holds back.
- **Foreign results are inputs.** Outcomes of the Surface SDK and GDI+ are method parameters:
  - whether a frame was captured, and its bytes;
  - the image metrics;
  - the bitmap's palette, as an `array` rewritten in place;
  - the JPEG bytes;
  - `DateTime.Now` in ticks;
  - whether the caller is on the dispatcher thread.
- **Effects are traces.** The effects the code has on foreign objects are appended to `seq`
  fields:
  - calls to listeners;
  - Got/Lost hook calls;
  - GDI+ requests;
  - raised events;
  - scheduled captures.
- **Event subscriptions are counters.** Adding a delegate adds one subscription. Removing
  one takes one away if there is one.

Where the code and its comments or documentation disagree, the model follows the code:

- **The frame throttle.** It tests `TimeSpan.Seconds > 0.1`, the seconds *component* of the
  span. So a frame is handed on only when the whole number of elapsed seconds is not a
  multiple of 60. That is never within the first second and never at exactly one minute;
  it is not "every 0.1 s".
- **The Lost hook.** `OnLostActivation` fires on every frame in which nothing is found,
  whatever the previous state. `OnGotActivation` fires only on a transition.
- **The sample index.** It is always `row * 768 + col`, whatever the image metrics say. The
  scanned rows and columns step by 2 from the region's origin.
- **The bounding box.** `minX, minY, maxX, maxY` is computed and then dropped by the C#
  method. Here the scan method returns it, so that its contract can state it.
- **The "grayscale" palette.** Entry 0 becomes white and every other entry pure green.
- **`OnUseExplicitCapturePropertyChanged`.** `Start/StopListeningForContactDown` read the
  property, which already holds its new value when the callback runs. So turning explicit
  capture on adds no handler, and turning it off removes one.
- **`CropTo != null`.** A `Rect` is a struct, so this test is always true. The crop is
  therefore decided by `Rectangle.IsEmpty` alone: it is skipped only when all four scaled
  components are zero.

## Model

| member | source | states |
|---|---|---|
| ActivationScan.AllHitsExact | SurfaceRawInput/SurfaceActivationTriggerBase.cs:78-83 | a position is among the scan's hits iff the scan examines it (rows and columns stepping by 2 from the region origin, inside the region) and its sample at row*768+col is strictly greater than the threshold |
| ActivationScan.RowHitsMembers | SurfaceRawInput/SurfaceActivationTriggerBase.cs:80-83 | the hits of one row from a column on are exactly the examined active samples of that row at or after that column |
| ActivationScan.HitsMembers | SurfaceRawInput/SurfaceActivationTriggerBase.cs:78-83 | the hits from a row on are exactly the examined active samples at or below that row |
| ActivationScan.RowHitsInOrder | SurfaceRawInput/SurfaceActivationTriggerBase.cs:80 | within a row, hits come left to right, strictly |
| ActivationScan.HitsInOrder | SurfaceRawInput/SurfaceActivationTriggerBase.cs:78-80 | the scan meets its hits in strict row-major order |
| ActivationScan.FirstHitIsEarliest | SurfaceRawInput/SurfaceActivationTriggerBase.cs:78-97 | the hits are in row-major order and the first one (where Got fires) precedes every other examined active sample |
| ActivationScan.EmptyRegionFindsNothing | SurfaceRawInput/SurfaceActivationTriggerBase.cs:78-107 | a region with no width or no height yields no hits (so the call reports Lost) |
| ActivationScan.BoxEnclosesHits | SurfaceRawInput/SurfaceActivationTriggerBase.cs:85-90 | every hit's mapped column and row lie within the box, and a box with a hit has min <= max on both axes |
| ActivationScan.BoxIsTight | SurfaceRawInput/SurfaceActivationTriggerBase.cs:72-90 | for coordinates within 0..int.MaxValue each side of the box is attained by some hit |
| ActivationScan.HookCalls | SurfaceRawInput/SurfaceActivationTriggerBase.cs:92-107 | one scan calls at most one hook: Got iff the trigger was inactive and something was found, Lost iff nothing was found |
| ActivationScan.ScanHitStep | SurfaceRawInput/SurfaceActivationTriggerBase.cs:85-98 | one more hit joins the box, makes the trigger active, and calls Got exactly when it was inactive |
| ActivationScan.ScanEnd | SurfaceRawInput/SurfaceActivationTriggerBase.cs:101-107 | after the last row all hits have been met, and the hooks so far plus Lost on an empty scan are the call's hooks |
| ActivationScan.GotNeverRepeats | SurfaceRawInput/SurfaceActivationTriggerBase.cs:92-107 | over any run of frames a Got is always followed by a Lost or ends the trace, and a run starting active begins with Lost if any hook fires |
| ActivationScan.LostOncePerEmptyFrame | SurfaceRawInput/SurfaceActivationTriggerBase.cs:103-107 | over any run of frames Lost fires exactly once per frame without a hit, whatever the state before |
| ActivationTrigger.SurfaceActivationTriggerBase.constructor | SurfaceRawInput/SurfaceActivationTriggerBase.cs:27-37 | ActivationIntensity defaults to 10 and the trigger starts inactive with no hooks called |
| ActivationTrigger.SurfaceActivationTriggerBase.OnRawImageCaptured | SurfaceRawInput/SurfaceActivationTriggerBase.cs:66-108 | with the element's bounds truncated and scaled: found iff the region has a hit, the box is BoxOf the hits, gotActivation becomes found, and the hooks called are HookCalls of the old state |
| ActivationTrigger.SurfaceActivationTriggerBase.Scan | SurfaceRawInput/SurfaceActivationTriggerBase.cs:72-107 | the two nested loops compute exactly AllHits' found flag and box and leave state and hooks as HookCalls says |
| ActivationTrigger.SurfaceActivationTriggerBase.ScanRow | SurfaceRawInput/SurfaceActivationTriggerBase.cs:80-100 | the inner loop meets exactly the row's hits, in order, keeping box, state and hooks in step with them |
| ActivationTrigger.SurfaceActivationTriggerBase.ScanSample | SurfaceRawInput/SurfaceActivationTriggerBase.cs:83-98 | one sample: an active one extends the box, sets the state and calls Got only on the first activation |
| ActivationTrigger.SurfaceActivationTriggerBase.Activate | SurfaceRawInput/SurfaceActivationTriggerBase.cs:92-97 | Got is called iff the trigger was inactive; the trigger is active afterwards |
| Geometry.Truncate | SurfaceRawInput/SurfaceActivationTriggerBase.cs:69 | each non-negative double component is cast to the integer at or below it, within 1 |
| Geometry.ScaleComponentIsTruncatedProduct | SurfaceRawInput/SurfaceRawImageCaptureBehavior.cs:119-130 | each scaled component is (int)(v * (metrics / appSize)) over exact reals, truncated toward zero (same code in SurfaceWindowRawImageCapture.cs at 581-592) |
| Geometry.ScaleIdentity | SurfaceRawInput/SurfaceWindowRawImageCapture.cs:581-592 | scaling with metrics equal to the app size returns the rectangle unchanged |
| Geometry.ScaleKeepsEmpty | SurfaceRawInput/SurfaceRawImageCaptureBehavior.cs:119-130 | an all-zero rectangle scales to an all-zero rectangle |
| Geometry.ScaleNonNegative | SurfaceRawInput/SurfaceRawImageCaptureBehavior.cs:124-127 | a non-negative component with non-negative metrics scales to a non-negative value that is the floor of the exact v * metrics / appSize |
| Geometry.ScaleMonotone | SurfaceRawInput/SurfaceRawImageCaptureBehavior.cs:124-127 | scaling is monotone in the component |
| Geometry.MapToLogicalIsFloor | SurfaceRawInput/SurfaceActivationTriggerBase.cs:85-86 | (4 * v) / 3 equals floor(v / 0.75) for every integer v |
| Geometry.MapToLogicalBounds | SurfaceRawInput/SurfaceActivationTriggerBase.cs:85-86 | for 0 <= v <= w the mapped v is at least v, at most v + v / 3, and at most the mapped w |
| Geometry.ScaleThenMapLosesAtMostOne | SurfaceRawInput/SurfaceActivationTriggerBase.cs:70-86 | scaling a UI coordinate onto the 768-wide sensor of a 1024-wide screen and mapping it back by 0.75 loses at most 1, and returns it exactly iff it is a multiple of 4 |
| Geometry.RoundTripCounterexample | SurfaceRawInput/SurfaceActivationTriggerBase.cs:70-86 | column 101 comes back as 100 |
| Clock.TimeSpanSeconds | SurfaceRawInput/SurfaceRawImageCaptureBehavior.cs:227-228 | the Seconds component lies strictly between -60 and 60 |
| Clock.PollDueIff | SurfaceRawInput/SurfaceRawImageCaptureBehavior.cs:227-228 | the throttle passes iff the span is non-negative and its whole seconds modulo 60 are at least 1 |
| Clock.PollDueExamples | SurfaceRawInput/SurfaceRawImageCaptureBehavior.cs:225-228 | half a second and exactly one minute fail the throttle; one second and 59 seconds pass it |
| Clock.PollDuePeriodic | SurfaceRawInput/SurfaceWindowRawImageCapture.cs:512-514 | the throttle's verdict repeats every minute |
| Clock.CapturesAreSpaced | SurfaceRawInput/SurfaceWindowRawImageCapture.cs:460-473 | over any series of contacts whose second clock read is not earlier than the first, each recorded capture time is more than 10 s after the previous one (the first more than 10 s after the last capture) |
| Clock.CapturesComeFromPlainContacts | SurfaceRawInput/SurfaceWindowRawImageCapture.cs:460-473 | every recorded capture time comes from a contact that is neither a finger nor a tag |
| Registry.AddedSpec | SurfaceRawInput/SurfaceRawImageCaptureBehavior.cs:103-109 | adding keeps the list duplicate-free, puts the listener in it, and changes nothing else; it appends only when absent |
| Registry.AddedIdempotent | SurfaceRawInput/SurfaceWindowRawImageCapture.cs:135-141 | adding twice is adding once |
| Registry.RemovedIsWithout | SurfaceRawInput/SurfaceRawImageCaptureBehavior.cs:111-117 | on a duplicate-free list, List.Remove equals dropping every occurrence, keeping the others' order |
| Registry.WithoutMembers | SurfaceRawInput/SurfaceRawImageCaptureBehavior.cs:111-117 | after removal the members are exactly the old members other than the removed one |
| Registry.WithoutNoDuplicates | SurfaceRawInput/SurfaceRawImageCaptureBehavior.cs:111-117 | removal keeps the list duplicate-free |
| Registry.RemovedSpec | SurfaceRawInput/SurfaceWindowRawImageCapture.cs:229-235 | removal leaves the behavior absent, keeps every other one in its order, and is a no-op when it is absent |
| Registry.RemoveUndoesAdd | SurfaceRawInput/SurfaceRawImageCaptureBehavior.cs:103-117 | removing a listener just added to a list without it restores the list |
| Registry.FanOut | SurfaceRawInput/SurfaceRawImageCaptureBehavior.cs:232-235 | the i-th call goes to the i-th listener, with the same buffer, one call per listener |
| Registry.FanOutOncePerListener | SurfaceRawInput/SurfaceWindowRawImageCapture.cs:516-519 | each registered listener receives the frame exactly once, and nobody else receives it |
| Imaging.GrayscalePaletteIsTwoLevel | SurfaceRawInput/SurfaceWindowRawImageCapture.cs:292-308 | the rewritten palette has 256 entries: entry 0 white, entries 1..255 all the same non-white green, which is not a gray |
| Imaging.Convert8bppToGrayscale | SurfaceRawInput/SurfaceProcessRawImageBehavior.cs:196-212 | all 256 entries of the palette array are overwritten in place with that palette |
| Imaging.DecimalString | SurfaceRawInput/SurfaceProcessRawImageBehavior.cs:163 | a tick count prints as a non-empty string of decimal digits |
| Imaging.ParseDecimalString | SurfaceRawInput/SurfaceProcessRawImageBehavior.cs:163 | reading the digits back gives the tick count |
| Imaging.SavePathNamesTheTime | SurfaceRawInput/SurfaceProcessRawImageBehavior.cs:161-165 | a saved file lies in ImagePath, ends in .jpg, and different ticks give different names |
| Imaging.RenderCapture | SurfaceRawInput/SurfaceProcessRawImageBehavior.cs:129-165 | the bitmap work asks GDI+ for exactly the ProcessingOps of the frame and leaves the palette rewritten |
| Imaging.ProcessingOpsSpec | SurfaceRawInput/SurfaceProcessRawImageBehavior.cs:141-165 | a capture wraps then re-palettes the frame, crops iff the scaled rectangle is not all zero, always encodes, and saves iff a path is given |
| RawImageCapture.SurfaceRawImageCaptureBehavior.constructor | SurfaceRawInput/SurfaceRawImageCaptureBehavior.cs:28-59 | no listeners, no image, LastNormalizedImage null, lastBehaviorPollAt at creation time, and Valid() |
| RawImageCapture.SurfaceRawImageCaptureBehavior.AddRawImageListener | SurfaceRawInput/SurfaceRawImageCaptureBehavior.cs:103-109 | the list becomes Added(old, listener) and holds the listener; Valid() (no duplicates) is kept |
| RawImageCapture.SurfaceRawImageCaptureBehavior.RemoveRawImageListener | SurfaceRawInput/SurfaceRawImageCaptureBehavior.cs:111-117 | the list becomes Removed(old, listener) when present, is unchanged otherwise, and no longer holds the listener; Valid() (no duplicates) is kept |
| RawImageCapture.SurfaceRawImageCaptureBehavior.GetWindowSizeOnLoaded | SurfaceRawInput/SurfaceRawImageCaptureBehavior.cs:183-188 | appSize is the window's actual size, each dimension truncated |
| RawImageCapture.SurfaceRawImageCaptureBehavior.OnContactTargetFrameReceived | SurfaceRawInput/SurfaceRawImageCaptureBehavior.cs:195-238 | imageAvailable is the SDK's outcome; when available and the throttle passes, LastNormalizedImage becomes the buffer holding the frame, the poll time is reset and every listener receives the frame once in list order; once LastNormalizedImage is set, every captured frame shows in it even when the throttle blocks the dispatch; a failed capture changes none of these |
| RawImageCapture.SurfaceRawImageCaptureBehavior.Dispatch | SurfaceRawInput/SurfaceRawImageCaptureBehavior.cs:232-235 | the foreach makes exactly the FanOut calls |
| WindowCapture.PropertyTransitionSpec | SurfaceRawInput/SurfaceWindowRawImageCapture.cs:529-555 | listening starts iff the value goes false to true, stops iff it goes true to false, nothing happens when it is unchanged, and listening ends equal to the new value |
| WindowCapture.ListeningFollowsProperty | SurfaceRawInput/SurfaceWindowRawImageCapture.cs:529-555 | through any series of IsEnabled changes, listening ends equal to the last value set |
| WindowCapture.SurfaceWindowRawImageCapture.constructor | SurfaceRawInput/SurfaceWindowRawImageCapture.cs:85-121 | no behaviors, no image, no subscriptions, lastContactAt at tick 0, lastBehaviorPollAt at load time |
| WindowCapture.SurfaceWindowRawImageCapture.AddRawImageCaptureBehavior | SurfaceRawInput/SurfaceWindowRawImageCapture.cs:135-141 | the list becomes Added(old, behavior) and holds the behavior; Valid() (no duplicates) is kept |
| WindowCapture.SurfaceWindowRawImageCapture.RemoveRawImageCaptureBehavior | SurfaceRawInput/SurfaceWindowRawImageCapture.cs:229-235 | the list becomes Removed(old, behavior) when present, is unchanged otherwise, and no longer holds the behavior; Valid() (no duplicates) is kept |
| WindowCapture.SurfaceWindowRawImageCapture.DisableRawImage | SurfaceRawInput/SurfaceWindowRawImageCapture.cs:342-346 | images are disabled and one frame subscription is removed |
| WindowCapture.SurfaceWindowRawImageCapture.EnableRawImage | SurfaceRawInput/SurfaceWindowRawImageCapture.cs:352-356 | images are enabled and one frame subscription is added |
| WindowCapture.SurfaceWindowRawImageCapture.StartListeningForRawInput | SurfaceRawInput/SurfaceWindowRawImageCapture.cs:612-623 | a new contact target has images enabled and exactly one frame subscription |
| WindowCapture.SurfaceWindowRawImageCapture.StopListeningForRawInput | SurfaceRawInput/SurfaceWindowRawImageCapture.cs:643-647 | as DisableRawImage on the current target |
| WindowCapture.SurfaceWindowRawImageCapture.StartListeningForContactDown | SurfaceRawInput/SurfaceWindowRawImageCapture.cs:598-606 | one ContactDown handler is added unless UseExplicitCapture is set |
| WindowCapture.SurfaceWindowRawImageCapture.StopListeningForContactDown | SurfaceRawInput/SurfaceWindowRawImageCapture.cs:629-637 | one ContactDown handler is removed unless UseExplicitCapture is set |
| WindowCapture.SurfaceWindowRawImageCapture.OnIsEnabledPropertyChanged | SurfaceRawInput/SurfaceWindowRawImageCapture.cs:529-555 | on false to true, raw input and contact-down listening start; on true to false, both stop; otherwise nothing changes |
| WindowCapture.SurfaceWindowRawImageCapture.OnWindowLoaded | SurfaceRawInput/SurfaceWindowRawImageCapture.cs:542-548 | appSize is the window's actual size, each dimension truncated |
| WindowCapture.SurfaceWindowRawImageCapture.OnUseExplicitCapturePropertyChanged | SurfaceRawInput/SurfaceWindowRawImageCapture.cs:562-579 | the property takes the new value; only a true to false change touches the handlers, removing one |
| WindowCapture.SurfaceWindowRawImageCapture.CaptureRawImageAsync | SurfaceRawInput/SurfaceWindowRawImageCapture.cs:164-192 | lastContactAt becomes now and one capture is scheduled with the window's SaveTo, the crop and the callback |
| WindowCapture.SurfaceWindowRawImageCapture.OnContactDown | SurfaceRawInput/SurfaceWindowRawImageCapture.cs:460-473 | a capture of the whole image with no callback is scheduled iff, at the handler's first clock read, more than 10 s passed since lastContactAt and the contact is neither finger nor tag; lastContactAt then becomes the second clock read, taken in CaptureRawImageAsync; otherwise nothing changes |
| WindowCapture.SurfaceWindowRawImageCapture.OnContactTargetFrameReceived | SurfaceRawInput/SurfaceWindowRawImageCapture.cs:480-522 | imageAvailable is the SDK's outcome; when available and the throttle passes, the poll time is reset and every behavior receives the frame once in list order; otherwise neither changes |
| WindowCapture.SurfaceWindowRawImageCapture.NotifyRawImageCaptured | SurfaceRawInput/SurfaceWindowRawImageCapture.cs:367-453 | without an image: returns None and changes nothing; with one: the ProcessingOps of the frame (cropped to the scaled rectangle unless all zero, saved under SaveTo\ticks.jpg when SaveTo is set), the palette rewritten, raw input re-enabled, and off the dispatcher thread the event raised and its arguments returned (file name when saved, JPEG bytes otherwise) |
| WindowCapture.SurfaceWindowRawImageCapture.Dispatch | SurfaceRawInput/SurfaceWindowRawImageCapture.cs:516-519 | the foreach makes exactly the FanOut calls |
| ProcessImage.SurfaceProcessRawImageBehavior.constructor | SurfaceRawInput/SurfaceProcessRawImageBehavior.cs:28-56 | not processing, no result yet, PreprocessImage true, ImagePath null |
| ProcessImage.SurfaceProcessRawImageBehavior.OnRawImageCaptured | SurfaceRawInput/SurfaceProcessRawImageBehavior.cs:120-170 | while processing, a call changes nothing; otherwise the GDI+ requests are the ProcessingOps with CropTo truncated and scaled and ImagePath\ticks.jpg as the save path, LastProcessedImage becomes the encoded bytes and the flag ends cleared |

## Left out

- WPF plumbing is not part of this model:
  - dependency-property registration, getters and setters;
  - routed events and their handlers;
  - Behavior/TriggerBase attach and detach, including `OnAttached`/`OnDetaching` registering the processing behavior as a listener;
  - `InvokeActions`, and the Got/Lost trigger subclasses that only forward the two hooks to it;
  - `GetTotalOffset`'s visual-tree walk, whose result is the `bounds` input.
- Surface SDK calls are not modelled: `ContactTarget`, `EnableInput`, `EnableImage`/`DisableImage`, `TryGetRawImage`/`UpdateRawImage`. Their outcome (success and the buffer, the metrics) is an input. Subscriptions are counters on the current target.
- On a failed SDK call, the model keeps the old buffer and metrics. What `TryGetRawImage` writes to its out parameters on failure is not modelled.
- GDI+ is not modelled: bitmap construction, `GCHandle` pinning, `CropImage` with its float resolution factors, JPEG encoding, `MemoryStream`, file writes. Each is a recorded request, and the encoded bytes are an input.
- Concurrency is not modelled: `BackgroundWorker`, the 4 s sleep, `lock (syncRoot)`, `dispatcher.Invoke`/`CheckAccess` (an input flag), and the callback invocation in `CaptureRawImageAsync`'s worker. The model also does not capture that `OnContactDown` passes a null callback, which that worker would invoke.
- Both copies of `OnContactTargetFrameReceived` read `DateTime.Now` twice, once for the throttle test and once for the new poll time. The model takes the same instant for both reads. (`OnContactDown` also reads the clock twice, once for the 10 s test and once in `CaptureRawImageAsync`. The model keeps those two reads apart.)
- Static fields are shared by every instance in C#. The model has exactly one object per class, so the statics are per-object fields: `rawImageListeners`, `appSize` and `normalizedMetrics` of the capture behavior, and all of the window capture's fields. A second construction does not clear the listener list in C#, but the model's constructor describes only the first instance.
- RawImageCapture.SurfaceRawImageCaptureBehavior.OnContactTargetFrameReceived: the buffer is modelled by its contents, not as an array. When `UpdateRawImage` fails, it is taken to leave the buffer unchanged. Listeners receive the frame's contents at the time of the call, so a listener that kept the array would not see it change later.
- Exceptions are not modelled. In particular, an exception inside `SurfaceProcessRawImageBehavior.OnRawImageCaptured` would leave `isProcessingImage` set, which is the only way the guard can block a call.
- Geometry.ScaleComponentIsTruncatedProduct: scaling is over exact rationals, while the C# computes in `double`. The double quotient may round so that the truncated result is off by one. A zero `appSize` (an infinite ratio) is excluded by a precondition.
- ActivationTrigger.SurfaceActivationTriggerBase.OnRawImageCaptured: does not model 32-bit overflow of `row * 768 + col`, or the indexer's exception. Every index the scan reads must lie inside the frame (`InFrame`).
- ActivationScan.BoxIsTight: the box starts at `int.MaxValue`. Tightness is stated for mapped coordinates within 0..int.MaxValue; the `floor` cast's overflow is not modelled.
- The `PreprocessImage` property and the `preprocessImage` parameter are carried along but never read, as in the code.
- `CropTo` is registered with a `null` default although `Rect` is a struct. The model starts from `Rect`'s default (all zero).
- `RawImageCapturedEventArgs` keeps only its payload (file name or bytes). Its routed-event source is not modelled.
