/** Specification of the intensity scan in SurfaceActivationTriggerBase.OnRawImageCaptured:
    which samples of the frame it examines and in which order, which of them count as
    active, the bounding box it keeps over them, and the Got/Lost hooks it calls. */
module ActivationScan {
  import opened Prelude
  import opened Geometry

  /** Row stride the scan uses to index the frame, whatever the image metrics say. */
  const Stride: int := 768

  /** Default of the ActivationIntensity dependency property. */
  const DefaultActivationIntensity: int := 10

  datatype Position = Position(row: int, col: int)

  /** The scan visits rows region.y, region.y + 2, ... below region.y + height and, in each,
      columns region.x, region.x + 2, ... below region.x + width: parity is relative to the
      region's origin. */
  predicate Examined(region: Rect, row: int, col: int)
  {
    && region.y <= row < region.y + region.height
    && region.x <= col < region.x + region.width
    && (row - region.y) % 2 == 0
    && (col - region.x) % 2 == 0
  }

  /** The position of sample (row, col) in the frame, rows being Stride bytes apart. */
  function Index(row: int, col: int): int
  {
    row * Stride + col
  }

  /** Every sample the scan reads lies inside the frame (the C# indexer would throw otherwise). */
  ghost predicate InFrame(frameLength: int, region: Rect)
  {
    forall row, col :: Examined(region, row, col) ==> 0 <= Index(row, col) < frameLength
  }

  /** A sample counts when it is strictly greater than the activation intensity. */
  predicate IsActive(image: seq<byte>, threshold: int, p: Position)
    requires 0 <= Index(p.row, p.col) < |image|
  {
    image[Index(p.row, p.col)] as int > threshold
  }

  /** The active samples of one examined row, from column `col` on, left to right. */
  function RowHits(image: seq<byte>, threshold: int, region: Rect, row: int, col: int): seq<Position>
    requires InFrame(|image|, region)
    requires region.y <= row < region.y + region.height && (row - region.y) % 2 == 0
    requires region.x <= col && (col - region.x) % 2 == 0
    decreases region.x + region.width - col
  {
    if col >= region.x + region.width then []
    else
      assert Examined(region, row, col);
      (if IsActive(image, threshold, Position(row, col)) then [Position(row, col)] else [])
      + RowHits(image, threshold, region, row, col + 2)
  }

  /** The active samples from row `row` on, in scan (row-major) order. */
  function Hits(image: seq<byte>, threshold: int, region: Rect, row: int): seq<Position>
    requires InFrame(|image|, region)
    requires region.y <= row && (row - region.y) % 2 == 0
    decreases region.y + region.height - row
  {
    if row >= region.y + region.height then []
    else RowHits(image, threshold, region, row, region.x) + Hits(image, threshold, region, row + 2)
  }

  /** Every active sample of the region, in the order the scan meets them. */
  function AllHits(image: seq<byte>, threshold: int, region: Rect): seq<Position>
    requires InFrame(|image|, region)
  {
    Hits(image, threshold, region, region.y)
  }

  lemma {:induction false} RowHitsMembers(image: seq<byte>, threshold: int, region: Rect, row: int, col: int)
    requires InFrame(|image|, region)
    requires region.y <= row < region.y + region.height && (row - region.y) % 2 == 0
    requires region.x <= col && (col - region.x) % 2 == 0
    ensures forall p :: p in RowHits(image, threshold, region, row, col) <==>
      p.row == row && col <= p.col && Examined(region, p.row, p.col) && IsActive(image, threshold, p)
    decreases region.x + region.width - col
  {
    if col < region.x + region.width {
      RowHitsMembers(image, threshold, region, row, col + 2);
    }
  }

  lemma {:induction false} HitsMembers(image: seq<byte>, threshold: int, region: Rect, row: int)
    requires InFrame(|image|, region)
    requires region.y <= row && (row - region.y) % 2 == 0
    ensures forall p :: p in Hits(image, threshold, region, row) <==>
      row <= p.row && Examined(region, p.row, p.col) && IsActive(image, threshold, p)
    decreases region.y + region.height - row
  {
    if row < region.y + region.height {
      RowHitsMembers(image, threshold, region, row, region.x);
      HitsMembers(image, threshold, region, row + 2);
    }
  }

  /** One step of a row: the sample at `col` is examined, and it leads the row's hits iff it is active. */
  lemma RowHitsStep(image: seq<byte>, threshold: int, region: Rect, row: int, col: int)
    requires InFrame(|image|, region)
    requires region.y <= row < region.y + region.height && (row - region.y) % 2 == 0
    requires region.x <= col < region.x + region.width && (col - region.x) % 2 == 0
    ensures Examined(region, row, col) && 0 <= Index(row, col) < |image|
    ensures RowHits(image, threshold, region, row, col)
      == (if IsActive(image, threshold, Position(row, col)) then [Position(row, col)] else [])
         + RowHits(image, threshold, region, row, col + 2)
  {
  }

  /** The scan finds exactly the examined samples above the threshold. */
  lemma AllHitsExact(image: seq<byte>, threshold: int, region: Rect)
    requires InFrame(|image|, region)
    ensures forall p :: p in AllHits(image, threshold, region) <==>
      Examined(region, p.row, p.col) && IsActive(image, threshold, p)
  {
    HitsMembers(image, threshold, region, region.y);
  }

  /** Row-major order. */
  predicate Before(p: Position, q: Position)
  {
    p.row < q.row || (p.row == q.row && p.col < q.col)
  }

  predicate InScanOrder(s: seq<Position>)
  {
    forall i, j :: 0 <= i < j < |s| ==> Before(s[i], s[j])
  }

  lemma {:induction false} RowHitsInOrder(image: seq<byte>, threshold: int, region: Rect, row: int, col: int)
    requires InFrame(|image|, region)
    requires region.y <= row < region.y + region.height && (row - region.y) % 2 == 0
    requires region.x <= col && (col - region.x) % 2 == 0
    ensures InScanOrder(RowHits(image, threshold, region, row, col))
    decreases region.x + region.width - col
  {
    if col < region.x + region.width {
      RowHitsInOrder(image, threshold, region, row, col + 2);
      RowHitsMembers(image, threshold, region, row, col + 2);
      var rest := RowHits(image, threshold, region, row, col + 2);
      var s := RowHits(image, threshold, region, row, col);
      if IsActive(image, threshold, Position(row, col)) {
        assert s == [Position(row, col)] + rest;
        ConcatInOrder([Position(row, col)], rest);
      }
    }
  }

  lemma {:induction false} HitsInOrder(image: seq<byte>, threshold: int, region: Rect, row: int)
    requires InFrame(|image|, region)
    requires region.y <= row && (row - region.y) % 2 == 0
    ensures InScanOrder(Hits(image, threshold, region, row))
    decreases region.y + region.height - row
  {
    if row < region.y + region.height {
      var a := RowHits(image, threshold, region, row, region.x);
      var b := Hits(image, threshold, region, row + 2);
      RowHitsInOrder(image, threshold, region, row, region.x);
      RowHitsMembers(image, threshold, region, row, region.x);
      HitsInOrder(image, threshold, region, row + 2);
      HitsMembers(image, threshold, region, row + 2);
      ConcatInOrder(a, b);
    }
  }

  /** Two runs in scan order, the first wholly before the second, concatenate in scan order. */
  lemma ConcatInOrder(a: seq<Position>, b: seq<Position>)
    requires InScanOrder(a) && InScanOrder(b)
    requires forall p, q :: p in a && q in b ==> Before(p, q)
    ensures InScanOrder(a + b)
  {
    var s := a + b;
    forall i, j | 0 <= i < j < |s| ensures Before(s[i], s[j]) {
      if j < |a| {
        assert s[i] == a[i] && s[j] == a[j];
      } else if i >= |a| {
        assert s[i] == b[i - |a|] && s[j] == b[j - |a|];
      } else {
        assert s[i] == a[i] && a[i] in a;
        assert s[j] == b[j - |a|] && b[j - |a|] in b;
      }
    }
  }

  /** One step of the rows: a row inside the region contributes its hits before the later rows'. */
  lemma HitsStep(image: seq<byte>, threshold: int, region: Rect, row: int)
    requires InFrame(|image|, region)
    requires region.y <= row < region.y + region.height && (row - region.y) % 2 == 0
    ensures Hits(image, threshold, region, row)
      == RowHits(image, threshold, region, row, region.x) + Hits(image, threshold, region, row + 2)
  {
  }

  /** The scan meets active samples in strict row-major order; so the first one it meets
      comes before every other active examined sample. */
  lemma FirstHitIsEarliest(image: seq<byte>, threshold: int, region: Rect)
    requires InFrame(|image|, region)
    ensures InScanOrder(AllHits(image, threshold, region))
    ensures var hits := AllHits(image, threshold, region);
      hits != [] ==> forall p: Position :: Examined(region, p.row, p.col) && IsActive(image, threshold, p) ==>
        p == hits[0] || Before(hits[0], p)
  {
    var hits := AllHits(image, threshold, region);
    HitsInOrder(image, threshold, region, region.y);
    AllHitsExact(image, threshold, region);
    if hits != [] {
      forall p: Position | Examined(region, p.row, p.col) && IsActive(image, threshold, p)
        ensures p == hits[0] || Before(hits[0], p)
      {
        var k :| 0 <= k < |hits| && hits[k] == p;
        if k > 0 {
          assert Before(hits[0], hits[k]);
        }
      }
    }
  }

  /** An empty region (no width or no height after scaling) examines nothing and finds nothing. */
  lemma EmptyRegionFindsNothing(image: seq<byte>, threshold: int, region: Rect)
    requires InFrame(|image|, region)
    requires region.width <= 0 || region.height <= 0
    ensures AllHits(image, threshold, region) == []
  {
    if region.width <= 0 {
      NarrowRegionFindsNothing(image, threshold, region, region.y);
    }
  }

  lemma {:induction false} NarrowRegionFindsNothing(image: seq<byte>, threshold: int, region: Rect, row: int)
    requires InFrame(|image|, region)
    requires region.y <= row && (row - region.y) % 2 == 0
    requires region.width <= 0
    ensures Hits(image, threshold, region, row) == []
    decreases region.y + region.height - row
  {
    if row < region.y + region.height {
      NarrowRegionFindsNothing(image, threshold, region, row + 2);
    }
  }

  /** The scan's local minX, minY, maxX, maxY over mapped coordinates. */
  datatype Box = Box(minX: int, minY: int, maxX: int, maxY: int)

  /** The initial values: minX = minY = int.MaxValue, maxX = maxY = 0. */
  const InitialBox: Box := Box(IntMax, IntMax, 0, 0)

  function Min(a: int, b: int): int { if a <= b then a else b }
  function Max(a: int, b: int): int { if a >= b then a else b }

  /** The box after one more active sample: its row and column are mapped by
      floor(v / 0.75) and folded into the running minima and maxima. */
  function Include(b: Box, p: Position): Box
  {
    var aRow := MapToLogical(p.row);
    var aCol := MapToLogical(p.col);
    Box(Min(aCol, b.minX), Min(aRow, b.minY), Max(aCol, b.maxX), Max(aRow, b.maxY))
  }

  /** The box after the given active samples, in order. */
  function BoxOf(hits: seq<Position>): Box
  {
    if hits == [] then InitialBox else Include(BoxOf(hits[..|hits| - 1]), hits[|hits| - 1])
  }

  lemma BoxOfSnoc(hits: seq<Position>, p: Position)
    ensures BoxOf(hits + [p]) == Include(BoxOf(hits), p)
  {
    assert (hits + [p])[..|hits|] == hits;
  }

  predicate Encloses(b: Box, p: Position)
  {
    b.minX <= MapToLogical(p.col) <= b.maxX && b.minY <= MapToLogical(p.row) <= b.maxY
  }

  /** Every active sample's mapped row and column lie in the box, so a non-empty box is
      well formed (min <= max on both axes). */
  lemma {:induction false} BoxEnclosesHits(hits: seq<Position>)
    ensures forall p :: p in hits ==> Encloses(BoxOf(hits), p)
    ensures hits != [] ==> BoxOf(hits).minX <= BoxOf(hits).maxX && BoxOf(hits).minY <= BoxOf(hits).maxY
    decreases |hits|
  {
    if hits != [] {
      var init := hits[..|hits| - 1];
      var last := hits[|hits| - 1];
      BoxEnclosesHits(init);
      assert BoxOf(hits) == Include(BoxOf(init), last);
      forall p | p in hits ensures Encloses(BoxOf(hits), p) {
        if p != last {
          var k :| 0 <= k < |hits| && hits[k] == p;
          assert init[k] == p && p in init;
          assert Encloses(BoxOf(init), p);
        }
      }
      assert Encloses(BoxOf(hits), last);
    }
  }

  /** When the mapped coordinates are within 0..int.MaxValue (as on any real frame), each
      side of the box is attained by some active sample: the box is the tightest one. */
  lemma {:induction false} BoxIsTight(hits: seq<Position>)
    requires hits != []
    requires forall p :: p in hits ==> 0 <= MapToLogical(p.row) <= IntMax && 0 <= MapToLogical(p.col) <= IntMax
    ensures exists p :: p in hits && MapToLogical(p.col) == BoxOf(hits).minX
    ensures exists p :: p in hits && MapToLogical(p.col) == BoxOf(hits).maxX
    ensures exists p :: p in hits && MapToLogical(p.row) == BoxOf(hits).minY
    ensures exists p :: p in hits && MapToLogical(p.row) == BoxOf(hits).maxY
    decreases |hits|
  {
    var last := hits[|hits| - 1];
    var init := hits[..|hits| - 1];
    assert last in hits;
    var lx, ly := MapToLogical(last.col), MapToLogical(last.row);
    var b := BoxOf(hits);
    assert b == Include(BoxOf(init), last);
    if init == [] {
      assert b == Box(lx, ly, lx, ly);
    } else {
      forall p | p in init ensures p in hits {
        var k :| 0 <= k < |init| && init[k] == p;
        assert hits[k] == p;
      }
      BoxIsTight(init);
      var bi := BoxOf(init);
      var p1 :| p1 in init && MapToLogical(p1.col) == bi.minX;
      var p2 :| p2 in init && MapToLogical(p2.col) == bi.maxX;
      var p3 :| p3 in init && MapToLogical(p3.row) == bi.minY;
      var p4 :| p4 in init && MapToLogical(p4.row) == bi.maxY;
      assert p1 in hits && p2 in hits && p3 in hits && p4 in hits;
      if lx <= bi.minX { assert MapToLogical(last.col) == b.minX; } else { assert MapToLogical(p1.col) == b.minX; }
      if lx >= bi.maxX { assert MapToLogical(last.col) == b.maxX; } else { assert MapToLogical(p2.col) == b.maxX; }
      if ly <= bi.minY { assert MapToLogical(last.row) == b.minY; } else { assert MapToLogical(p3.row) == b.minY; }
      if ly >= bi.maxY { assert MapToLogical(last.row) == b.maxY; } else { assert MapToLogical(p4.row) == b.maxY; }
    }
  }

  /** A call of one of the two virtual hooks, recorded with the frame it is given. The Got
      hook is called in the middle of the scan; `at` is the sample the scan was at. */
  datatype Hook = GotActivation(image: seq<byte>, at: Position) | LostActivation(image: seq<byte>)

  /** The hooks one call makes: OnGotActivation at the first active sample when the trigger
      was not already active, OnLostActivation whenever nothing is found. */
  function HookCalls(wasActive: bool, image: seq<byte>, hits: seq<Position>): (h: seq<Hook>)
    ensures |h| <= 1
    ensures (exists at :: GotActivation(image, at) in h) <==> !wasActive && hits != []
    ensures LostActivation(image) in h <==> hits == []
  {
    if hits == [] then [LostActivation(image)]
    else if wasActive then []
    else [GotActivation(image, hits[0])]
  }

  /** The hooks a scan has made part-way through, after meeting the active samples `scanned`:
      the Got hook at the first of them, if the trigger was not already active. */
  function GotSoFar(wasActive: bool, image: seq<byte>, scanned: seq<Position>): seq<Hook>
  {
    if scanned != [] && !wasActive then [GotActivation(image, scanned[0])] else []
  }

  /** The scan's state after meeting the active samples `scanned`, on a call entered with
      the trigger's state `wasActive` and hook trace `hooks0`: the found flag, the running
      box, the trigger's state `active` and its hook trace `hooks`. */
  predicate ScanTracks(image: seq<byte>, scanned: seq<Position>, found: bool, box: Box, active: bool, hooks: seq<Hook>,
                       wasActive: bool, hooks0: seq<Hook>)
  {
    && found == (scanned != [])
    && box == BoxOf(scanned)
    && active == (wasActive || found)
    && hooks == hooks0 + GotSoFar(wasActive, image, scanned)
  }

  /** One more active sample `p`: it joins the box, the trigger becomes active and, when it
      was not, the Got hook is called at `p`. */
  lemma ScanHitStep(image: seq<byte>, scanned: seq<Position>, found: bool, box: Box, active: bool, hooks: seq<Hook>,
                    wasActive: bool, hooks0: seq<Hook>, p: Position)
    requires ScanTracks(image, scanned, found, box, active, hooks, wasActive, hooks0)
    ensures ScanTracks(image, scanned + [p], true, Include(box, p), true,
                       hooks + (if active then [] else [GotActivation(image, p)]), wasActive, hooks0)
  {
    BoxOfSnoc(scanned, p);
    GotSoFarStep(scanned, p, wasActive, image, hooks0, hooks);
  }

  /** Where the scan stands once every row is done: every active sample has been met, and
      the hooks so far plus the Lost hook of an empty scan are HookCalls. */
  lemma ScanEnd(image: seq<byte>, threshold: int, region: Rect, row: int, scanned: seq<Position>,
                found: bool, box: Box, active: bool, hooks: seq<Hook>, wasActive: bool, hooks0: seq<Hook>)
    requires InFrame(|image|, region)
    requires region.y + region.height <= row && region.y <= row && (row - region.y) % 2 == 0
    requires scanned + Hits(image, threshold, region, row) == AllHits(image, threshold, region)
    requires ScanTracks(image, scanned, found, box, active, hooks, wasActive, hooks0)
    ensures scanned == AllHits(image, threshold, region)
    ensures found == (scanned != []) && box == BoxOf(scanned)
    ensures found ==> active && hooks == hooks0 + HookCalls(wasActive, image, scanned)
    ensures !found ==> hooks + [LostActivation(image)] == hooks0 + HookCalls(wasActive, image, scanned)
  {
    assert Hits(image, threshold, region, row) == [];
    assert scanned + [] == scanned;
  }

  lemma GotSoFarStep(scanned: seq<Position>, p: Position, wasActive: bool, image: seq<byte>,
                     hooks0: seq<Hook>, hooks: seq<Hook>)
    requires hooks == hooks0 + GotSoFar(wasActive, image, scanned)
    ensures hooks + (if wasActive || scanned != [] then [] else [GotActivation(image, p)])
      == hooks0 + GotSoFar(wasActive, image, scanned + [p])
  {
    if !wasActive && scanned == [] {
      assert scanned + [p] == [p];
      assert hooks == hooks0;
    } else {
      if scanned != [] {
        assert (scanned + [p])[0] == scanned[0];
      }
      assert GotSoFar(wasActive, image, scanned + [p]) == GotSoFar(wasActive, image, scanned);
      assert hooks + [] == hooks;
    }
  }

  /** One frame as the trigger sees it: the image and its active samples. */
  datatype ScannedFrame = ScannedFrame(image: seq<byte>, hits: seq<Position>)

  /** The hooks called over a run of frames, starting in state `wasActive`; after each
      frame the state is whether that frame had an active sample. */
  function RunHooks(wasActive: bool, frames: seq<ScannedFrame>): seq<Hook>
    decreases |frames|
  {
    if frames == [] then []
    else HookCalls(wasActive, frames[0].image, frames[0].hits) + RunHooks(frames[0].hits != [], frames[1..])
  }

  /** Every Got hook in a trace is immediately followed by a Lost hook or ends the trace. */
  predicate LostFollowsGot(t: seq<Hook>)
  {
    forall i :: 0 <= i < |t| - 1 && t[i].GotActivation? ==> t[i + 1].LostActivation?
  }

  /** Got is edge-triggered, Lost is not: two Got hooks are never adjacent (a Lost always
      comes between them), and a run that starts active begins with Lost if anything fires. */
  lemma {:induction false} GotNeverRepeats(wasActive: bool, frames: seq<ScannedFrame>)
    ensures LostFollowsGot(RunHooks(wasActive, frames))
    ensures wasActive && RunHooks(wasActive, frames) != [] ==> RunHooks(wasActive, frames)[0].LostActivation?
    decreases |frames|
  {
    if frames != [] {
      var f := frames[0];
      GotNeverRepeats(f.hits != [], frames[1..]);
      var rest := RunHooks(f.hits != [], frames[1..]);
      var t := RunHooks(wasActive, frames);
      var h := HookCalls(wasActive, f.image, f.hits);
      assert t == h + rest;
      forall i | 0 <= i < |t| - 1 ensures t[i].GotActivation? ==> t[i + 1].LostActivation? {
        if i >= |h| {
          assert t[i] == rest[i - |h|] && t[i + 1] == rest[i + 1 - |h|];
        } else if f.hits == [] {
          assert t[i] == LostActivation(f.image);
        } else {
          assert t[i + 1] == rest[0];
        }
      }
    }
  }

  /** The number of Lost hooks in a trace. */
  function LostCount(t: seq<Hook>): nat
  {
    if t == [] then 0 else (if t[0].LostActivation? then 1 else 0) + LostCount(t[1..])
  }

  /** The number of frames without an active sample. */
  function EmptyFrameCount(frames: seq<ScannedFrame>): nat
  {
    if frames == [] then 0 else (if frames[0].hits == [] then 1 else 0) + EmptyFrameCount(frames[1..])
  }

  lemma {:induction false} LostCountAppend(a: seq<Hook>, b: seq<Hook>)
    ensures LostCount(a + b) == LostCount(a) + LostCount(b)
    decreases |a|
  {
    if a != [] {
      assert (a + b)[1..] == a[1..] + b;
      LostCountAppend(a[1..], b);
    } else {
      assert a + b == b;
    }
  }

  /** Lost is level-triggered: it fires once for every frame with no active sample,
      whatever the state before. */
  lemma {:induction false} LostOncePerEmptyFrame(wasActive: bool, frames: seq<ScannedFrame>)
    ensures LostCount(RunHooks(wasActive, frames)) == EmptyFrameCount(frames)
    decreases |frames|
  {
    if frames != [] {
      var f := frames[0];
      LostOncePerEmptyFrame(f.hits != [], frames[1..]);
      LostCountAppend(HookCalls(wasActive, f.image, f.hits), RunHooks(f.hits != [], frames[1..]));
    }
  }
}
