/** SurfaceActivationTriggerBase: the trigger that scans every captured frame for samples
    brighter than its ActivationIntensity and calls its Got/Lost hooks. The hooks are
    recorded in `hooks`; the subclasses that turn them into InvokeActions are WPF plumbing. */
module ActivationTrigger {
  import opened Prelude
  import opened Geometry
  import opened ActivationScan

  class SurfaceActivationTriggerBase {
    /** The ActivationIntensity dependency property. */
    var activationIntensity: int
    /** Whether the last scan that found something has not yet been followed by one that found nothing. */
    var gotActivation: bool
    /** Every OnGotActivation / OnLostActivation call made so far, in order. */
    var hooks: seq<Hook>

    constructor()
      ensures activationIntensity == DefaultActivationIntensity
      ensures !gotActivation && hooks == []
    {
      activationIntensity := DefaultActivationIntensity;
      gotActivation := false;
      hooks := [];
    }

    /** OnRawImageCaptured. `bounds` is the element's total offset and actual size, which
        is truncated and scaled into sensor coordinates with the capture behavior's
        `metrics` and `appSize`. The scan's `found` flag and its local box are returned
        so that the contract can state them. */
    method OnRawImageCaptured(rawImage: seq<byte>, bounds: RectF, metrics: Size, appSize: Size)
      returns (found: bool, box: Box)
      requires PositiveSize(appSize)
      requires InFrame(|rawImage|, ScaleBoundingBox(Truncate(bounds), metrics, appSize))
      modifies this`gotActivation, this`hooks
      ensures var hits := AllHits(rawImage, activationIntensity, ScaleBoundingBox(Truncate(bounds), metrics, appSize));
        && found == (hits != [])
        && box == BoxOf(hits)
        && gotActivation == found
        && hooks == old(hooks) + HookCalls(old(gotActivation), rawImage, hits)
    {
      var region := ScaleBoundingBox(Truncate(bounds), metrics, appSize);
      found, box := Scan(rawImage, region);
    }

    /** The outer loop of OnRawImageCaptured over the rows of the scaled region, and the
        Lost hook after it. The running minX, minY, maxX, maxY are kept in `box`. */
    method Scan(rawImage: seq<byte>, region: Rect) returns (found: bool, box: Box)
      requires InFrame(|rawImage|, region)
      modifies this`gotActivation, this`hooks
      ensures var hits := AllHits(rawImage, activationIntensity, region);
        && found == (hits != [])
        && box == BoxOf(hits)
        && gotActivation == found
        && hooks == old(hooks) + HookCalls(old(gotActivation), rawImage, hits)
    {
      ghost var all := AllHits(rawImage, activationIntensity, region);
      box := Box(IntMax, IntMax, 0, 0);
      found := false;
      ghost var scanned: seq<Position> := [];
      var row := region.y;
      while row < region.y + region.height
        invariant region.y <= row && (row - region.y) % 2 == 0
        invariant scanned + Hits(rawImage, activationIntensity, region, row) == all
        invariant ScanTracks(rawImage, scanned, found, box, gotActivation, hooks, old(gotActivation), old(hooks))
        decreases region.y + region.height - row
      {
        ghost var before := scanned;
        HitsStep(rawImage, activationIntensity, region, row);
        found, box, scanned := ScanRow(rawImage, region, row, found, box, scanned, old(gotActivation), old(hooks));
        AppendAssoc(before, RowHits(rawImage, activationIntensity, region, row, region.x),
                    Hits(rawImage, activationIntensity, region, row + 2));
        row := row + 2;
      }
      ScanEnd(rawImage, activationIntensity, region, row, scanned, found, box, gotActivation, hooks,
              old(gotActivation), old(hooks));
      if !found {
        gotActivation := false;
        hooks := hooks + [LostActivation(rawImage)];
      }
    }

    /** The inner loop over the columns of one row. */
    method ScanRow(rawImage: seq<byte>, region: Rect, row: int, found0: bool, box0: Box,
                   ghost scanned0: seq<Position>, ghost wasActive: bool, ghost hooks0: seq<Hook>)
      returns (found: bool, box: Box, ghost scanned: seq<Position>)
      requires InFrame(|rawImage|, region)
      requires region.y <= row < region.y + region.height && (row - region.y) % 2 == 0
      requires ScanTracks(rawImage, scanned0, found0, box0, gotActivation, hooks, wasActive, hooks0)
      modifies this`gotActivation, this`hooks
      ensures scanned == scanned0 + RowHits(rawImage, activationIntensity, region, row, region.x)
      ensures ScanTracks(rawImage, scanned, found, box, gotActivation, hooks, wasActive, hooks0)
    {
      found, box, scanned := found0, box0, scanned0;
      ghost var target := scanned0 + RowHits(rawImage, activationIntensity, region, row, region.x);
      var col := region.x;
      while col < region.x + region.width
        invariant region.x <= col && (col - region.x) % 2 == 0
        invariant scanned + RowHits(rawImage, activationIntensity, region, row, col) == target
        invariant ScanTracks(rawImage, scanned, found, box, gotActivation, hooks, wasActive, hooks0)
        decreases region.x + region.width - col
      {
        found, box, scanned := ScanSample(rawImage, region, row, col, found, box, scanned, wasActive, hooks0);
        col := col + 2;
      }
      assert RowHits(rawImage, activationIntensity, region, row, col) == [];
      assert scanned + [] == scanned;
    }

    /** One step of the inner loop: the sample at (row, col). An active one is folded into
        the box and, the first time the trigger sees one, calls the Got hook. */
    method ScanSample(rawImage: seq<byte>, region: Rect, row: int, col: int, found0: bool, box0: Box,
                      ghost scanned0: seq<Position>, ghost wasActive: bool, ghost hooks0: seq<Hook>)
      returns (found: bool, box: Box, ghost scanned: seq<Position>)
      requires InFrame(|rawImage|, region)
      requires region.y <= row < region.y + region.height && (row - region.y) % 2 == 0
      requires region.x <= col < region.x + region.width && (col - region.x) % 2 == 0
      requires ScanTracks(rawImage, scanned0, found0, box0, gotActivation, hooks, wasActive, hooks0)
      modifies this`gotActivation, this`hooks
      ensures scanned + RowHits(rawImage, activationIntensity, region, row, col + 2)
        == scanned0 + RowHits(rawImage, activationIntensity, region, row, col)
      ensures ScanTracks(rawImage, scanned, found, box, gotActivation, hooks, wasActive, hooks0)
    {
      found, box, scanned := found0, box0, scanned0;
      RowHitsStep(rawImage, activationIntensity, region, row, col);
      ghost var rest := RowHits(rawImage, activationIntensity, region, row, col + 2);
      ghost var p := Position(row, col);
      assert IsActive(rawImage, activationIntensity, p) == (rawImage[row * Stride + col] as int > activationIntensity);
      if rawImage[row * Stride + col] as int > activationIntensity {
        ScanHitStep(rawImage, scanned, found, box, gotActivation, hooks, wasActive, hooks0, p);
        AppendAssoc(scanned, [p], rest);
        var aRow := MapToLogical(row);
        var aCol := MapToLogical(col);
        box := Box(Min(aCol, box.minX), Min(aRow, box.minY), Max(aCol, box.maxX), Max(aRow, box.maxY));
        Activate(rawImage, Position(row, col));
        found := true;
        scanned := scanned + [p];
      } else {
        assert [] + rest == rest;
      }
    }

    /** The body of `if (rawImage[...] > ActivationIntensity)` that concerns the state:
        the Got hook when the trigger was inactive, then `gotActivation = true`. */
    method Activate(rawImage: seq<byte>, at: Position)
      modifies this`gotActivation, this`hooks
      ensures gotActivation
      ensures hooks == old(hooks) + (if old(gotActivation) then [] else [GotActivation(rawImage, at)])
    {
      if !gotActivation {
        hooks := hooks + [GotActivation(rawImage, at)];
      }
      gotActivation := true;
    }
  }
}
