/**
 * The core of `main`: pack the foreground pixels of an image with circles,
 * then print them with y measured from the bottom of the image.
 */
module Bubble {
  import opened Pixels
  import opened Discs
  import opened Packing
  import opened Output

  /**
   * From a foreground set to the printed line. The circles are those of the
   * one finished run of the packing loop (`Packing.RunDetermined`); they
   * are pairwise disjoint discs of radius 3..MAX_RADIUS inside the
   * foreground, their centres lie inside the image (so `height - y` cannot
   * underflow), and the line reads back as exactly the flipped circle list.
   * When the seed oracle always answers on a non-empty mask, every
   * foreground pixel ends up in an accepted disc or among the rejected seeds.
   */
  method Bubbles(targets: set<Pixel>, width: nat, height: nat, seed: set<Pixel> -> Option<Pixel>)
    returns (circles: seq<Circle>, line: string, ghost history: seq<Round>)
    requires IsForeground(targets, width, height)
    requires IsSeedOracle(seed, targets)
    ensures PackingInvariant(targets, seed, history) && Finished(seed, MaskAfter(targets, history))
    ensures circles == AcceptedCircles(history)
    ensures forall i :: 0 <= i < |circles| ==> circles[i].x < width && circles[i].y < height
    ensures forall i :: 0 <= i < |circles| ==> MIN_ACCEPTED_RADIUS <= circles[i].r <= MAX_RADIUS
    ensures forall i :: 0 <= i < |circles| ==> CircleDisc(circles[i]) <= targets
    ensures forall i, j :: 0 <= i < j < |circles| ==> CircleDisc(circles[i]) !! CircleDisc(circles[j])
    ensures line == Format(circles, height)
    ensures ParseOutput(line) == Some(FlipAll(circles, height))
    ensures (forall m {:trigger seed(m)} :: m <= targets && m != {} ==> seed(m).Some?) ==>
              targets == Covered(circles) + RejectedSeeds(history)
  {
    var mask;
    circles, mask, history := Pack(targets, width, height, seed);
    ghost var snapshots, rejected := AcceptedMasks(history), RejectedSeeds(history);
    forall i | 0 <= i < |circles|
      ensures circles[i].x < width && circles[i].y < height
      ensures MIN_ACCEPTED_RADIUS <= circles[i].r <= MAX_RADIUS && CircleDisc(circles[i]) <= targets
    {
      AcceptedCentresInBounds(targets, width, height, mask, circles, snapshots, rejected, i);
      AcceptedDiscsInside(targets, mask, circles, snapshots, rejected, i);
    }
    forall i, j | 0 <= i < j < |circles|
      ensures CircleDisc(circles[i]) !! CircleDisc(circles[j])
    {
      AcceptedDiscsDisjoint(targets, mask, circles, snapshots, rejected, i, j);
    }
    line := Format(circles, height);
    assert mask <= targets;
  }
}
