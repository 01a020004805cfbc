/**
 * Radius growth (`find_biggest_circle`): from a centre, the largest radius
 * whose whole disc lies in the valid set, trying 3, 4, ... up to a bound.
 */
module Growth {
  import opened Pixels
  import opened Discs

  /** The first radius that is ever tested; radii 1 and 2 are never checked. */
  const FIRST_TESTED_RADIUS: nat := 3

  /** The radius reported when no tested radius passes. */
  const UNTESTED_RADIUS: nat := 1

  ghost predicate DiscInside(valid: set<Pixel>, cx: nat, cy: nat, r: nat) {
    Disc(cx, cy, r) <= valid
  }

  /**
   * c is what growing a circle at (cx, cy) against valid, with radii tried
   * up to maxRadius, reports:
   *  - it is centred at (cx, cy);
   *  - its radius is 1, or one of 3..maxRadius;
   *  - every tested radius up to its own passed the disc test;
   *  - growth stopped for a reason: the next tested radius (3 when the
   *    result is 1) failed, or maxRadius was reached.
   */
  ghost predicate IsGrowth(valid: set<Pixel>, cx: nat, cy: nat, maxRadius: nat, c: Circle) {
    && c.x == cx && c.y == cy
    && (c.r == UNTESTED_RADIUS || FIRST_TESTED_RADIUS <= c.r <= maxRadius)
    && (forall k :: FIRST_TESTED_RADIUS <= k <= c.r ==> DiscInside(valid, cx, cy, k))
    && (c.r == UNTESTED_RADIUS && FIRST_TESTED_RADIUS <= maxRadius ==> !DiscInside(valid, cx, cy, FIRST_TESTED_RADIUS))
    && (FIRST_TESTED_RADIUS <= c.r < maxRadius ==> !DiscInside(valid, cx, cy, c.r + 1))
  }

  /** `find_biggest_circle`. */
  method FindBiggestCircle(valid: set<Pixel>, cx: nat, cy: nat, maxRadius: nat) returns (circle: Circle)
    requires FitsI32(cx, cy, maxRadius)
    ensures IsGrowth(valid, cx, cy, maxRadius, circle)
  {
    circle := Circle(cx, cy, UNTESTED_RADIUS);
    var r := FIRST_TESTED_RADIUS;
    while r <= maxRadius
      invariant FIRST_TESTED_RADIUS <= r && (r <= maxRadius + 1 || r == FIRST_TESTED_RADIUS)
      invariant circle.x == cx && circle.y == cy
      invariant if r == FIRST_TESTED_RADIUS then circle.r == UNTESTED_RADIUS else circle.r == r - 1
      invariant forall k :: FIRST_TESTED_RADIUS <= k < r ==> DiscInside(valid, cx, cy, k)
    {
      var ok := CheckCircle(valid, cx, cy, r);
      if !ok {
        break;
      }
      circle := circle.(r := r);
      r := r + 1;
    }
  }

  /** The specification of growth leaves no choice: it determines the circle. */
  lemma GrowthUnique(valid: set<Pixel>, cx: nat, cy: nat, maxRadius: nat, c: Circle, c': Circle)
    requires IsGrowth(valid, cx, cy, maxRadius, c) && IsGrowth(valid, cx, cy, maxRadius, c')
    ensures c == c'
  {
  }

  /** Growth is tight: no tested radius above the reported one fits in valid. */
  lemma GrowthMaximal(valid: set<Pixel>, cx: nat, cy: nat, maxRadius: nat, c: Circle, k: nat)
    requires IsGrowth(valid, cx, cy, maxRadius, c)
    requires FIRST_TESTED_RADIUS <= k <= maxRadius && c.r < k
    ensures !DiscInside(valid, cx, cy, k)
  {
    var failed := if c.r == UNTESTED_RADIUS then FIRST_TESTED_RADIUS else c.r + 1;
    assert !DiscInside(valid, cx, cy, failed);
    DiscMonotone(cx, cy, failed, k);
  }

  /** A reported radius of at least 3 means the disc of that radius fits in valid. */
  lemma GrownDiscInside(valid: set<Pixel>, cx: nat, cy: nat, maxRadius: nat, c: Circle)
    requires IsGrowth(valid, cx, cy, maxRadius, c) && FIRST_TESTED_RADIUS <= c.r
    ensures Disc(c.x, c.y, c.r) <= valid
  {
    assert DiscInside(valid, cx, cy, c.r);
  }

  /** When no radius is tested, the reported radius is always 1, whatever valid holds. */
  lemma NothingTested(valid: set<Pixel>, cx: nat, cy: nat, maxRadius: nat, c: Circle)
    requires IsGrowth(valid, cx, cy, maxRadius, c) && maxRadius < FIRST_TESTED_RADIUS
    ensures c == Circle(cx, cy, UNTESTED_RADIUS)
  {
  }

  /**
   * Radius 2 is skipped: with valid exactly the radius-2 disc, growth
   * still reports radius 1.
   */
  lemma RadiusTwoSkipped(cx: nat, cy: nat, maxRadius: nat)
    requires FIRST_TESTED_RADIUS <= maxRadius
    ensures IsGrowth(Disc(cx, cy, 2), cx, cy, maxRadius, Circle(cx, cy, UNTESTED_RADIUS))
  {
    var outside := Pixel(cx + 3, cy);
    assert outside in Disc(cx, cy, 3) && outside !in Disc(cx, cy, 2);
  }

  /** A width-by-height block of pixels with its corner at the origin. */
  ghost function Block(width: nat, height: nat): (b: set<Pixel>)
    ensures forall p {:trigger p in b} :: p in b <==> p.x < width && p.y < height
  {
    var b := set x: nat, y: nat | x < width && y < height :: Pixel(x, y);
    assert forall p: Pixel :: p.x < width && p.y < height ==> Pixel(p.x, p.y) in b;
    b
  }

  /**
   * On a 5-by-5 block, the centre pixel grows nothing (the radius-3 disc
   * reaches column 5), while pixel (1, 1) grows a radius-3 circle: the
   * part of its disc left of and above the image is never tested.
   */
  lemma FiveByFiveBlock()
    ensures IsGrowth(Block(5, 5), 2, 2, 25, Circle(2, 2, UNTESTED_RADIUS))
    ensures IsGrowth(Block(5, 5), 1, 1, 25, Circle(1, 1, 3))
  {
    assert Pixel(5, 2) in Disc(2, 2, 3);
    assert Pixel(5, 1) in Disc(1, 1, 4);
  }
}
