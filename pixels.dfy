/**
 * Pixel coordinates and circles of the bubble packer, their equality and
 * ordering, and the integer ranges inside which the packer's u32/i32
 * arithmetic neither wraps nor overflows.
 */
module Pixels {

  datatype Option<T> = None | Some(value: T)

  /** A pixel coordinate. The program stores both components as u32. */
  datatype Pixel = Pixel(x: nat, y: nat)

  /** A circle: centre and radius in pixel units (u32 each in the program). */
  datatype Circle = Circle(x: nat, y: nat, r: nat)

  datatype Ordering = Less | Equal | Greater

  const I32_MAX: nat := 0x7fff_ffff

  /** The largest radius r for which 2 * r * r, the largest value of
      dx * dx + dy * dy over the square of side 2r+1, still fits in an i32. */
  const MAX_SAFE_RADIUS: nat := 32767

  /**
   * The centres and radii for which the disc loops are well defined: the
   * u32-to-i32 casts of cx, cy and r keep their values, and neither the
   * coordinates cx + dx, cy + dy nor the squares dx * dx + dy * dy leave
   * the i32 range (the bound on r is MAX_SAFE_RADIUS, justified by
   * `SafeRadiusSquares`).
   */
  predicate FitsI32(cx: nat, cy: nat, r: nat) {
    r <= MAX_SAFE_RADIUS && cx + r <= I32_MAX && cy + r <= I32_MAX
  }

  /** MAX_SAFE_RADIUS is the largest radius whose squared offsets fit in an i32. */
  lemma SafeRadiusSquares()
    ensures 2 * MAX_SAFE_RADIUS * MAX_SAFE_RADIUS <= I32_MAX < 2 * (MAX_SAFE_RADIUS + 1) * (MAX_SAFE_RADIUS + 1)
  {
  }

  /** The hand-written `PartialEq`: component-wise equality. */
  function Equals(a: Pixel, b: Pixel): (eq: bool)
    ensures eq <==> a == b
  {
    a.x == b.x && a.y == b.y
  }

  /** `Ord` on one u32 component. */
  function CompareNat(a: nat, b: nat): Ordering {
    if a < b then Less else if a == b then Equal else Greater
  }

  /** The hand-written `Ord`: by x first, then by y. */
  function Compare(a: Pixel, b: Pixel): (o: Ordering)
    ensures o == Equal <==> a == b
    ensures o == Less <==> a.x < b.x || (a.x == b.x && a.y < b.y)
    ensures o == Greater <==> b.x < a.x || (a.x == b.x && b.y < a.y)
  {
    match CompareNat(a.x, b.x)
    case Equal => CompareNat(a.y, b.y)
    case other => other
  }

  /** The hand-written `PartialOrd`, which agrees with `Ord` everywhere. */
  function PartialCompare(a: Pixel, b: Pixel): (o: Option<Ordering>)
    ensures o == Some(Compare(a, b))
  {
    var byX := Some(CompareNat(a.x, b.x));
    if byX == Some(Equal) then Some(CompareNat(a.y, b.y)) else byX
  }

  lemma CompareAntisymmetric(a: Pixel, b: Pixel)
    ensures Compare(a, b) == Less <==> Compare(b, a) == Greater
  {
  }

  lemma CompareTransitive(a: Pixel, b: Pixel, c: Pixel)
    requires Compare(a, b) == Less && Compare(b, c) == Less
    ensures Compare(a, c) == Less
  {
  }
}
