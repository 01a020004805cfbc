/**
 * Disc geometry: the pixels of a disc (`pixels_in_circle`) and the test
 * whether a disc lies entirely in a pixel set (`check_circle`).
 */
module Discs {
  import opened Pixels

  /**
   * p is one of the offsets the disc loops keep for centre (cx, cy) and
   * radius r: inside the scanned square of side 2r+1 and within Euclidean
   * distance r of the centre. Pixel components are never negative, so the
   * offsets the loops skip for a negative coordinate are not pixels at all.
   */
  predicate InDisc(cx: int, cy: int, r: int, p: Pixel) {
    var dx, dy := p.x - cx, p.y - cy;
    -r <= dx <= r && -r <= dy <= r && dx * dx + dy * dy <= r * r
  }

  /** The disc of radius r around (cx, cy), clipped to non-negative coordinates. */
  ghost function Disc(cx: nat, cy: nat, r: nat): (d: set<Pixel>)
    ensures forall p {:trigger p in d} :: p in d <==> InDisc(cx, cy, r, p)
  {
    var d := set x: nat, y: nat | x <= cx + r && y <= cy + r && InDisc(cx, cy, r, Pixel(x, y)) :: Pixel(x, y);
    assert forall p :: InDisc(cx, cy, r, p) ==> Pixel(p.x, p.y) in d;
    d
  }

  /** a comes before b in the row-by-row scan: by row (y) first, then by column (x). */
  predicate RowMajorBefore(a: Pixel, b: Pixel) {
    a.y < b.y || (a.y == b.y && a.x < b.x)
  }

  predicate StrictlyRowMajor(s: seq<Pixel>) {
    forall i, j :: 0 <= i < j < |s| ==> RowMajorBefore(s[i], s[j])
  }

  /** s lists the pixels of Disc(cx, cy, r), each once, in row-by-row scan order. */
  ghost predicate IsDiscEnumeration(s: seq<Pixel>, cx: nat, cy: nat, r: nat) {
    && (forall i :: 0 <= i < |s| ==> s[i] in Disc(cx, cy, r))
    && (forall p :: p in Disc(cx, cy, r) ==> p in s)
    && StrictlyRowMajor(s)
  }

  /** The scan position (dy, dx) of the nested loops has already passed pixel p. */
  predicate Scanned(p: Pixel, cx: int, cy: int, dy: int, dx: int) {
    p.y - cy < dy || (p.y - cy == dy && p.x - cx < dx)
  }

  /** A square no larger than r * r has its root within [-r, r]. */
  lemma SquareBound(a: int, r: nat)
    requires a * a <= r * r
    ensures -(r as int) <= a <= r
  {
  }

  /**
   * The scanned square adds nothing: a pixel is in the disc exactly when its
   * squared distance from the centre is at most r * r.
   */
  lemma DiscIsEuclidean(cx: nat, cy: nat, r: nat, p: Pixel)
    ensures p in Disc(cx, cy, r) <==> (p.x - cx) * (p.x - cx) + (p.y - cy) * (p.y - cy) <= r * r
  {
    var dx, dy := p.x - cx, p.y - cy;
    if dx * dx + dy * dy <= r * r {
      assert dx * dx <= r * r && dy * dy <= r * r;
      SquareBound(dx, r);
      SquareBound(dy, r);
    }
  }

  lemma CentreInDisc(cx: nat, cy: nat, r: nat)
    ensures Pixel(cx, cy) in Disc(cx, cy, r)
  {
    assert 0 <= r * r;
  }

  /** The disc of radius 0 is its centre alone. */
  lemma ZeroRadiusDisc(cx: nat, cy: nat)
    ensures Disc(cx, cy, 0) == {Pixel(cx, cy)}
  {
    CentreInDisc(cx, cy, 0);
  }

  /** A bigger radius gives a bigger disc around the same centre. */
  lemma DiscMonotone(cx: nat, cy: nat, r: nat, r': nat)
    requires r <= r'
    ensures Disc(cx, cy, r) <= Disc(cx, cy, r')
  {
    assert r * r <= r' * r' by {
      assert r * r <= r * r' <= r' * r';
    }
  }

  /** Two strictly row-major sequences holding the same pixels are equal. */
  lemma {:induction false} RowMajorUnique(s: seq<Pixel>, t: seq<Pixel>)
    requires StrictlyRowMajor(s) && StrictlyRowMajor(t)
    requires forall p :: p in s <==> p in t
    ensures s == t
  {
    assert t != [] ==> t[0] in s;
    if s != [] {
      assert s[0] in t && t[0] in s;
      var k :| 0 <= k < |s| && s[k] == t[0];
      var m :| 0 <= m < |t| && t[m] == s[0];
      assert k > 0 ==> RowMajorBefore(s[0], t[0]);
      assert m > 0 ==> RowMajorBefore(t[0], s[0]);
      forall p
        ensures p in s[1..] <==> p in t[1..]
      {
        if p in s[1..] {
          var k :| 1 <= k < |s| && s[k] == p;
          assert RowMajorBefore(s[0], s[k]);
        }
        if p in t[1..] {
          var k :| 1 <= k < |t| && t[k] == p;
          assert RowMajorBefore(t[0], t[k]);
        }
        assert p in s <==> p == s[0] || p in s[1..];
        assert p in t <==> p == t[0] || p in t[1..];
      }
      RowMajorUnique(s[1..], t[1..]);
      assert s == [s[0]] + s[1..] && t == [t[0]] + t[1..];
    }
  }

  /** The disc's pixels in scan order are determined by centre and radius alone. */
  lemma EnumerationUnique(s: seq<Pixel>, t: seq<Pixel>, cx: nat, cy: nat, r: nat)
    requires IsDiscEnumeration(s, cx, cy, r) && IsDiscEnumeration(t, cx, cy, r)
    ensures s == t
  {
    RowMajorUnique(s, t);
  }

  /** With radius 0 the scan yields exactly the centre. */
  lemma ZeroRadiusEnumeration(s: seq<Pixel>, cx: nat, cy: nat)
    requires IsDiscEnumeration(s, cx, cy, 0)
    ensures s == [Pixel(cx, cy)]
  {
    ZeroRadiusDisc(cx, cy);
    RowMajorUnique(s, [Pixel(cx, cy)]);
  }

  /** `pixels_in_circle`: the scan of the square of side 2r+1, row by row. */
  method PixelsInCircle(cx: nat, cy: nat, r: nat) returns (pixels: seq<Pixel>)
    requires FitsI32(cx, cy, r)
    ensures IsDiscEnumeration(pixels, cx, cy, r)
  {
    var radius: int := r;
    pixels := [];
    for dy := -radius to radius + 1
      invariant forall i :: 0 <= i < |pixels| ==> InDisc(cx, cy, r, pixels[i]) && Scanned(pixels[i], cx, cy, dy, -radius)
      invariant forall p :: InDisc(cx, cy, r, p) && Scanned(p, cx, cy, dy, -radius) ==> p in pixels
      invariant StrictlyRowMajor(pixels)
    {
      for dx := -radius to radius + 1
        invariant forall i :: 0 <= i < |pixels| ==> InDisc(cx, cy, r, pixels[i]) && Scanned(pixels[i], cx, cy, dy, dx)
        invariant forall p :: InDisc(cx, cy, r, p) && Scanned(p, cx, cy, dy, dx) ==> p in pixels
        invariant StrictlyRowMajor(pixels)
      {
        if dx * dx + dy * dy <= r * r {
          var x, y := cx + dx, cy + dy;
          if x < 0 || y < 0 {
            // offsets left of or above the image are ignored
            continue;
          }
          pixels := pixels + [Pixel(x, y)];
        }
      }
    }
  }

  /** `check_circle`: the same scan, answering false at the first pixel missing from valid. */
  method CheckCircle(valid: set<Pixel>, cx: nat, cy: nat, r: nat) returns (ok: bool)
    requires FitsI32(cx, cy, r)
    ensures ok <==> Disc(cx, cy, r) <= valid
  {
    var radius: int := r;
    for dy := -radius to radius + 1
      invariant forall p :: InDisc(cx, cy, r, p) && Scanned(p, cx, cy, dy, -radius) ==> p in valid
    {
      for dx := -radius to radius + 1
        invariant forall p :: InDisc(cx, cy, r, p) && Scanned(p, cx, cy, dy, dx) ==> p in valid
      {
        if dx * dx + dy * dy <= r * r {
          var x, y := cx + dx, cy + dy;
          if x < 0 || y < 0 {
            continue;
          }
          if Pixel(x, y) !in valid {
            assert InDisc(cx, cy, r, Pixel(x, y));
            return false;
          }
        }
      }
    }
    return true;
  }
}
