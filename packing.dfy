/**
 * The greedy packing loop of `main`: while the mask of remaining
 * foreground pixels is non-empty, ask the seed oracle for a centre, grow the
 * biggest circle there, and either reject it (radius below 3: only the seed
 * leaves the mask) or accept it (its whole disc leaves the mask).
 */
module Packing {
  import opened Pixels
  import opened Discs
  import opened Growth

  /** `MAX_RADIUS`: the largest radius growth tries. */
  const MAX_RADIUS: nat := 25

  /** Grown circles with a smaller radius are rejected. */
  const MIN_ACCEPTED_RADIUS: nat := 3

  /**
   * The largest image width and height for which every in-bounds centre,
   * grown up to MAX_RADIUS, keeps the disc loops inside the i32 range.
   */
  const MAX_DIMENSION: nat := I32_MAX - MAX_RADIUS + 1

  predicate InBounds(p: Pixel, width: nat, height: nat) {
    p.x < width && p.y < height
  }

  /** targets can be the foreground of a width-by-height image. */
  ghost predicate IsForeground(targets: set<Pixel>, width: nat, height: nat) {
    && width <= MAX_DIMENSION && height <= MAX_DIMENSION
    && forall p :: p in targets ==> InBounds(p, width, height)
  }

  /**
   * What the packing loop relies on from `compute_edt`: asked about a
   * non-empty part of targets, it answers None or a member of that part.
   */
  ghost predicate IsSeedOracle(seed: set<Pixel> -> Option<Pixel>, targets: set<Pixel>) {
    forall m {:trigger seed(m)} :: m <= targets && m != {} && seed(m).Some? ==> seed(m).value in m
  }

  ghost function CircleDisc(c: Circle): set<Pixel> {
    Disc(c.x, c.y, c.r)
  }

  /** The pixels of all the discs of circles. */
  ghost function Covered(circles: seq<Circle>): set<Pixel> {
    if circles == [] then {} else Covered(circles[..|circles| - 1]) + CircleDisc(circles[|circles| - 1])
  }

  /** c passes acceptance when grown against mask: at least radius 3, and tight. */
  ghost predicate Accepted(c: Circle, mask: set<Pixel>) {
    MIN_ACCEPTED_RADIUS <= c.r && IsGrowth(mask, c.x, c.y, MAX_RADIUS, c)
  }

  /**
   * The bookkeeping of the packing loop: snapshots[i] is the mask at the
   * moment circles[i] was accepted, rejected the seeds removed on rejection.
   *  - targets splits into the mask, the accepted discs and the rejected seeds;
   *  - every accepted circle was grown against its snapshot and accepted;
   *  - snapshots only shrink, and each one loses the disc accepted in it.
   */
  ghost predicate Accounting(targets: set<Pixel>, mask: set<Pixel>, circles: seq<Circle>,
                             snapshots: seq<set<Pixel>>, rejected: set<Pixel>) {
    && |snapshots| == |circles|
    && targets == mask + Covered(circles) + rejected
    && mask !! Covered(circles) && mask !! rejected && Covered(circles) !! rejected
    && (forall i :: 0 <= i < |circles| ==> snapshots[i] <= targets && Accepted(circles[i], snapshots[i]))
    && (forall i, j :: 0 <= i < j < |circles| ==> snapshots[j] <= snapshots[i] - CircleDisc(circles[i]))
    && (forall i :: 0 <= i < |circles| ==> mask <= snapshots[i] - CircleDisc(circles[i]))
  }

  /** One round of the loop: the mask it starts from, the seed it asks for, the circle grown there. */
  datatype Round = Round(mask: set<Pixel>, seed: Pixel, circle: Circle)

  /** The round keeps its circle (`circle.r >= 3`). */
  predicate IsAcceptance(round: Round) {
    MIN_ACCEPTED_RADIUS <= round.circle.r
  }

  /** The mask a round leaves: without the disc when accepted, without the seed when rejected. */
  ghost function After(round: Round): set<Pixel> {
    if IsAcceptance(round) then round.mask - CircleDisc(round.circle) else round.mask - {round.seed}
  }

  /** The mask once the rounds of history have run, starting from targets. */
  ghost function MaskAfter(targets: set<Pixel>, history: seq<Round>): set<Pixel> {
    if history == [] then targets else After(history[|history| - 1])
  }

  /** The loop stops: the mask is empty, or the seed oracle has no answer. */
  ghost predicate Finished(seed: set<Pixel> -> Option<Pixel>, mask: set<Pixel>) {
    mask == {} || seed(mask) == None
  }

  /**
   * round is what the loop does after history: it starts from the mask the
   * history left, which is non-empty; its seed is the oracle's answer for
   * that mask; its circle is what growth reports there.
   */
  ghost predicate IsNextRound(targets: set<Pixel>, seed: set<Pixel> -> Option<Pixel>,
                              history: seq<Round>, round: Round) {
    && round.mask == MaskAfter(targets, history)
    && round.seed in round.mask
    && seed(round.mask) == Some(round.seed)
    && IsGrowth(round.mask, round.seed.x, round.seed.y, MAX_RADIUS, round.circle)
  }

  /** history is a run of the loop from targets: each round follows from the ones before it. */
  ghost predicate IsRun(targets: set<Pixel>, seed: set<Pixel> -> Option<Pixel>, history: seq<Round>) {
    forall k :: 0 <= k < |history| ==> IsNextRound(targets, seed, history[..k], history[k])
  }

  /** The circles a history pushes, in order. */
  ghost function AcceptedCircles(history: seq<Round>): seq<Circle> {
    if history == [] then []
    else
      var last := history[|history| - 1];
      AcceptedCircles(history[..|history| - 1]) + (if IsAcceptance(last) then [last.circle] else [])
  }

  /** The masks at which those circles were accepted. */
  ghost function AcceptedMasks(history: seq<Round>): seq<set<Pixel>> {
    if history == [] then []
    else
      var last := history[|history| - 1];
      AcceptedMasks(history[..|history| - 1]) + (if IsAcceptance(last) then [last.mask] else [])
  }

  /** The seeds a history removes on rejection. */
  ghost function RejectedSeeds(history: seq<Round>): set<Pixel> {
    if history == [] then {}
    else
      var last := history[|history| - 1];
      RejectedSeeds(history[..|history| - 1]) + (if IsAcceptance(last) then {} else {last.seed})
  }

  /**
   * The state of the packing loop: history is a run from targets, its
   * bookkeeping holds, and every round accepted one circle or rejected one
   * fresh seed.
   */
  ghost predicate PackingInvariant(targets: set<Pixel>, seed: set<Pixel> -> Option<Pixel>, history: seq<Round>) {
    && IsRun(targets, seed, history)
    && Accounting(targets, MaskAfter(targets, history), AcceptedCircles(history),
                  AcceptedMasks(history), RejectedSeeds(history))
    && |AcceptedCircles(history)| + |RejectedSeeds(history)| == |history|
  }

  lemma InitialInvariant(targets: set<Pixel>, seed: set<Pixel> -> Option<Pixel>)
    ensures PackingInvariant(targets, seed, [])
  {
  }

  /** Appending the next round to a run gives a run, and each derived part grows by that round. */
  lemma ExtendRun(targets: set<Pixel>, seed: set<Pixel> -> Option<Pixel>, history: seq<Round>, round: Round)
    requires IsRun(targets, seed, history) && IsNextRound(targets, seed, history, round)
    ensures IsRun(targets, seed, history + [round])
    ensures MaskAfter(targets, history + [round]) == After(round)
    ensures AcceptedCircles(history + [round]) == AcceptedCircles(history) + (if IsAcceptance(round) then [round.circle] else [])
    ensures AcceptedMasks(history + [round]) == AcceptedMasks(history) + (if IsAcceptance(round) then [round.mask] else [])
    ensures RejectedSeeds(history + [round]) == RejectedSeeds(history) + (if IsAcceptance(round) then {} else {round.seed})
  {
    var h := history + [round];
    assert h[..|h| - 1] == history;
    forall k | 0 <= k < |h|
      ensures IsNextRound(targets, seed, h[..k], h[k])
    {
      if k < |history| {
        assert h[..k] == history[..k] && h[k] == history[k];
      }
    }
  }

  /** The bookkeeping of an acceptance: the circle joins the list and its disc leaves the mask. */
  lemma AccountingAccept(targets: set<Pixel>, mask: set<Pixel>, circles: seq<Circle>,
                         snapshots: seq<set<Pixel>>, rejected: set<Pixel>, c: Circle)
    requires Accounting(targets, mask, circles, snapshots, rejected)
    requires Accepted(c, mask)
    ensures Accounting(targets, mask - CircleDisc(c), circles + [c], snapshots + [mask], rejected)
  {
    var circles', snapshots' := circles + [c], snapshots + [mask];
    assert circles'[..|circles'| - 1] == circles;
    assert Covered(circles') == Covered(circles) + CircleDisc(c);
    GrownDiscInside(mask, c.x, c.y, MAX_RADIUS, c);
    forall i | 0 <= i < |circles'|
      ensures snapshots'[i] <= targets && Accepted(circles'[i], snapshots'[i])
    {
      if i < |circles| {
        assert snapshots'[i] == snapshots[i] && circles'[i] == circles[i];
      }
    }
    forall i, j | 0 <= i < j < |circles'|
      ensures snapshots'[j] <= snapshots'[i] - CircleDisc(circles'[i])
    {
      assert snapshots'[i] == snapshots[i] && circles'[i] == circles[i];
      if j < |circles| {
        assert snapshots'[j] == snapshots[j];
      }
    }
  }

  /** The bookkeeping of a rejection: the seed moves from the mask to the rejected seeds. */
  lemma AccountingReject(targets: set<Pixel>, mask: set<Pixel>, circles: seq<Circle>,
                         snapshots: seq<set<Pixel>>, rejected: set<Pixel>, p: Pixel)
    requires Accounting(targets, mask, circles, snapshots, rejected)
    requires p in mask
    ensures Accounting(targets, mask - {p}, circles, snapshots, rejected + {p})
    ensures |rejected + {p}| == |rejected| + 1
  {
  }

  /** Accepting the circle of the next round, and removing its disc, keeps the invariant. */
  lemma AcceptPreserves(targets: set<Pixel>, seed: set<Pixel> -> Option<Pixel>, history: seq<Round>, round: Round)
    requires PackingInvariant(targets, seed, history)
    requires IsNextRound(targets, seed, history, round) && IsAcceptance(round)
    ensures PackingInvariant(targets, seed, history + [round])
  {
    ExtendRun(targets, seed, history, round);
    AccountingAccept(targets, round.mask, AcceptedCircles(history), AcceptedMasks(history),
                     RejectedSeeds(history), round.circle);
  }

  /**
   * Rejecting the seed of the next round, whose circle came out below
   * radius 3, and removing only that seed, keeps the invariant.
   */
  lemma RejectPreserves(targets: set<Pixel>, seed: set<Pixel> -> Option<Pixel>, history: seq<Round>, round: Round)
    requires PackingInvariant(targets, seed, history)
    requires IsNextRound(targets, seed, history, round) && !IsAcceptance(round)
    ensures PackingInvariant(targets, seed, history + [round])
  {
    ExtendRun(targets, seed, history, round);
    var h := history + [round];
    var circles, snapshots, rejected := AcceptedCircles(history), AcceptedMasks(history), RejectedSeeds(history);
    AccountingReject(targets, round.mask, circles, snapshots, rejected, round.seed);
    assert AcceptedCircles(h) == circles && AcceptedMasks(h) == snapshots;
    assert RejectedSeeds(h) == rejected + {round.seed};
  }

  /** A prefix of a run is a run. */
  lemma RunPrefix(targets: set<Pixel>, seed: set<Pixel> -> Option<Pixel>, history: seq<Round>, n: nat)
    requires IsRun(targets, seed, history) && n <= |history|
    ensures IsRun(targets, seed, history[..n])
  {
    forall k | 0 <= k < n
      ensures IsNextRound(targets, seed, history[..n][..k], history[..n][k])
    {
      assert history[..n][..k] == history[..k] && history[..n][k] == history[k];
    }
  }

  /** No proper prefix of a run is finished: each round starts from a mask that still has a seed. */
  lemma UnfinishedBeforeEnd(targets: set<Pixel>, seed: set<Pixel> -> Option<Pixel>, history: seq<Round>)
    requires IsRun(targets, seed, history)
    ensures forall n :: 0 <= n < |history| ==> !Finished(seed, MaskAfter(targets, history[..n]))
  {
    forall n | 0 <= n < |history|
      ensures !Finished(seed, MaskAfter(targets, history[..n]))
    {
      assert IsNextRound(targets, seed, history[..n], history[n]);
    }
  }

  /** After the same history, the next round is determined: the oracle fixes the seed, growth the circle. */
  lemma NextRoundUnique(targets: set<Pixel>, seed: set<Pixel> -> Option<Pixel>, history: seq<Round>,
                        r1: Round, r2: Round)
    requires IsNextRound(targets, seed, history, r1) && IsNextRound(targets, seed, history, r2)
    ensures r1 == r2
  {
    GrowthUnique(r1.mask, r1.seed.x, r1.seed.y, MAX_RADIUS, r1.circle, r2.circle);
  }

  /** Equal histories followed by their next rounds stay equal. */
  lemma PrefixStep(targets: set<Pixel>, seed: set<Pixel> -> Option<Pixel>, h1: seq<Round>, h2: seq<Round>, k: nat)
    requires k < |h1| && k < |h2| && h1[..k] == h2[..k]
    requires IsNextRound(targets, seed, h1[..k], h1[k]) && IsNextRound(targets, seed, h2[..k], h2[k])
    ensures h1[..k + 1] == h2[..k + 1]
  {
    NextRoundUnique(targets, seed, h1[..k], h1[k], h2[k]);
    assert h1[..k + 1] == h1[..k] + [h1[k]];
    assert h2[..k + 1] == h2[..k] + [h2[k]];
  }

  /** Two runs from the same targets and oracle agree on their common length. */
  lemma {:induction false} SamePrefix(targets: set<Pixel>, seed: set<Pixel> -> Option<Pixel>,
                                      h1: seq<Round>, h2: seq<Round>, n: nat)
    requires IsRun(targets, seed, h1) && IsRun(targets, seed, h2)
    requires n <= |h1| && n <= |h2|
    ensures h1[..n] == h2[..n]
  {
    if n > 0 {
      SamePrefix(targets, seed, h1, h2, n - 1);
      PrefixStep(targets, seed, h1, h2, n - 1);
    }
  }

  /**
   * The loop is deterministic: once the foreground and the seed oracle are
   * fixed, there is exactly one finished run.
   */
  lemma RunDetermined(targets: set<Pixel>, seed: set<Pixel> -> Option<Pixel>, h1: seq<Round>, h2: seq<Round>)
    requires IsRun(targets, seed, h1) && Finished(seed, MaskAfter(targets, h1))
    requires IsRun(targets, seed, h2) && Finished(seed, MaskAfter(targets, h2))
    ensures h1 == h2
  {
    var n := if |h1| <= |h2| then |h1| else |h2|;
    SamePrefix(targets, seed, h1, h2, n);
    UnfinishedBeforeEnd(targets, seed, h1);
    UnfinishedBeforeEnd(targets, seed, h2);
    assert h1[..|h1|] == h1 && h2[..|h2|] == h2;
  }

  /**
   * A seed is rejected only for lack of room: in the mask of its round,
   * growth reported radius 1 because not even the radius-3 disc fitted.
   */
  lemma {:induction false} RejectedHadNoRoom(targets: set<Pixel>, seed: set<Pixel> -> Option<Pixel>,
                                             history: seq<Round>, p: Pixel)
    requires IsRun(targets, seed, history)
    requires p in RejectedSeeds(history)
    ensures exists k :: 0 <= k < |history| && history[k].seed == p && p in history[k].mask
              && history[k].circle == Circle(p.x, p.y, UNTESTED_RADIUS)
              && !DiscInside(history[k].mask, p.x, p.y, FIRST_TESTED_RADIUS)
  {
    var n := |history| - 1;
    var last := history[n];
    assert IsNextRound(targets, seed, history[..n], last);
    if IsAcceptance(last) || p != last.seed {
      RunPrefix(targets, seed, history, n);
      RejectedHadNoRoom(targets, seed, history[..n], p);
      var k :| 0 <= k < n && history[..n][k].seed == p && p in history[..n][k].mask
               && history[..n][k].circle == Circle(p.x, p.y, UNTESTED_RADIUS)
               && !DiscInside(history[..n][k].mask, p.x, p.y, FIRST_TESTED_RADIUS);
      assert history[..n][k] == history[k];
    }
  }

  /** Removing a set that shares a pixel with the mask makes the mask strictly smaller. */
  lemma RemovalShrinks(mask: set<Pixel>, removed: set<Pixel>, p: Pixel)
    requires p in mask && p in removed
    ensures |mask - removed| < |mask|
  {
    SubsetSmaller(mask - removed, mask - {p});
  }

  lemma {:induction false} SubsetSmaller(a: set<Pixel>, b: set<Pixel>)
    requires a <= b
    ensures |a| <= |b|
  {
    if a != {} {
      var x :| x in a;
      SubsetSmaller(a - {x}, b - {x});
    }
  }

  /** `for px in to_rm { mask.swap_remove(&px); }`: removes each listed pixel in turn. */
  method RemovePixels(mask: set<Pixel>, toRemove: seq<Pixel>) returns (rest: set<Pixel>)
    ensures forall q :: q in rest <==> q in mask && q !in toRemove
  {
    rest := mask;
    for i := 0 to |toRemove|
      invariant forall q :: q in rest <==> q in mask && q !in toRemove[..i]
    {
      assert toRemove[..i + 1] == toRemove[..i] + [toRemove[i]];
      rest := rest - {toRemove[i]};
    }
    assert toRemove[..|toRemove|] == toRemove;
  }

  /**
   * One round of the loop at a seed of the mask: grow the biggest circle
   * there, then reject it (radius below 3: the seed alone leaves the mask)
   * or accept it (its whole disc leaves the mask). Either way the mask
   * strictly shrinks.
   */
  method PlaceCircle(mask: set<Pixel>, centre: Pixel) returns (circle: Circle, accepted: bool, rest: set<Pixel>)
    requires centre in mask
    requires FitsI32(centre.x, centre.y, MAX_RADIUS)
    ensures IsGrowth(mask, centre.x, centre.y, MAX_RADIUS, circle)
    ensures accepted <==> MIN_ACCEPTED_RADIUS <= circle.r
    ensures rest == if accepted then mask - CircleDisc(circle) else mask - {centre}
    ensures |rest| < |mask|
  {
    circle := FindBiggestCircle(mask, centre.x, centre.y, MAX_RADIUS);
    if circle.r < MIN_ACCEPTED_RADIUS {
      accepted, rest := false, mask - {centre};
      return;
    }
    accepted := true;
    var toRemove := PixelsInCircle(circle.x, circle.y, circle.r);
    rest := RemovePixels(mask, toRemove);
    assert rest == mask - CircleDisc(circle);
    CentreInDisc(circle.x, circle.y, circle.r);
    RemovalShrinks(mask, CircleDisc(circle), centre);
  }

  /**
   * `while mask.len() > 0 { ... }` together with the circles it accepts,
   * as a run from the foreground: the result is the one finished run
   * (`RunDetermined`).
   */
  method Pack(targets: set<Pixel>, width: nat, height: nat, seed: set<Pixel> -> Option<Pixel>)
    returns (circles: seq<Circle>, mask: set<Pixel>, ghost history: seq<Round>)
    requires IsForeground(targets, width, height)
    requires IsSeedOracle(seed, targets)
    ensures PackingInvariant(targets, seed, history)
    ensures circles == AcceptedCircles(history) && mask == MaskAfter(targets, history)
    ensures Finished(seed, mask)
    ensures |history| <= |targets|
  {
    circles, mask, history := [], targets, [];
    InitialInvariant(targets, seed);
    while |mask| > 0
      invariant PackingInvariant(targets, seed, history)
      invariant circles == AcceptedCircles(history) && mask == MaskAfter(targets, history)
      invariant |history| + |mask| <= |targets|
      decreases |mask|
    {
      var found := seed(mask);
      if found.None? {
        break;
      }
      var centre := found.value;
      assert mask <= targets;
      assert InBounds(centre, width, height);
      var circle, accepted, rest := PlaceCircle(mask, centre);
      ghost var round := Round(mask, centre, circle);
      if accepted {
        AcceptPreserves(targets, seed, history, round);
        circles := circles + [circle];
      } else {
        RejectPreserves(targets, seed, history, round);
      }
      mask, history := rest, history + [round];
    }
  }

  /** p is covered exactly when it lies in the disc of one of the circles. */
  lemma {:induction false} CoveredIff(circles: seq<Circle>, p: Pixel)
    ensures p in Covered(circles) <==> exists i :: 0 <= i < |circles| && p in CircleDisc(circles[i])
  {
    if circles != [] {
      var n := |circles| - 1;
      CoveredIff(circles[..n], p);
      if p in Covered(circles[..n]) {
        var i :| 0 <= i < n && p in CircleDisc(circles[..n][i]);
        assert circles[..n][i] == circles[i];
      }
      if exists i :: 0 <= i < |circles| && p in CircleDisc(circles[i]) {
        var i :| 0 <= i < |circles| && p in CircleDisc(circles[i]);
        if i < n {
          assert circles[..n][i] == circles[i];
        }
      }
    }
  }

  /** The discs of accepted circles never overlap. */
  lemma AcceptedDiscsDisjoint(targets: set<Pixel>, mask: set<Pixel>, circles: seq<Circle>,
                              snapshots: seq<set<Pixel>>, rejected: set<Pixel>, i: nat, j: nat)
    requires Accounting(targets, mask, circles, snapshots, rejected)
    requires i < j < |circles|
    ensures CircleDisc(circles[i]) !! CircleDisc(circles[j])
  {
    GrownDiscInside(snapshots[j], circles[j].x, circles[j].y, MAX_RADIUS, circles[j]);
  }

  /**
   * Every accepted circle has a radius in 3..MAX_RADIUS, lies inside the
   * foreground, and keeps none of its pixels in the mask.
   */
  lemma AcceptedDiscsInside(targets: set<Pixel>, mask: set<Pixel>, circles: seq<Circle>,
                            snapshots: seq<set<Pixel>>, rejected: set<Pixel>, i: nat)
    requires Accounting(targets, mask, circles, snapshots, rejected)
    requires i < |circles|
    ensures MIN_ACCEPTED_RADIUS <= circles[i].r <= MAX_RADIUS
    ensures CircleDisc(circles[i]) <= targets
    ensures CircleDisc(circles[i]) !! mask
  {
    GrownDiscInside(snapshots[i], circles[i].x, circles[i].y, MAX_RADIUS, circles[i]);
  }

  /** Accepted centres are foreground pixels, hence inside the image. */
  lemma AcceptedCentresInBounds(targets: set<Pixel>, width: nat, height: nat, mask: set<Pixel>,
                                circles: seq<Circle>, snapshots: seq<set<Pixel>>, rejected: set<Pixel>, i: nat)
    requires IsForeground(targets, width, height)
    requires Accounting(targets, mask, circles, snapshots, rejected)
    requires i < |circles|
    ensures Pixel(circles[i].x, circles[i].y) in targets
    ensures circles[i].x < width && circles[i].y < height
  {
    AcceptedDiscsInside(targets, mask, circles, snapshots, rejected, i);
    CentreInDisc(circles[i].x, circles[i].y, circles[i].r);
  }

  /**
   * Every foreground pixel ends up in exactly one place: still in the mask,
   * in the disc of an accepted circle, or among the rejected seeds.
   */
  lemma ForegroundAccountedFor(targets: set<Pixel>, mask: set<Pixel>, circles: seq<Circle>,
                               snapshots: seq<set<Pixel>>, rejected: set<Pixel>, p: Pixel)
    requires Accounting(targets, mask, circles, snapshots, rejected)
    requires p in targets
    ensures p in mask || p in rejected || exists i :: 0 <= i < |circles| && p in CircleDisc(circles[i])
    ensures p in rejected ==> p !in mask && forall i :: 0 <= i < |circles| ==> p !in CircleDisc(circles[i])
  {
    CoveredIff(circles, p);
  }
}
