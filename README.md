# mkbubble circle packing, modelled in Dafny

`mkbubble` reads an image and describes its bright foreground as a list of
non-overlapping circles ("bubbles"), printed as `[[x,y,r],...],` with the
y axis flipped so that it runs up from the bottom of the image. This project
models the greedy packing core of `mkbubble/src/main.rs` and proves what it
guarantees:

- `Pixels` (`pixels.dfy`): the `Pixel` and `Circle` records, the
  hand-written `PartialEq`, `PartialOrd` and `Ord` of `Pixel`, and the
  integer range on which the program's u32/i32 arithmetic is exact.
- `Discs` (`discs.dfy`): `pixels_in_circle` and `check_circle` as nested
  `for` loops (early `return false` and `continue` included), proved against
  the ghost set `Disc(cx, cy, r)`.
- `Growth` (`growth.dfy`): `find_biggest_circle`, a `while` loop with
  `break` that tries radii 3, 4, ... up to the bound and keeps the last one
  that passes, starting from radius 1.
- `Packing` (`packing.dfy`): the `while mask.len() > 0` loop. The mask is a
  set that the loop reassigns. One round is the method `PlaceCircle`. It
  either rejects the seed (radius below 3: only the seed is removed) or
  accepts the circle (its full-radius disc is removed, pixel by pixel, as in
  the `swap_remove` loop). The loop's invariant `PackingInvariant` says
  that the ghost history of rounds is a run of the loop. It also keeps the
  bookkeeping `Accounting`: each accepted circle with its mask at
  acceptance, and the rejected seeds. Disjointness, containment and
  tightness follow from it.
- `Output` (`output.dfy`): the y flip `height - y`, the `[x,y,r]` rendering,
  `join(",")` and the `[...],` wrapper, and a reader for that text with the
  round trip `ParseOutput(Render(cs)) == Some(cs)`.
- `Bubble` (`bubble.dfy`): packing followed by output, as `main` runs them.

The distance-transform seed (`compute_edt`) is a parameter
`seed: set<Pixel> -> Option<Pixel>`. The packing loop requires of it only
that a `Some` answer is a member of the mask it was asked about
(`IsSeedOracle`). A `None` answer ends the loop, as the `else { break; }`
branch does. `compute_edt` itself always answers `Some`. When OpenCV
succeeds, the answer is the brightest point of the distance transform, a
pixel of the mask. When OpenCV fails, it answers (0, 0) whether or not
that pixel is in the mask (see "Left out").

The loop is recorded as a ghost history of rounds. Each round holds the
mask it started from, the seed and the grown circle. `PackingInvariant`
states that this history is a run of the loop from the foreground, and
`RunDetermined` shows that a foreground and an oracle allow exactly one
finished run. So the circles `Pack` returns are the ones the loop
computes, and a seed is rejected only when not even the radius-3 disc fits
around it (`RejectedHadNoRoom`).

What the code does, as modelled:

- There is no overlap margin. The removal radius equals the accepted radius.
- There is no second pass. The pass after the loop is commented out.
- The minimum accepted radius is 3. Growth starts testing at radius 3, so
  radius 2 is never reported (`RadiusTwoSkipped`).
- Disc pixels left of or above the image are never tested, because
  `pixels_in_circle` skips negative coordinates. So on a 5-by-5 block the
  centre (2, 2) grows radius 1, while (1, 1) grows radius 3
  (`FiveByFiveBlock`).

## Model

| member | source | states |
|---|---|---|
| `Pixels.Equals` | mkbubble/src/main.rs:23-27 | the hand-written `eq` holds exactly when the two pixels are the same value |
| `Pixels.Compare` | mkbubble/src/main.rs:37-44 | `cmp` is `Equal` exactly for equal pixels, `Less` exactly when x is smaller or x ties and y is smaller, `Greater` in the mirrored case |
| `Pixels.PartialCompare` | mkbubble/src/main.rs:28-35 | `partial_cmp` always answers `Some`, and what it answers agrees with `cmp` |
| `Pixels.CompareAntisymmetric` | mkbubble/src/main.rs:37-44 | a is below b under `cmp` exactly when b is above a |
| `Pixels.CompareTransitive` | mkbubble/src/main.rs:37-44 | `cmp`'s strict order is transitive |
| `Pixels.SafeRadiusSquares` | mkbubble/src/main.rs:251-254 | MAX_SAFE_RADIUS is the largest radius whose squared offsets `dx*dx + dy*dy` fit in an i32 |
| `Discs.Disc` | mkbubble/src/main.rs:252-265 | a pixel is in the disc exactly when it lies in the scanned square of side 2r+1 and `dx*dx + dy*dy <= r*r` |
| `Discs.DiscIsEuclidean` | mkbubble/src/main.rs:252-265 | the square adds nothing: a pixel (non-negative by type) is in the disc exactly when its squared distance from the centre is at most r*r |
| `Discs.CentreInDisc` | mkbubble/src/main.rs:252-264 | every disc, whatever the radius, contains its centre |
| `Discs.ZeroRadiusDisc` | mkbubble/src/main.rs:252-264 | the disc of radius 0 is exactly the centre |
| `Discs.DiscMonotone` | mkbubble/src/main.rs:252-254 | a larger radius gives a superset disc around the same centre |
| `Discs.PixelsInCircle` | mkbubble/src/main.rs:247-269 | the result holds every pixel of the disc, only pixels of the disc, each once, in row-by-row scan order; offsets with a negative coordinate are not returned |
| `Discs.RowMajorUnique` | mkbubble/src/main.rs:252-253 | two strictly row-major sequences with the same pixels are equal |
| `Discs.EnumerationUnique` | mkbubble/src/main.rs:247-269 | the contract of `PixelsInCircle` determines its result completely |
| `Discs.ZeroRadiusEnumeration` | mkbubble/src/main.rs:252-264 | with radius 0 the enumeration is exactly `[Pixel(cx, cy)]` |
| `Discs.CheckCircle` | mkbubble/src/main.rs:271-296 | true exactly when every pixel of the disc is in the valid set; the set is a value, so it is unchanged |
| `Growth.FindBiggestCircle` | mkbubble/src/main.rs:234-245 | centred at the seed; radius 1 or in 3..max_radius; every radius from 3 to the result passes `check_circle`; a result of 1 with max_radius >= 3 means radius 3 fails; a result r in 3..max_radius-1 means r+1 fails |
| `Growth.GrowthUnique` | mkbubble/src/main.rs:234-245 | that contract admits only one circle |
| `Growth.GrowthMaximal` | mkbubble/src/main.rs:236-243 | no tested radius above the reported one, up to max_radius, fits in the valid set |
| `Growth.GrownDiscInside` | mkbubble/src/main.rs:236-243 | a reported radius of 3 or more has its whole disc in the valid set |
| `Growth.NothingTested` | mkbubble/src/main.rs:235-236 | with max_radius below 3 the result is radius 1 whatever the set |
| `Growth.RadiusTwoSkipped` | mkbubble/src/main.rs:235-236 | radius 2 is never tested: a set holding exactly the radius-2 disc still yields radius 1 |
| `Growth.Block` | mkbubble/src/main.rs:116-120 | the block of all in-bounds pixels of a width-by-height image |
| `Growth.FiveByFiveBlock` | mkbubble/src/main.rs:234-245 | on a 5-by-5 block the centre pixel grows radius 1, while pixel (1, 1) grows radius 3, because the clipped part of its disc is never tested |
| `Packing.InitialInvariant` | mkbubble/src/main.rs:133-134 | the invariant holds for the empty history: the mask is the whole foreground, with no circles and no rejected seeds |
| `Packing.ExtendRun` | mkbubble/src/main.rs:138-158 | appending the round the loop takes next keeps the history a run; the mask becomes that round's result; the circle list and the acceptance masks grow on an acceptance, and the rejected seeds grow on a rejection |
| `Packing.AccountingAccept` | mkbubble/src/main.rs:148-154 | pushing a circle grown and accepted against the mask, and removing its disc, keeps the split of the foreground and the shrinking chain of acceptance masks |
| `Packing.AccountingReject` | mkbubble/src/main.rs:141-146 | moving a mask pixel to the rejected seeds keeps the split of the foreground and adds exactly one new rejected seed |
| `Packing.AcceptPreserves` | mkbubble/src/main.rs:139-154 | when the next round's seed is the oracle's answer for the current mask and growth there reports radius 3 or more, accepting it keeps the invariant |
| `Packing.RejectPreserves` | mkbubble/src/main.rs:139-146 | when the next round's seed is the oracle's answer for the current mask and growth there reports radius 1, rejecting it (only the seed leaves the mask) keeps the invariant |
| `Packing.RunPrefix` | mkbubble/src/main.rs:138-158 | every prefix of a run is a run |
| `Packing.UnfinishedBeforeEnd` | mkbubble/src/main.rs:138-139 | before the last round of a run, the mask is never empty and the oracle always answers, so the loop cannot have stopped earlier |
| `Packing.NextRoundUnique` | mkbubble/src/main.rs:139-140 | after the same history the next round is unique: the oracle's answer fixes the seed and growth's specification fixes the circle |
| `Packing.PrefixStep` | mkbubble/src/main.rs:138-158 | two equal histories, each followed by its next round, are still equal one round later |
| `Packing.SamePrefix` | mkbubble/src/main.rs:138-158 | two runs from the same foreground and oracle agree round by round on their common length |
| `Packing.RunDetermined` | mkbubble/src/main.rs:138-158 | two finished runs from the same foreground and oracle are equal |
| `Packing.RejectedHadNoRoom` | mkbubble/src/main.rs:140-146 | every rejected seed was the seed of a round that started from a mask holding it; growth there reported radius 1, because the radius-3 disc did not fit in that mask |
| `Packing.RemovalShrinks` | mkbubble/src/main.rs:151-154 | removing the disc, which contains the seed, strictly shrinks the mask |
| `Packing.RemovePixels` | mkbubble/src/main.rs:151-154 | the result is the mask without every listed pixel, and nothing else is removed |
| `Packing.PlaceCircle` | mkbubble/src/main.rs:140-154 | the circle is growth's result at the seed; it is accepted exactly when its radius is at least 3; the new mask is the mask minus the disc (accepted) or minus the seed (rejected); the mask strictly shrinks |
| `Packing.Pack` | mkbubble/src/main.rs:133-158 | the ghost history is a run of the loop from the foreground, and it is finished: the final mask is empty or the oracle gives `None`. The returned circles are that run's accepted circles, in order, and the mask is its final mask. The foreground splits into the final mask, the accepted discs and the rejected seeds. There are at most as many rounds as foreground pixels. By `RunDetermined`, this fixes the result |
| `Packing.CoveredIff` | mkbubble/src/main.rs:148-154 | a pixel is covered exactly when it is in the disc of some accepted circle |
| `Packing.AcceptedDiscsDisjoint` | mkbubble/src/main.rs:148-154 | the discs of two different accepted circles share no pixel |
| `Packing.AcceptedDiscsInside` | mkbubble/src/main.rs:140-154 | every accepted circle has radius 3..25, lies in the initial foreground, and none of its pixels remain in the mask |
| `Packing.AcceptedCentresInBounds` | mkbubble/src/main.rs:139-148 | accepted centres are foreground pixels, so x < width and y < height |
| `Packing.ForegroundAccountedFor` | mkbubble/src/main.rs:138-158 | each foreground pixel is in the mask, in an accepted disc, or a rejected seed; a rejected seed is in neither of the others |
| `Output.Flip` | mkbubble/src/main.rs:220-224 | x and r are kept, and the new y plus the old y is the height |
| `Output.FlipAll` | mkbubble/src/main.rs:218-224 | same length and order as the circle list; entry i is `(x, height - y, r)` of circle i |
| `Output.FlipAllInvolutive` | mkbubble/src/main.rs:218-224 | flipping twice gives the circle list back |
| `Output.FlipInRange` | mkbubble/src/main.rs:221 | a centre with y < height lands on a flipped y in 1..height, with no u32 underflow |
| `Output.DigitChar` | mkbubble/src/main.rs:54 | a digit value below 10 is written as the matching decimal digit character |
| `Output.DecimalString` | mkbubble/src/main.rs:54 | a u32 is written as a non-empty string of decimal digits; a numeral of more than one digit never starts with `0` (so n >= 10 never does); with `DecimalRoundTrip` this fixes the numeral |
| `Output.CircleStrings` | mkbubble/src/main.rs:225-226 | `.map(\|c\| c.to_string()).collect()`: the same number of strings as circles, and entry i is the `[x,y,r]` text of circle i |
| `Output.DecimalCanonical` | mkbubble/src/main.rs:54 | any non-empty digit string with no leading zero (other than `0` itself) is exactly the numeral written for its value, so the written form of a u32 is the only such string |
| `Output.DecimalRoundTrip` | mkbubble/src/main.rs:54 | the digits written for n have the value n |
| `Output.ParseNatRoundTrip` | mkbubble/src/main.rs:54 | reading a number back at a non-digit boundary gives the same number and the rest of the text |
| `Output.ParseCircleRoundTrip` | mkbubble/src/main.rs:52-56 | `[x,y,r]` reads back as the same circle |
| `Output.ParseCircleListRoundTrip` | mkbubble/src/main.rs:225-228 | a non-empty `join(",")` of the triples, followed by `],`, reads back as the same circle list |
| `Output.RenderRoundTrip` | mkbubble/src/main.rs:225-228 | the printed text `[...],` determines the circle list exactly, the empty list included |
| `Output.CircleString` | mkbubble/src/main.rs:52-56 | `[x,y,r]`: at least seven characters, opening with `[` and closing with `]`; `ParseCircleRoundTrip` shows the triple reads back as the circle |
| `Output.Join` | mkbubble/src/main.rs:227 | `.join(",")`: the first part is a prefix of the result, followed by a `,` when more parts follow; `ParseCircleListRoundTrip` shows the joined triples read back as the list |
| `Output.Render` | mkbubble/src/main.rs:225-228 | `format!("[{}],", …)`: opens with `[` and ends with `],`; `RenderRoundTrip` shows the text determines the list |
| `Output.Format` | mkbubble/src/main.rs:218-228 | the printed line reads back as exactly the flipped circle list; `FormatNoCircles` and `FormatOneCircle` pin two concrete lines |
| `Output.FormatNoCircles` | mkbubble/src/main.rs:218-228 | with no circles the output is `[],` |
| `Output.FormatOneCircle` | mkbubble/src/main.rs:218-228 | circle (1, 2, 3) in an image of height 10 is printed `[[1,8,3]],` |
| `Bubble.Bubbles` | mkbubble/src/main.rs:133-229 | the circles are those of the one finished run of the loop; accepted circles have radius 3..25 and in-image centres; their discs lie in the foreground and are pairwise disjoint; the line is the formatted flipped list and reads back as exactly that list; with an oracle that always answers, every foreground pixel is covered or was a rejected seed |

## Left out

- `compute_edt` (mkbubble/src/main.rs:72-110): the OpenCV distance transform with float output. It becomes the seed parameter. The model assumes only that its answer is in the mask.
- The error fallback of `compute_edt` (mkbubble/src/main.rs:81-106): when `distance_transform` or `min_max_loc` fails, the error is only printed, and the answer is `max_loc` as it stands, which can be the default (0, 0). If (0, 0) is not in the mask, growth fails at radius 3, the `swap_remove` of the seed removes nothing, and the source loop never ends. `IsSeedOracle` excludes such answers, and the model's loop terminates because of that.
- `calculate_luminance` and the `> 0.5` threshold (mkbubble/src/main.rs:116-126, 298-304): floating point. The foreground is any finite set of in-bounds pixels (`IsForeground`).
- Image decoding, `set_num_threads`, argument parsing and `println!` (mkbubble/src/main.rs:63-70, 113-115, 229): I/O and library calls.
- `debug_img` and the debug blocks (mkbubble/src/main.rs:128-131, 160-173, 202-215, 306-323): diagnostic file output only.
- The commented-out second pass (mkbubble/src/main.rs:175-200): dead code.
- `IndexSet` iteration order and the reordering done by `swap_remove`: the mask is a `set`. The seed comes from the oracle, so the loop never depends on the order.
- Integer widths: pixel and circle components are `nat` rather than u32. The disc loops require `FitsI32`, the range where the u32-to-i32 casts keep their values and the i32 sums and squares do not overflow. The packing loop requires image sides of at most `MAX_DIMENSION` (2^31 - 25) so that every in-image centre satisfies it. The source's behaviour on larger images (wrapped casts, overflow panics) is not modelled.
- Packing.PlaceCircle: the loop body of mkbubble/src/main.rs:139-154 is written as a method that the loop calls. The `continue` after a rejection becomes the `else` branch.
- Packing.Pack: the history of rounds is a ghost output. The bound `|history| <= |targets|` is about the model's loop, because the source keeps no counter.
