/**
 * The output of the packer: each accepted circle with its y flipped to a
 * bottom origin (`height - y`), printed as `[x,y,r]`, the triples joined
 * with `,` inside `[` and `]`, followed by a trailing `,`.
 */
module Output {
  import opened Pixels

  /** `Circle { y: height - c.y, x: c.x, r: c.r }`, defined because c.y <= height. */
  function Flip(c: Circle, height: nat): (f: Circle)
    requires c.y <= height
    ensures f.x == c.x && f.r == c.r && f.y + c.y == height
  {
    Circle(c.x, height - c.y, c.r)
  }

  /** The `.map(...)` over the circle list: same length, same order, each entry flipped. */
  function {:induction false} FlipAll(circles: seq<Circle>, height: nat): (flipped: seq<Circle>)
    requires forall i :: 0 <= i < |circles| ==> circles[i].y <= height
    ensures |flipped| == |circles|
    ensures forall i :: 0 <= i < |circles| ==> flipped[i].y <= height && flipped[i] == Flip(circles[i], height)
  {
    if circles == [] then [] else [Flip(circles[0], height)] + FlipAll(circles[1..], height)
  }

  /** Flipping is its own inverse, so no circle is lost or altered by it. */
  lemma FlipAllInvolutive(circles: seq<Circle>, height: nat)
    requires forall i :: 0 <= i < |circles| ==> circles[i].y <= height
    ensures FlipAll(FlipAll(circles, height), height) == circles
  {
  }

  /** A centre inside the image lands on a flipped y in 1..height. */
  lemma FlipInRange(circles: seq<Circle>, height: nat, i: nat)
    requires forall k :: 0 <= k < |circles| ==> circles[k].y < height
    requires i < |circles|
    ensures 1 <= FlipAll(circles, height)[i].y <= height
  {
  }

  // ----- decimal rendering of u32 values (`Display` for integers) -----

  predicate IsDigit(ch: char) {
    '0' <= ch <= '9'
  }

  predicate AllDigits(s: string) {
    forall i :: 0 <= i < |s| ==> IsDigit(s[i])
  }

  function DigitChar(d: nat): (ch: char)
    requires d < 10
    ensures IsDigit(ch) && ch as int - '0' as int == d
  {
    ('0' as int + d) as char
  }

  /** The decimal numeral of n, without leading zeros. */
  function DecimalString(n: nat): (s: string)
    ensures |s| >= 1 && AllDigits(s)
    ensures n >= 10 ==> s[0] != '0'
    ensures |s| > 1 ==> s[0] != '0'
  {
    if n < 10 then [DigitChar(n)] else DecimalString(n / 10) + [DigitChar(n % 10)]
  }

  /** The value of a string of decimal digits. */
  function DigitsValue(s: string): nat
    requires AllDigits(s)
  {
    if s == [] then 0 else DigitsValue(s[..|s| - 1]) * 10 + (s[|s| - 1] as int - '0' as int)
  }

  lemma {:induction false} DecimalRoundTrip(n: nat)
    ensures DigitsValue(DecimalString(n)) == n
  {
    if n >= 10 {
      var s := DecimalString(n);
      assert s[..|s| - 1] == DecimalString(n / 10);
      DecimalRoundTrip(n / 10);
    }
  }

  /** A digit string that opens with a non-zero digit has a positive value. */
  lemma {:induction false} LeadingDigitPositive(s: string)
    requires AllDigits(s) && |s| >= 1 && s[0] != '0'
    ensures DigitsValue(s) >= 1
  {
    if |s| > 1 {
      LeadingDigitPositive(s[..|s| - 1]);
    }
  }

  /**
   * The numeral is canonical: a non-empty digit string with no leading
   * zero (other than "0" itself) is the numeral DecimalString of its value.
   */
  lemma {:induction false} DecimalCanonical(s: string)
    requires AllDigits(s) && |s| >= 1
    requires |s| > 1 ==> s[0] != '0'
    ensures s == DecimalString(DigitsValue(s))
  {
    var init, d := s[..|s| - 1], s[|s| - 1] as int - '0' as int;
    if |s| > 1 {
      LeadingDigitPositive(init);
      DecimalCanonical(init);
      var n := DigitsValue(s);
      assert n / 10 == DigitsValue(init) && n % 10 == d;
      assert s == init + [s[|s| - 1]];
    }
  }

  /** `[x,y,r]`, as the `Display` implementation of `Circle` writes it. */
  function CircleString(c: Circle): (s: string)
    ensures |s| >= 7 && s[0] == '[' && s[|s| - 1] == ']'
  {
    "[" + DecimalString(c.x) + "," + DecimalString(c.y) + "," + DecimalString(c.r) + "]"
  }

  /** `.join(",")`: the first part comes first, followed by a comma when more parts follow. */
  function Join(parts: seq<string>): (s: string)
    ensures |parts| > 0 ==> parts[0] <= s
    ensures |parts| > 1 ==> |parts[0]| < |s| && s[|parts[0]|] == ','
  {
    if |parts| == 0 then "" else if |parts| == 1 then parts[0] else parts[0] + "," + Join(parts[1..])
  }

  function CircleStrings(circles: seq<Circle>): (parts: seq<string>)
    ensures |parts| == |circles|
    ensures forall i :: 0 <= i < |circles| ==> parts[i] == CircleString(circles[i])
  {
    if circles == [] then [] else [CircleString(circles[0])] + CircleStrings(circles[1..])
  }

  /** `format!("[{}],", circle_fmt)`. */
  function Render(circles: seq<Circle>): (s: string)
    ensures |s| >= 3 && s[0] == '[' && s[|s| - 2..] == "],"
  {
    "[" + Join(CircleStrings(circles)) + "],"
  }

  /**
   * Formats the accepted circles of an image of the given height; the
   * line reads back as exactly the flipped circles.
   */
  function Format(circles: seq<Circle>, height: nat): (line: string)
    requires forall i :: 0 <= i < |circles| ==> circles[i].y <= height
    ensures ParseOutput(line) == Some(FlipAll(circles, height))
  {
    var flipped := FlipAll(circles, height);
    RenderRoundTrip(flipped);
    Render(flipped)
  }

  lemma FormatNoCircles(height: nat)
    ensures Format([], height) == "[],"
  {
  }

  lemma FormatOneCircle()
    ensures Format([Circle(1, 2, 3)], 10) == "[[1,8,3]],"
  {
    assert FlipAll([Circle(1, 2, 3)], 10) == [Circle(1, 8, 3)];
    assert CircleString(Circle(1, 8, 3)) == "[1,8,3]";
    assert CircleStrings([Circle(1, 8, 3)]) == ["[1,8,3]"];
    assert Render([Circle(1, 8, 3)]) == "[[1,8,3]],";
  }

  // ----- reading the output back -----

  /** The length of the longest prefix of s made of digits. */
  function DigitPrefix(s: string): (k: nat)
    ensures k <= |s| && AllDigits(s[..k])
    ensures k < |s| ==> !IsDigit(s[k])
  {
    if s == [] || !IsDigit(s[0]) then 0 else 1 + DigitPrefix(s[1..])
  }

  function ParseNat(s: string): (res: Option<(nat, string)>)
    ensures res.Some? ==> |res.value.1| < |s|
  {
    var k := DigitPrefix(s);
    if k == 0 then None else Some((DigitsValue(s[..k]), s[k..]))
  }

  function Expect(ch: char, s: string): (res: Option<string>)
    ensures res.Some? ==> |res.value| < |s|
  {
    if |s| > 0 && s[0] == ch then Some(s[1..]) else None
  }

  /** A number followed by the separator sep. */
  function ParseField(s: string, sep: char): (res: Option<(nat, string)>)
    ensures res.Some? ==> |res.value.1| < |s|
  {
    match ParseNat(s)
    case None => None
    case Some((n, rest)) =>
      match Expect(sep, rest)
      case None => None
      case Some(rest') => Some((n, rest'))
  }

  /** `[x,y,r]` at the start of s. */
  function ParseCircle(s: string): (res: Option<(Circle, string)>)
    ensures res.Some? ==> |res.value.1| < |s|
  {
    match Expect('[', s)
    case None => None
    case Some(s1) =>
      match ParseField(s1, ',')
      case None => None
      case Some((x, s2)) =>
        match ParseField(s2, ',')
        case None => None
        case Some((y, s3)) =>
          match ParseField(s3, ']')
          case None => None
          case Some((r, s4)) => Some((Circle(x, y, r), s4))
  }

  /** Circles separated by `,` and followed by the closing `],`. */
  function ParseCircleList(s: string): Option<seq<Circle>>
    decreases |s|
  {
    match ParseCircle(s)
    case None => None
    case Some((c, rest)) =>
      if rest == "]," then Some([c])
      else if |rest| > 0 && rest[0] == ',' then
        match ParseCircleList(rest[1..])
        case None => None
        case Some(cs) => Some([c] + cs)
      else None
  }

  /** Reads back what Render writes. */
  function ParseOutput(s: string): Option<seq<Circle>> {
    if s == "[]," then Some([])
    else if |s| > 0 && s[0] == '[' then ParseCircleList(s[1..])
    else None
  }

  lemma {:induction false} DigitPrefixOfDigits(d: string, rest: string)
    requires AllDigits(d)
    requires rest == [] || !IsDigit(rest[0])
    ensures DigitPrefix(d + rest) == |d|
  {
    if d != [] {
      assert (d + rest)[1..] == d[1..] + rest;
      DigitPrefixOfDigits(d[1..], rest);
    }
  }

  lemma ParseNatRoundTrip(n: nat, rest: string)
    requires rest == [] || !IsDigit(rest[0])
    ensures ParseNat(DecimalString(n) + rest) == Some((n, rest))
  {
    var d := DecimalString(n);
    DigitPrefixOfDigits(d, rest);
    assert (d + rest)[..|d|] == d && (d + rest)[|d|..] == rest;
    DecimalRoundTrip(n);
  }

  lemma ParseFieldRoundTrip(n: nat, sep: char, rest: string)
    requires !IsDigit(sep)
    ensures ParseField(DecimalString(n) + [sep] + rest, sep) == Some((n, rest))
  {
    assert DecimalString(n) + [sep] + rest == DecimalString(n) + ([sep] + rest);
    ParseNatRoundTrip(n, [sep] + rest);
    assert ([sep] + rest)[1..] == rest;
  }

  lemma ParseCircleRoundTrip(c: Circle, rest: string)
    ensures ParseCircle(CircleString(c) + rest) == Some((c, rest))
  {
    var t3 := DecimalString(c.r) + "]" + rest;
    var t2 := DecimalString(c.y) + "," + t3;
    var t1 := DecimalString(c.x) + "," + t2;
    assert CircleString(c) + rest == "[" + t1;
    assert Expect('[', "[" + t1) == Some(t1);
    ParseFieldRoundTrip(c.x, ',', t2);
    ParseFieldRoundTrip(c.y, ',', t3);
    ParseFieldRoundTrip(c.r, ']', rest);
  }

  lemma ParseLastCircle(c: Circle)
    ensures ParseCircleList(CircleString(c) + "],") == Some([c])
  {
    ParseCircleRoundTrip(c, "],");
  }

  lemma ParseNextCircle(c: Circle, tail: string, cs: seq<Circle>)
    requires ParseCircleList(tail) == Some(cs)
    ensures ParseCircleList(CircleString(c) + ("," + tail)) == Some([c] + cs)
  {
    ParseCircleRoundTrip(c, "," + tail);
    assert ("," + tail)[1..] == tail;
  }

  lemma {:induction false} ParseCircleListRoundTrip(circles: seq<Circle>)
    requires circles != []
    ensures ParseCircleList(Join(CircleStrings(circles)) + "],") == Some(circles)
  {
    var head, rest := circles[0], circles[1..];
    assert circles == [head] + rest;
    if rest == [] {
      assert circles == [head];
      assert Join(CircleStrings(circles)) + "]," == CircleString(head) + "],";
      ParseLastCircle(head);
    } else {
      var tail := Join(CircleStrings(rest)) + "],";
      assert Join(CircleStrings(circles)) + "]," == CircleString(head) + ("," + tail) by {
        assert CircleStrings(circles) == [CircleString(head)] + CircleStrings(rest);
      }
      ParseCircleListRoundTrip(rest);
      ParseNextCircle(head, tail, rest);
    }
  }

  /** The printed line determines the circle list: Render loses nothing. */
  lemma RenderRoundTrip(circles: seq<Circle>)
    ensures ParseOutput(Render(circles)) == Some(circles)
  {
    var s := Render(circles);
    if circles != [] {
      var body := Join(CircleStrings(circles)) + "],";
      assert s == "[" + body && s[1..] == body;
      ParseCircleListRoundTrip(circles);
      assert CircleStrings(circles)[0] == CircleString(circles[0]);
      assert s[1] == '[';
    }
  }
}
