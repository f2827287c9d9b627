/**
 * Pixels, longitudes and latitudes of the map widget (cheshire2/mapwidget.c), in whole
 * seconds of arc and with C's truncating division.
 */
module MapCoords {
  import opened Basics
  import opened Scanning

  const QSPAN: int := 90 * 3600
  const HSPAN: int := QSPAN * 2
  const WSPAN: int := QSPAN * 4
  const ADJPIX: int := 5500

  function Abs(n: int): (r: nat)
    ensures r == n || r == -n
  {
    if n < 0 then -n else n
  }

  /** C's `/`: towards zero. */
  function Quot(a: int, b: int): (q: int)
    requires b > 0
  {
    if a >= 0 then a / b else -((-a) / b)
  }

  /** C's `%`: the sign of the dividend. */
  function Rem(a: int, b: int): (r: int)
    requires b > 0
  {
    a - b * Quot(a, b)
  }

  lemma QuotBounds(a: int, b: int)
    requires b > 0
    ensures a >= 0 ==> Quot(a, b) >= 0 && b * Quot(a, b) <= a < b * Quot(a, b) + b
    ensures a <= 0 ==> Quot(a, b) <= 0 && b * Quot(a, b) - b < a <= b * Quot(a, b)
  {
    if a >= 0 {
      DivBounds(a, b);
    } else {
      DivBounds(-a, b);
      assert b * -((-a) / b) == -(b * ((-a) / b));
    }
  }

  lemma DivBounds(a: nat, b: int)
    requires b > 0
    ensures 0 <= a / b && b * (a / b) <= a < b * (a / b) + b
  {
    assert a == b * (a / b) + a % b;
  }

  /** The part of the widget's state the conversions read. */
  datatype View = View(width: nat, height: nat, longitude: int, latitude: int, xScale: int, yScale: int,
                       xmin: int, xmax: int, ymin: int, ymax: int)
  {
    predicate Valid() {
      -HSPAN <= longitude <= HSPAN && -QSPAN <= latitude <= QSPAN && xScale > 0 && yScale > 0
    }
    function MidX(): int { width / 2 }
    function MidY(): int { height / 2 }
  }

  function Wrap(v: int): (r: int) {
    if v < -HSPAN then v + WSPAN else if v > HSPAN then v - WSPAN else v
  }

  /** Whole degrees, minutes and seconds of a size, cut off at `top` degrees. */
  function Capped(size: nat, top: nat): (r: nat) {
    if size / 3600 >= top then top * 3600 else size / 3600 * 3600 + size % 3600 / 60 * 60 + size % 3600 % 60
  }

  function RawLong(m: View, x: int): int
    requires m.xScale > 0
  {
    m.longitude + Quot(ADJPIX * (x - m.MidX()), m.xScale)
  }

  function GetPixLong(m: View, x: int): (r: int)
    requires m.xScale > 0
  {
    var v := Wrap(RawLong(m, x));
    if v < 0 then -(Capped(-v, 180) as int) else Capped(v, 180)
  }

  function RawLat(m: View, y: int): int
    requires m.yScale > 0
  {
    m.latitude - Quot(ADJPIX * (y - m.MidY()), m.yScale)
  }

  function GetPixLat(m: View, y: int): (r: int)
    requires m.yScale > 0
  {
    var v := RawLat(m, y);
    if v < 0 then -(Capped(-v, 90) as int) else Capped(v, 90)
  }

  lemma CappedIsMin(size: nat, top: nat)
    ensures Capped(size, top) == if size < top * 3600 then size else top * 3600
  {
  }

  /** Longitudes lie within 180 degrees either way, whatever the pixel. */
  lemma LongitudeInRange(m: View, x: int)
    requires m.xScale > 0
    ensures -HSPAN <= GetPixLong(m, x) <= HSPAN
  {
    var v := Wrap(RawLong(m, x));
    CappedIsMin(Abs(v), 180);
  }

  /** The result names the same meridian as the raw value exactly up to one and a half turns out. */
  lemma LongitudeCongruentIff(m: View, x: int)
    requires m.xScale > 0
    ensures var raw := RawLong(m, x);
            (GetPixLong(m, x) - raw) % WSPAN == 0 <==> -3 * HSPAN <= raw <= 3 * HSPAN || (raw - HSPAN) % WSPAN == 0
  {
    var raw := RawLong(m, x);
    var v := Wrap(raw);
    CappedIsMin(Abs(v), 180);
    CongruentIff(raw);
  }

  lemma CongruentIff(raw: int)
    ensures var v := Wrap(raw);
            var r := if v < -HSPAN then -HSPAN else if v > HSPAN then HSPAN else v;
            (r - raw) % WSPAN == 0 <==> -3 * HSPAN <= raw <= 3 * HSPAN || (raw - HSPAN) % WSPAN == 0
  {
    var v := Wrap(raw);
    if v > HSPAN {
      assert raw > 3 * HSPAN;
      assert (HSPAN - raw) % WSPAN == 0 <==> (raw - HSPAN) % WSPAN == 0;
    } else if v < -HSPAN {
      assert raw < -3 * HSPAN;
      assert (-HSPAN - raw) % WSPAN == 0 <==> (raw - HSPAN) % WSPAN == 0 by {
        assert -HSPAN - raw == -(raw - HSPAN) - WSPAN;
      }
    }
  }

  /** Latitudes are the raw value cut off at the poles. */
  lemma LatitudeClamped(m: View, y: int)
    requires m.yScale > 0
    ensures var raw := RawLat(m, y);
            GetPixLat(m, y) == if raw < -QSPAN then -QSPAN else if raw > QSPAN then QSPAN else raw
  {
    CappedIsMin(Abs(RawLat(m, y)), 90);
  }

  // ------------------------------------------------------------------ back to pixels

  datatype Pixel = Outside | At(x: int, y: int)

  /** `GetMapXYCmd` on parsed coordinates. */
  function GetXY(m: View, lat: int, lon: int): (p: Pixel) {
    var x := Wrap(lon - m.longitude);
    var y := lat - m.latitude;
    if x < m.xmin || x > m.xmax || y < m.ymin || y > m.ymax then Outside
    else At(m.MidX() + Quot(x * m.xScale, ADJPIX), m.MidY() - Quot(y * m.yScale, ADJPIX))
  }

  /** The centre of the window is the centre of the map. */
  lemma CentreIsCentre(m: View)
    requires m.Valid()
    ensures GetPixLong(m, m.MidX()) == m.longitude && GetPixLat(m, m.MidY()) == m.latitude
    ensures m.xmin <= 0 <= m.xmax && m.ymin <= 0 <= m.ymax ==>
              GetXY(m, m.latitude, m.longitude) == At(m.MidX(), m.MidY())
  {
    CappedIsMin(Abs(m.longitude), 180);
    CappedIsMin(Abs(m.latitude), 90);
    assert ADJPIX * 0 == 0 && 0 * m.xScale == 0 && 0 * m.yScale == 0;
  }

  /** Further right is further east, further down further south, by 5500 seconds for `scale` pixels. */
  lemma PixelScale(m: View, x: int, y: int)
    requires m.Valid()
    ensures var east := RawLong(m, x) - m.longitude;
            if x >= m.MidX() then 0 <= ADJPIX * (x - m.MidX()) - m.xScale * east < m.xScale && east >= 0
            else 0 <= m.xScale * east - ADJPIX * (x - m.MidX()) < m.xScale && east <= 0
    ensures var south := m.latitude - RawLat(m, y);
            if y >= m.MidY() then 0 <= ADJPIX * (y - m.MidY()) - m.yScale * south < m.yScale && south >= 0
            else 0 <= m.yScale * south - ADJPIX * (y - m.MidY()) < m.yScale && south <= 0
  {
    hide Quot;
    QuotBounds(ADJPIX * (x - m.MidX()), m.xScale);
    QuotBounds(ADJPIX * (y - m.MidY()), m.yScale);
  }

  /** A point less than half a turn east or west of the centre is drawn exactly if it lies in the drawn area. */
  lemma DrawnIff(m: View, east: int, north: int)
    requires m.Valid() && -HSPAN < east < HSPAN
    ensures var p := GetXY(m, m.latitude + north, Wrap(m.longitude + east));
            && (p.At? <==> m.xmin <= east <= m.xmax && m.ymin <= north <= m.ymax)
            && (p.At? && east >= 0 ==> 0 <= m.xScale * east - ADJPIX * (p.x - m.MidX()) < ADJPIX)
            && (p.At? && east < 0 ==> 0 <= ADJPIX * (p.x - m.MidX()) - m.xScale * east < ADJPIX)
            && (p.At? && north >= 0 ==> 0 <= m.yScale * north - ADJPIX * (m.MidY() - p.y) < ADJPIX)
            && (p.At? && north < 0 ==> 0 <= ADJPIX * (m.MidY() - p.y) - m.yScale * north < ADJPIX)
  {
    hide Quot;
    assert Wrap(Wrap(m.longitude + east) - m.longitude) == east;
    SignKept(east, m.xScale);
    SignKept(north, m.yScale);
    QuotBounds(east * m.xScale, ADJPIX);
    QuotBounds(north * m.yScale, ADJPIX);
  }

  lemma SignKept(a: int, b: int)
    requires b > 0
    ensures (a >= 0 ==> a * b >= 0) && (a <= 0 ==> a * b <= 0)
  {
  }

  /** The offset from the centre survives the trip round the globe exactly in these cases. */
  lemma OffsetSurvivesIff(m: View, x: int)
    requires m.Valid()
    ensures var d := Quot(ADJPIX * (x - m.MidX()), m.xScale);
            Wrap(GetPixLong(m, x) - m.longitude) == d <==>
            -HSPAN < d < HSPAN || (d == HSPAN && m.longitude <= 0) || (d == -HSPAN && m.longitude >= 0)
  {
    var d := Quot(ADJPIX * (x - m.MidX()), m.xScale);
    CappedIsMin(Abs(Wrap(m.longitude + d)), 180);
  }

  /** Two truncating divisions by way of `scale`: never outwards, and inwards by little. */
  lemma ThereAndBack(k: int, scale: int)
    requires scale > 0
    ensures var back := Quot(Quot(ADJPIX * k, scale) * scale, ADJPIX);
            && (k >= 0 ==> 0 <= back <= k) && (k <= 0 ==> k <= back <= 0)
            && Abs(k) - Abs(back) <= (scale - 1 + ADJPIX - 1) / ADJPIX
  {
    var d := Quot(ADJPIX * k, scale);
    QuotBounds(ADJPIX * k, scale);
    QuotBounds(d * scale, ADJPIX);
  }

  /** `after` is `before` moved towards `mid` by at most `slack`, and not past it. */
  predicate MovedIn(before: int, after: int, mid: int, slack: int) {
    && (before >= mid ==> mid <= after <= before)
    && (before <= mid ==> before <= after <= mid)
    && Abs(before - mid) - Abs(after - mid) <= slack
  }

  function Slack(scale: int): int
    requires scale > 0
  {
    (scale - 1 + ADJPIX - 1) / ADJPIX
  }

  /**
   * Pixel to coordinates and back, across the date line too: as long as the point is less
   * than half a turn from the centre, short of the poles and inside the drawn area, it
   * comes back inside the drawn area, never further out and at most the slack further in.
   */
  lemma PixelRoundTrip(m: View, x: int, y: int)
    requires m.Valid()
    requires -HSPAN < Quot(ADJPIX * (x - m.MidX()), m.xScale) < HSPAN && -QSPAN <= RawLat(m, y) <= QSPAN
    requires m.xmin <= Quot(ADJPIX * (x - m.MidX()), m.xScale) <= m.xmax
    requires m.ymin <= RawLat(m, y) - m.latitude <= m.ymax
    ensures var p := GetXY(m, GetPixLat(m, y), GetPixLong(m, x));
            p.At? && MovedIn(x, p.x, m.MidX(), Slack(m.xScale)) && MovedIn(y, p.y, m.MidY(), Slack(m.yScale))
  {
    hide GetPixLong, GetPixLat, Wrap, Quot;
    OffsetSurvivesIff(m, x);
    LatitudeClamped(m, y);
    ThereAndBack(x - m.MidX(), m.xScale);
    ThereAndBack(y - m.MidY(), m.yScale);
    var d := Quot(ADJPIX * (y - m.MidY()), m.yScale);
    QuotOdd(d * m.yScale, ADJPIX);
    assert -d * m.yScale == -(d * m.yScale);
  }

  lemma QuotOdd(a: int, b: int)
    requires b > 0
    ensures Quot(-a, b) == -Quot(a, b)
  {
  }

  // ------------------------------------------------------- degrees, minutes, seconds

  /** A coordinate as `%do%d'%d''%c` prints its three numbers and its letter. */
  function Print(deg: nat, min: nat, sec: nat, letter: char): (s: string) {
    Decimal(deg) + ("o" + (Decimal(min) + ("'" + (Decimal(sec) + ("''" + [letter])))))
  }

  datatype Axis = Lat | Lon

  function Letter(axis: Axis, positive: bool): char {
    match axis
    case Lat => if positive then 'N' else 'S'
    case Lon => if positive then 'E' else 'W'
  }

  /** The `getlatlon` formatter. */
  function Format(axis: Axis, v: int): (s: string) {
    Print(Abs(Quot(v, 3600)), Abs(Quot(Rem(v, 3600), 60)), Abs(Rem(Rem(v, 3600), 60)), Letter(axis, v > 0))
  }

  /** The `centerpixel` formatter for longitudes, which takes its seconds modulo 600. */
  function FormatCentre(v: int): (s: string) {
    var size := Abs(v);
    Print(size / 3600, size % 3600 / 60, size % 3600 % 600, Letter(Lon, v >= 0))
  }

  /** A number, then the literal text after it; `NoMatch` if either is missing. */
  function ScanThen(s: string, p: nat, literal: string): (r: Scan)
    requires p <= |s|
    ensures r.Match? ==> r.next <= |s|
  {
    var n := ScanInt(s, p, |s|);
    if n.Match? && n.next + |literal| <= |s| && s[n.next..n.next + |literal|] == literal
    then Match(n.value, n.next + |literal|)
    else NoMatch
  }

  function Limit(value: int, top: int): int {
    if value > top then top else value
  }

  /** The checks and signs after a successful conversion. */
  function Directed(deg: int, min: int, sec: int, dir: char): (v: int) {
    var sign := if deg < 0 then -1 else 1;
    var value := Abs(deg) * 3600 + min * 60 + sec;
    if dir == 'S' || dir == 's' then -Limit(value, 90 * 3600)
    else if dir == 'N' || dir == 'n' then sign * Limit(value, 90 * 3600)
    else if dir == 'W' || dir == 'w' then -Limit(value, 180 * 3600)
    else if dir == 'E' || dir == 'e' then sign * Limit(value, 180 * 3600)
    else sign * value
  }

  /** `ParseMapCoord`: 0 unless all four conversions succeed. */
  function Parse(s: string): (v: int) {
    var deg := ScanThen(s, 0, "o");
    if deg == NoMatch then 0
    else
      var min := ScanThen(s, deg.next, "'");
      if min == NoMatch then 0
      else
        var sec := ScanThen(s, min.next, "''");
        if sec == NoMatch || sec.next == |s| then 0
        else Directed(deg.value, min.value, sec.value, s[sec.next])
  }

  /** How far a letter lets a coordinate go; any other letter sets no limit. */
  function Top(dir: char, value: int): int {
    if dir in "NnSs" then QSPAN else if dir in "EeWw" then HSPAN else value
  }

  /** Seconds of arc, limited by the letter in either case, and negative for south, west and minus. */
  lemma DirectedMeans(deg: int, min: int, sec: int, dir: char)
    ensures var value := Abs(deg) * 3600 + min * 60 + sec;
            var size := if value <= Top(dir, value) then value else Top(dir, value);
            Directed(deg, min, sec, dir) == if deg < 0 || dir in "SsWw" then -size else size
    ensures Directed(deg, min, sec, LowerCase(dir)) == Directed(deg, min, sec, dir)
  {
  }

  lemma ScanPrinted(pre: string, n: nat, literal: string, rest: string)
    requires literal != [] && !IsDigit(literal[0])
    ensures ScanThen(pre + (Decimal(n) + (literal + rest)), |pre|, literal)
         == Match(n, |pre| + |Decimal(n)| + |literal|)
  {
    hide Decimal, Value, ScanInt, AllDigits;
    var s, q := pre + (Decimal(n) + (literal + rest)), |pre| + |Decimal(n)|;
    assert s[|pre|..q] == Decimal(n);
    assert s[q..q + |literal|] == literal && s[q] == literal[0];
    ScanDigits(s, |pre|, |s|, q);
    DecimalValue(n);
  }

  lemma ParseSteps(s: string, deg: Scan, min: Scan, sec: Scan)
    requires deg == ScanThen(s, 0, "o") && deg.Match? && min == ScanThen(s, deg.next, "'") && min.Match?
    requires sec == ScanThen(s, min.next, "''") && sec.Match? && sec.next < |s|
    ensures Parse(s) == Directed(deg.value, min.value, sec.value, s[sec.next])
  {
    hide ScanThen, Directed;
  }

  lemma PrintEnds(head: string, c: string, letter: char)
    ensures var s := head + (c + ("''" + [letter])); var n := |head| + |c| + 2; n + 1 == |s| && s[n] == letter
  {
  }

  /** A specification without all its marks is 0. */
  lemma ParseNeedsMarks(s: string)
    requires 'o' !in s || '\'' !in s
    ensures Parse(s) == 0
  {
    hide ScanInt;
    MarkInside(s, 0, "o");
    var deg := ScanThen(s, 0, "o");
    if deg.Match? {
      MarkInside(s, deg.next, "'");
    }
  }

  lemma MarkInside(s: string, p: nat, literal: string)
    requires p <= |s| && literal != []
    ensures ScanThen(s, p, literal).Match? ==> literal[0] in s
  {
    hide ScanInt;
    var n := ScanInt(s, p, |s|);
    if ScanThen(s, p, literal).Match? {
      assert s[n.next] == s[n.next..n.next + |literal|][0] == literal[0];
    }
  }

  /** Nor is anything read without the letter at the end. */
  lemma ParseNeedsLetter(deg: nat, min: nat, sec: nat)
    ensures Parse(Decimal(deg) + ("o" + (Decimal(min) + ("'" + (Decimal(sec) + "''"))))) == 0
  {
    hide Decimal, ScanThen, Directed;
    var a, b, c := Decimal(deg), Decimal(min), Decimal(sec);
    var third := c + "''";
    var second := b + ("'" + third);
    var s := a + ("o" + second);
    ScanPrinted([], deg, "o", second);
    assert [] + s == s;
    var p := a + "o";
    assert p + second == s;
    ScanPrinted(p, min, "'", third);
    var q := p + b + "'";
    assert q + third == s;
    assert "''" + [] == "''";
    ScanPrinted(q, sec, "''", []);
  }

  lemma PrintLooks()
    ensures Print(37, 5, 0, 'N') == "37o5'0''N"
  {
    assert Decimal(37) == Decimal(3) + [Digit(7)];
  }

  /** What is printed is what is parsed. */
  lemma ParsePrint(deg: nat, min: nat, sec: nat, letter: char)
    ensures Parse(Print(deg, min, sec, letter)) == Directed(deg, min, sec, letter)
  {
    hide Decimal, ScanThen, Directed, Parse;
    var a, b, c := Decimal(deg), Decimal(min), Decimal(sec);
    var third := c + ("''" + [letter]);
    var second := b + ("'" + third);
    var s := a + ("o" + second);
    ScanPrinted([], deg, "o", second);
    assert [] + s == s;
    var p := a + "o";
    assert p + second == s;
    ScanPrinted(p, min, "'", third);
    var q := p + b + "'";
    assert q + third == s;
    ScanPrinted(q, sec, "''", [letter]);
    PrintEnds(q, c, letter);
    ParseSteps(s, Match(deg, |p|), Match(min, |q|), Match(sec, |q| + |c| + 2));
  }

  /** Every longitude and every latitude the widget computes reads back to the second. */
  lemma FormatRoundTrip(axis: Axis, v: int)
    requires axis == Lat ==> -QSPAN <= v <= QSPAN
    requires axis == Lon ==> -HSPAN <= v <= HSPAN
    ensures Parse(Format(axis, v)) == v
  {
    hide Parse, Print;
    var deg, min, sec := Abs(Quot(v, 3600)), Abs(Quot(Rem(v, 3600), 60)), Abs(Rem(Rem(v, 3600), 60));
    ParsePrint(deg, min, sec, Letter(axis, v > 0));
    Recombine(v);
  }

  lemma Recombine(v: int)
    ensures Abs(Quot(v, 3600)) * 3600 + Abs(Quot(Rem(v, 3600), 60)) * 60 + Abs(Rem(Rem(v, 3600), 60)) == Abs(v)
  {
  }

  /** The centre's longitude string reads back exactly when its minutes are a multiple of ten. */
  lemma CentreRoundTripIff(v: int)
    requires -HSPAN <= v <= HSPAN
    ensures Parse(FormatCentre(v)) == v <==> Abs(v) % 3600 / 60 % 10 == 0
  {
    hide Parse, Print;
    var size := Abs(v);
    var rem := size % 3600;
    ParsePrint(size / 3600, rem / 60, rem % 600, Letter(Lon, v >= 0));
    TenMinutes(rem);
  }

  lemma TenMinutes(rem: nat)
    ensures rem / 60 * 60 + rem % 600 == rem <==> rem / 60 % 10 == 0
    ensures rem / 60 * 60 + rem % 600 >= rem
  {
    var t, r := rem / 600, rem % 600;
    var u, s := r / 60, r % 60;
    assert rem == 60 * (10 * t + u) + s;
    Sixty(rem, 10 * t + u, s);
    Ten(rem / 60, t, u);
  }

  lemma Sixty(a: nat, q: nat, r: nat)
    requires a == 60 * q + r && r < 60
    ensures a / 60 == q
  {
  }

  lemma Ten(a: nat, q: nat, r: nat)
    requires a == 10 * q + r && r < 10
    ensures a % 10 == r
  {
  }
}
