/** The text form of polygon columns: printing with six decimals and ring closing, and scanning. */
module Polygon {
  import opened Common
  import opened Decimal

  type Size = x: real | x >= 0.0

  /** A finite float64: a sign, which zero has too, and a size. */
  datatype Float = Float(negative: bool, size: Size)

  datatype Point = Point(lon: Float, lat: Float)

  /** Go's == on floats: the two zeros are equal. */
  predicate Same(a: Float, b: Float) {
    a.size == b.size && (a.negative == b.negative || a.size == 0.0)
  }

  // ---------- printing ----------

  const MICRO := 1000000

  /** The nearest integer; halfway between two, the even one. */
  function RoundHalfEven(y: real): (k: int)
    ensures y >= 0.0 ==> k >= 0
  {
    var k := y.Floor;
    if y - k as real < 0.5 || (y - k as real == 0.5 && k % 2 == 0) then k else k + 1
  }

  /** %f: six decimals. */
  function Fixed(x: Float): string {
    if x.negative then "-" + FixedAbs(x.size) else FixedAbs(x.size)
  }

  function FixedAbs(x: Size): string {
    var k := RoundHalfEven(x * 1000000.0);
    Dec(k / MICRO) + "." + Padded(k % MICRO, 6)
  }

  predicate SamePoint(a: Point, b: Point) {
    Same(a.lon, b.lon) && Same(a.lat, b.lat)
  }

  /** A closing point equal to the first one is dropped. */
  function Opened(points: seq<Point>): seq<Point> {
    if points != [] && SamePoint(points[0], points[|points| - 1]) then points[..|points| - 1] else points
  }

  function Closed(ring: seq<Point>): seq<Point>
    requires ring != []
  {
    ring + [ring[0]]
  }

  function PointText(p: Point): string {
    "(" + Fixed(p.lon) + ", " + Fixed(p.lat) + ")"
  }

  function PointsText(points: seq<Point>): string {
    if points == [] then ""
    else if |points| == 1 then PointText(points[0])
    else PointText(points[0]) + "," + PointsText(points[1..])
  }

  /** The text of formatPoints: empty, with an ignored error, for fewer than three points. */
  function FormatPoints(points: seq<Point>): string {
    if |Opened(points)| < 3 then "" else PointsText(Closed(Opened(points)))
  }

  function GormValue(points: seq<Point>): string {
    "(" + FormatPoints(points) + ")"
  }

  lemma PointsTextStep(points: seq<Point>, last: Point)
    requires points != []
    ensures PointsText(points + [last]) == PointText(points[0]) + "," + PointsText(points[1..] + [last])
  {
    assert (points + [last])[1..] == points[1..] + [last];
  }

  method FormatPointsLoop(polygonPoints: seq<Point>) returns (points: string, failed: bool)
    ensures points == FormatPoints(polygonPoints)
    ensures failed <==> |Opened(polygonPoints)| < 3
  {
    hide PointText;
    var point := polygonPoints;
    if |point| > 0 && Same(point[0].lon, point[|point| - 1].lon) && Same(point[0].lat, point[|point| - 1].lat) {
      point := point[..|point| - 1];
    }
    if |point| < 3 {
      return "", true;
    }
    points := "";
    for i := 0 to |point|
      invariant PointsText(Closed(point)) == points + PointsText(point[i..] + [point[0]])
    {
      PointsTextStep(point[i..], point[0]);
      assert point[i..][1..] == point[i + 1..];
      assert points + (PointText(point[i]) + "," + PointsText(point[i + 1..] + [point[0]]))
          == (points + PointText(point[i]) + ",") + PointsText(point[i + 1..] + [point[0]]);
      points := points + PointText(point[i]) + ",";
    }
    points := points + PointText(point[0]);
    failed := false;
  }

  // ---------- scanning ----------

  function Brackets(s: string): string {
    if s == "" then ""
    else [if s[0] == '(' then '[' else if s[0] == ')' then ']' else s[0]] + Brackets(s[1..])
  }

  /** Parentheses become brackets; everything else stays. */
  lemma {:induction false} BracketsAt(s: string)
    ensures |Brackets(s)| == |s|
    ensures forall i | 0 <= i < |s| ::
              Brackets(s)[i] == if s[i] == '(' then '[' else if s[i] == ')' then ']' else s[i]
  {
    if s != "" { BracketsAt(s[1..]); }
  }

  datatype Parsed<T> = Bad | Ok(value: T, rest: string)

  predicate IsSpace(c: char) { c == ' ' || c == '\t' || c == '\n' || c == '\r' }

  function SkipSpace(s: string): (r: string)
    ensures |r| <= |s| && (r != "" ==> !IsSpace(r[0]))
  {
    if s != "" && IsSpace(s[0]) then SkipSpace(s[1..]) else s
  }

  predicate IsExponent(c: char) { c == 'e' || c == 'E' }

  predicate InNumber(c: char) { IsDigit(c) || IsExponent(c) || c == '-' || c == '+' || c == '.' }

  function NumberLength(s: string): (n: nat)
    ensures n <= |s|
  {
    if s != "" && InNumber(s[0]) then 1 + NumberLength(s[1..]) else 0
  }

  /** Digits with no superfluous leading zero. */
  predicate IsWhole(s: string) {
    s != "" && AllDigits(s) && (s[0] == '0' ==> |s| == 1)
  }

  function PointIndex(s: string): (i: nat)
    ensures i <= |s| && (i < |s| ==> s[i] == '.') && forall j | 0 <= j < i :: s[j] != '.'
  {
    if s == "" || s[0] == '.' then 0 else 1 + PointIndex(s[1..])
  }

  function ExponentIndex(s: string): (i: nat)
    ensures i <= |s| && (i < |s| ==> IsExponent(s[i])) && forall j | 0 <= j < i :: !IsExponent(s[j])
  {
    if s == "" || IsExponent(s[0]) then 0 else 1 + ExponentIndex(s[1..])
  }

  /** A JSON number. */
  function Number(s: string): Option<Float> {
    var negative := s != "" && s[0] == '-';
    match Unsigned(if negative then s[1..] else s)
    case None => None
    case Some(x) => Some(Float(negative, x))
  }

  function Unsigned(s: string): Option<Size> {
    var i := ExponentIndex(s);
    if i == |s| then Mantissa(s)
    else
      match Mantissa(s[..i])
      case None => None
      case Some(x) => Scaled(x, s[i + 1..])
  }

  function Times(x: Size, n: nat): Size {
    x * n as real
  }

  function Over(x: Size, n: nat): Size
    requires n > 0
  {
    x / n as real
  }

  /** Times ten to the power of the exponent, which may have a sign. */
  function Scaled(x: Size, exponent: string): Option<Size> {
    var signed := exponent != "" && (exponent[0] == '-' || exponent[0] == '+');
    var digits := if signed then exponent[1..] else exponent;
    if digits == "" || !AllDigits(digits) then None
    else if exponent[0] == '-' then Some(Over(x, Pow10(Value(digits))))
    else Some(Times(x, Pow10(Value(digits))))
  }

  function Mantissa(s: string): Option<Size> {
    var i := PointIndex(s);
    if !IsWhole(s[..i]) then None
    else if i == |s| then Some(Value(s) as real)
    else
      var frac := s[i + 1..];
      if frac == "" || !AllDigits(frac) then None
      else Some(Value(s[..i]) as real + Value(frac) as real / Pow10(|frac|) as real)
  }

  predicate StartsWithNull(s: string) {
    |s| >= 4 && s[..4] == "null"
  }

  /** A number; null leaves a zero. */
  function ParseNumber(s: string): (r: Parsed<Float>)
    ensures r.Ok? ==> |r.rest| < |s|
  {
    if StartsWithNull(s) then Ok(Float(false, 0.0), s[4..])
    else
      var n := NumberLength(s);
      match Number(s[..n])
      case None => Bad
      case Some(x) => if n == 0 then Bad else Ok(x, s[n..])
  }

  /** A non-empty list of numbers up to its closing bracket. */
  function ParseNumbers(s: string): (r: Parsed<seq<Float>>)
    ensures r.Ok? ==> |r.rest| < |s|
    decreases |s|
  {
    match ParseNumber(SkipSpace(s))
    case Bad => Bad
    case Ok(x, r) =>
      var t := SkipSpace(r);
      if t == "" then Bad
      else if t[0] == ']' then Ok([x], t[1..])
      else if t[0] == ',' then
        match ParseNumbers(t[1..])
        case Bad => Bad
        case Ok(xs, rest) => Ok([x] + xs, rest)
      else Bad
  }

  /** The numbers of one point; null is a row without numbers. */
  function ParseCoordinates(s: string): (r: Parsed<seq<Float>>)
    ensures r.Ok? ==> |r.rest| < |s|
  {
    if StartsWithNull(s) then Ok([], s[4..])
    else if s == "" || s[0] != '[' then Bad
    else
      var t := SkipSpace(s[1..]);
      if t != "" && t[0] == ']' then Ok([], t[1..]) else ParseNumbers(t)
  }

  function ParseRows(s: string): (r: Parsed<seq<seq<Float>>>)
    ensures r.Ok? ==> |r.rest| < |s|
    decreases |s|
  {
    match ParseCoordinates(SkipSpace(s))
    case Bad => Bad
    case Ok(row, r) =>
      var t := SkipSpace(r);
      if t == "" then Bad
      else if t[0] == ']' then Ok([row], t[1..])
      else if t[0] == ',' then
        match ParseRows(t[1..])
        case Bad => Bad
        case Ok(rows, rest) => Ok([row] + rows, rest)
      else Bad
  }

  /** json.Unmarshal into a list of lists of floats; null is an empty list. */
  function Unmarshal(s: string): Option<seq<seq<Float>>> {
    var s' := SkipSpace(s);
    if StartsWithNull(s') then (if SkipSpace(s'[4..]) == "" then Some([]) else None)
    else if s' == "" || s'[0] != '[' then None
    else
      var t := SkipSpace(s'[1..]);
      var parsed := if t != "" && t[0] == ']' then Ok([], t[1..]) else ParseRows(t);
      if parsed.Ok? && SkipSpace(parsed.rest) == "" then Some(parsed.value) else None
  }

  function ToPoints(rows: seq<seq<Float>>): seq<Point>
    requires forall i | 0 <= i < |rows| :: |rows[i]| >= 2
  {
    seq(|rows|, i requires 0 <= i < |rows| => Point(rows[i][0], rows[i][1]))
  }

  class Polygon {
    var Points: seq<Point>

    constructor ()
      ensures Points == []
    {
      Points := [];
    }

    /** Appends to the points already there. A row with fewer than two numbers panics, which is what
        the precondition excludes. */
    method Scan(src: string) returns (failed: bool)
      requires var data := Unmarshal(Brackets(src));
               data.Some? ==> forall i | 0 <= i < |data.value| :: |data.value[i]| >= 2
      modifies this
      ensures failed <==> Unmarshal(Brackets(src)) == None
      ensures failed ==> Points == old(Points)
      ensures !failed ==>
                var data := Unmarshal(Brackets(src)).value;
                && |Points| == |old(Points)| + |data| && old(Points) <= Points
                && forall i | 0 <= i < |data| ::
                     var p := Points[|old(Points)| + i]; p.lon == data[i][0] && p.lat == data[i][1]
    {
      var data := Unmarshal(Brackets(src));
      if data == None {
        return true;
      }
      for i := 0 to |data.value|
        invariant Points == old(Points) + ToPoints(data.value)[..i]
      {
        Points := Points + [Point(data.value[i][0], data.value[i][1])];
      }
      failed := false;
    }
  }
}
