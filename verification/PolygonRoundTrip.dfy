/** Scanning what GormValue prints. */
module PolygonRoundTrip {
  import opened Common
  import opened Decimal
  import opened Polygon
  import opened PolygonGrammar

  /** A multiple of 0.000001. */
  predicate IsMicro(x: Size) {
    x * 1000000.0 == (x * 1000000.0).Floor as real
  }

  predicate AllMicro(points: seq<Point>) {
    forall i | 0 <= i < |points| :: IsMicro(points[i].lon.size) && IsMicro(points[i].lat.size)
  }

  /** The number that is left of x in print. */
  function Rounded(x: Float): Float {
    Float(x.negative, RoundedSize(x.size))
  }

  function RoundedSize(x: Size): Size {
    RoundHalfEven(x * 1000000.0) as real / 1000000.0
  }

  function RoundedPoints(points: seq<Point>): seq<Point> {
    seq(|points|, i requires 0 <= i < |points| => Point(Rounded(points[i].lon), Rounded(points[i].lat)))
  }

  // ---------- rounding ----------

  lemma ScaledInteger(k: int)
    ensures (k as real / 1000000.0) * 1000000.0 == k as real && (k as real).Floor == k
  {
  }

  /** The result is a multiple of 0.000001, at most half of that away, and x itself if x is one. */
  lemma RoundedIsNearest(x: Size)
    ensures IsMicro(RoundedSize(x)) && -0.0000005 <= RoundedSize(x) - x <= 0.0000005
    ensures RoundHalfEven(RoundedSize(x) * 1000000.0) == RoundHalfEven(x * 1000000.0)
    ensures IsMicro(x) ==> RoundedSize(x) == x
  {
    var y := x * 1000000.0;
    var k := RoundHalfEven(y);
    ScaledInteger(k);
    assert -0.5 <= k as real - y <= 0.5;
  }

  /** Halfway between two multiples the even one is printed. */
  lemma TiesToEven(k: nat)
    ensures RoundHalfEven(k as real + 0.5) % 2 == 0
  {
    assert (k as real + 0.5).Floor == k;
  }

  function Real(x: Float): real {
    var size: real := x.size;
    if x.negative then -size else size
  }

  /** The last point is dropped exactly when its numbers are those of the first; zeros are equal
      whatever their signs. */
  lemma OpenedExactly(points: seq<Point>)
    requires points != []
    ensures var first, last := points[0], points[|points| - 1];
            Opened(points) == if Real(first.lon) == Real(last.lon) && Real(first.lat) == Real(last.lat)
                              then points[..|points| - 1] else points
  {
  }

  /** Printing what is left of a number prints the same. */
  lemma FixedRounded(x: Float)
    ensures Fixed(Rounded(x)) == Fixed(x)
  {
    hide RoundedSize, RoundHalfEven, IsMicro;
    RoundedIsNearest(x.size);
  }

  // ---------- what is printed, in the grammar ----------

  function FixedNumeral(x: Float): Numeral {
    var k := RoundHalfEven(x.size * 1000000.0);
    Numeral(x.negative, Dec(k / MICRO), Padded(k % MICRO, 6), "", "", "")
  }

  lemma {:induction false} DecIsWhole(n: nat)
    ensures IsWhole(Dec(n))
  {
    if n >= 10 {
      DecIsWhole(n / 10);
      DecStarts(n / 10);
    }
  }

  lemma {:induction false} DecStarts(n: nat)
    ensures Dec(n)[0] == '0' <==> n == 0
  {
    if n >= 10 { DecStarts(n / 10); }
  }

  lemma Million()
    ensures Pow10(6) == 1000000
  {
    assert Pow10(3) == 1000;
  }

  lemma SplitMicro(k: nat)
    ensures (k / MICRO) as real + (k % MICRO) as real / 1000000.0 == k as real / 1000000.0
  {
    var q, r := k / MICRO, k % MICRO;
    assert k == q * 1000000 + r;
    assert k as real == q as real * 1000000.0 + r as real;
  }

  lemma FixedIsNumeral(x: Float)
    ensures IsNumeral(FixedNumeral(x)) && Spell(FixedNumeral(x)) == Fixed(x)
    ensures NumeralValue(FixedNumeral(x)) == Rounded(x)
  {
    hide Dec, Padded, RoundHalfEven, Value, Pow10;
    var k := RoundHalfEven(x.size * 1000000.0);
    DecIsWhole(k / MICRO);
    DecValue(k / MICRO);
    Million();
    PaddedValue(k % MICRO, 6);
    NoDigits();
    SplitMicro(k);
  }

  function PointRow(p: Point): Row {
    Row("", false, "", [Token("", Some(FixedNumeral(p.lon)), ""), Token(" ", Some(FixedNumeral(p.lat)), "")], "")
  }

  function PointRows(points: seq<Point>): seq<Row> {
    seq(|points|, i requires 0 <= i < |points| => PointRow(points[i]))
  }

  lemma PointIsRow(p: Point)
    ensures IsRow(PointRow(p)) && Values(PointRow(p).tokens) == [Rounded(p.lon), Rounded(p.lat)]
  {
    hide FixedNumeral, IsNumeral, NumeralValue, Rounded;
    FixedIsNumeral(p.lon);
    FixedIsNumeral(p.lat);
  }

  // ---------- brackets ----------

  lemma {:induction false} BracketsAppend(a: string, b: string)
    ensures Brackets(a + b) == Brackets(a) + Brackets(b)
  {
    if a == "" {
      assert a + b == b;
    } else {
      assert (a + b)[1..] == a[1..] + b;
      BracketsAppend(a[1..], b);
    }
  }

  lemma {:induction false} BracketsKeepsNumbers(s: string)
    requires forall i | 0 <= i < |s| :: InNumber(s[i])
    ensures Brackets(s) == s
  {
    if s != "" { BracketsKeepsNumbers(s[1..]); }
  }

  lemma BracketsPoint(p: Point)
    ensures Brackets(PointText(p)) == SpellRow(PointRow(p))
  {
    hide Brackets, FixedNumeral, Spell, IsNumeral, NumeralValue, InNumber, Fixed;
    var lon, lat := Fixed(p.lon), Fixed(p.lat);
    FixedIsNumeral(p.lon);
    FixedIsNumeral(p.lat);
    SpellChars(FixedNumeral(p.lon));
    SpellChars(FixedNumeral(p.lat));
    BracketsKeepsNumbers(lon);
    BracketsKeepsNumbers(lat);
    Separators();
    BracketsAppend("(" + lon + ", " + lat, ")");
    BracketsAppend("(" + lon + ", ", lat);
    BracketsAppend("(" + lon, ", ");
    BracketsAppend("(", lon);
    PointSpells(p, lon, lat);
  }

  lemma PointSpells(p: Point, lon: string, lat: string)
    requires Spell(FixedNumeral(p.lon)) == lon && Spell(FixedNumeral(p.lat)) == lat
    ensures SpellRow(PointRow(p)) == "[" + lon + ", " + lat + "]"
  {
    hide Spell, FixedNumeral;
    var tokens := PointRow(p).tokens;
    assert tokens[1..] == [tokens[1]];
    assert SpellTokens(tokens) == lon + ("," + (" " + lat));
  }

  lemma Separators()
    ensures Brackets("(") == "[" && Brackets(")") == "]" && Brackets(",") == "," && Brackets(", ") == ", "
  {
    assert ", "[1..] == " ";
  }

  lemma {:induction false} BracketsPoints(points: seq<Point>)
    requires points != []
    ensures Brackets(PointsText(points)) == SpellRows(PointRows(points))
  {
    hide Brackets, PointText, PointRow, SpellRow;
    BracketsPoint(points[0]);
    if |points| > 1 {
      BracketsPoints(points[1..]);
      assert PointRows(points)[1..] == PointRows(points[1..]);
      Separators();
      BracketsAppend(PointText(points[0]), "," + PointsText(points[1..]));
      BracketsAppend(",", PointsText(points[1..]));
      assert PointsText(points) == PointText(points[0]) + ("," + PointsText(points[1..]));
    }
  }

  // ---------- main results ----------

  /** Scanning the printed form of a polygon with three points or more gives its ring, closed once,
      with six decimals of every coordinate. */
  lemma ScanPrinted(points: seq<Point>)
    requires |Opened(points)| >= 3
    ensures var data := Unmarshal(Brackets(GormValue(points)));
            var ring := Closed(Opened(points));
            && data.Some? && |data.value| == |ring|
            && (forall i | 0 <= i < |ring| :: data.value[i] == [Rounded(ring[i].lon), Rounded(ring[i].lat)])
            && ToPoints(data.value) == RoundedPoints(ring)
  {
    hide PointText, PointRow, Brackets, Rounded, Unmarshal, IsToken, Values, SpellRows, PointsText;
    var ring := Closed(Opened(points));
    var text := PointsText(ring);
    var rows := PointRows(ring);
    var t := Text("", false, "", rows, "");
    BracketsPoints(ring);
    Separators();
    BracketsAppend("(" + text, ")");
    BracketsAppend("(", text);
    forall i | 0 <= i < |ring|
      ensures IsRow(rows[i]) && Values(rows[i].tokens) == [Rounded(ring[i].lon), Rounded(ring[i].lat)]
    {
      PointIsRow(ring[i]);
    }
    assert Brackets(GormValue(points)) == "[" + SpellRows(rows) + "]" == SpellText(t);
    UnmarshalExactly(SpellText(t), RowValues(rows));
    assert Reads(SpellText(t), RowValues(rows));
  }

  lemma ScanIsExact(points: seq<Point>)
    requires AllMicro(points) && points != []
    ensures RoundedPoints(Closed(points)) == Closed(points)
  {
    hide IsMicro, RoundedSize;
    forall i | 0 <= i < |points|
      ensures Rounded(points[i].lon) == points[i].lon && Rounded(points[i].lat) == points[i].lat
    {
      RoundedIsNearest(points[i].lon.size);
      RoundedIsNearest(points[i].lat.size);
    }
  }

  lemma {:induction false} TextRounded(points: seq<Point>)
    ensures PointsText(RoundedPoints(points)) == PointsText(points)
  {
    hide Fixed, Rounded;
    if points != [] {
      FixedRounded(points[0].lon);
      FixedRounded(points[0].lat);
      assert RoundedPoints(points)[1..] == RoundedPoints(points[1..]);
      TextRounded(points[1..]);
    }
  }

  /** Printing the scanned ring gives the same text again, whatever the coordinates. */
  lemma PrintScanned(points: seq<Point>)
    requires |Opened(points)| >= 3
    ensures GormValue(RoundedPoints(Closed(Opened(points)))) == GormValue(points)
  {
    hide Rounded, PointsText;
    var ring := Opened(points);
    var scanned := RoundedPoints(Closed(ring));
    assert scanned == Closed(RoundedPoints(ring));
    assert Opened(scanned) == RoundedPoints(ring);
    TextRounded(Closed(ring));
  }

  /** With coordinates that are multiples of 0.000001 nothing is lost: scanning the text gives the
      ring closed once, and printing that gives the same text. */
  lemma RoundTrip(points: seq<Point>)
    requires |Opened(points)| >= 3 && AllMicro(points)
    ensures var data := Unmarshal(Brackets(GormValue(points)));
            && data.Some? && (forall i | 0 <= i < |data.value| :: |data.value[i]| == 2)
            && ToPoints(data.value) == Closed(Opened(points))
            && GormValue(ToPoints(data.value)) == GormValue(points)
  {
    hide Unmarshal, Brackets, GormValue, IsMicro;
    ScanPrinted(points);
    ScanIsExact(Opened(points));
    PrintScanned(points);
  }

  /** Exactly the polygons with fewer than three points, a repeated closing point aside, print as an
      empty pair of parentheses, a text in which Scan finds no points. */
  lemma ShortPolygonText(points: seq<Point>)
    ensures GormValue(points) == "()" <==> |Opened(points)| < 3
    ensures Unmarshal(Brackets("()")) == Some([])
  {
    if |Opened(points)| >= 3 {
      hide Fixed;
      assert GormValue(points)[1] == PointsText(Closed(Opened(points)))[0] == '(';
    }
    assert Brackets("()") == "[]" by {
      assert "()"[1..] == ")";
      assert Brackets(")") == "]";
    }
  }
}
