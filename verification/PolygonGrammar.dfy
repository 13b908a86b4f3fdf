/** Exactly the texts that Scan reads, once parentheses are brackets: JSON lists of lists of numbers. */
module PolygonGrammar {
  import opened Common
  import opened Decimal
  import opened Polygon

  // ---------- numerals ----------

  /** Without an exponent its letter, its sign and its digits are empty. */
  datatype Numeral = Numeral(negative: bool, whole: string, fraction: string,
                             letter: string, sign: string, exponent: string)

  predicate IsNumeral(n: Numeral) {
    && n.whole != "" && AllDigits(n.whole) && (n.whole[0] == '0' ==> n.whole == "0")
    && AllDigits(n.fraction) && AllDigits(n.exponent)
    && (n.letter == "" || n.letter == "e" || n.letter == "E")
    && (n.sign == "" || n.sign == "+" || n.sign == "-")
    && (n.letter == "" <==> n.exponent == "") && (n.letter == "" ==> n.sign == "")
  }

  function Significand(n: Numeral): string {
    n.whole + if n.fraction == "" then "" else "." + n.fraction
  }

  function Power(n: Numeral): string {
    n.letter + (n.sign + n.exponent)
  }

  function Spell(n: Numeral): string {
    (if n.negative then "-" else "") + (Significand(n) + Power(n))
  }

  function SignificandValue(n: Numeral): Size
    requires IsNumeral(n)
  {
    Value(n.whole) as real + Value(n.fraction) as real / Pow10(|n.fraction|) as real
  }

  function NumeralValue(n: Numeral): Float
    requires IsNumeral(n)
  {
    var power := Pow10(Value(n.exponent));
    var m := SignificandValue(n);
    Float(n.negative, if n.sign == "-" then m / power as real else m * power as real)
  }

  lemma {:induction false} PointAt(before: string, after: string)
    requires AllDigits(before)
    ensures PointIndex(before + after) == |before| + PointIndex(after)
  {
    if before == "" {
      assert before + after == after;
    } else {
      assert (before + after)[1..] == before[1..] + after;
      PointAt(before[1..], after);
    }
  }

  lemma {:induction false} ExponentAt(before: string, after: string)
    requires forall i | 0 <= i < |before| :: !IsExponent(before[i])
    ensures ExponentIndex(before + after) == |before| + ExponentIndex(after)
  {
    if before == "" {
      assert before + after == after;
    } else {
      assert (before + after)[1..] == before[1..] + after;
      ExponentAt(before[1..], after);
    }
  }

  lemma MantissaReads(n: Numeral)
    requires IsNumeral(n)
    ensures Mantissa(Significand(n)) == Some(SignificandValue(n))
  {
    hide Mantissa, Value, Pow10;
    if n.fraction == "" {
      assert Significand(n) == n.whole;
      assert Value("") == 0 && Pow10(0) == 1 by { NoDigits(); }
      WholeReads(n.whole);
    } else {
      assert Significand(n) == n.whole + "." + n.fraction;
      FractionReads(n.whole, n.fraction);
    }
  }

  lemma NoDigits()
    ensures Value("") == 0 && Pow10(0) == 1
  {
  }

  lemma WholeReads(whole: string)
    requires IsWhole(whole)
    ensures Mantissa(whole) == Some(Value(whole) as real)
  {
    hide Value;
    PointAt(whole, "");
    assert whole + "" == whole == whole[..|whole|];
  }

  lemma Parts(whole: string, fraction: string)
    requires AllDigits(whole)
    ensures var s := whole + "." + fraction;
            PointIndex(s) == |whole| < |s| && s[..|whole|] == whole && s[|whole| + 1..] == fraction
  {
    PointAt(whole, "." + fraction);
    assert whole + "." + fraction == whole + ("." + fraction);
  }

  lemma FractionReads(whole: string, fraction: string)
    requires IsWhole(whole) && fraction != "" && AllDigits(fraction)
    ensures Mantissa(whole + "." + fraction)
            == Some(Value(whole) as real + Value(fraction) as real / Pow10(|fraction|) as real)
  {
    hide Value, Pow10, PointIndex, AllDigits, IsWhole;
    assert AllDigits(whole) by { WholeDigits(whole); }
    Parts(whole, fraction);
  }

  lemma WholeDigits(whole: string)
    requires IsWhole(whole)
    ensures AllDigits(whole)
  {
  }

  lemma NumberReads(n: Numeral)
    requires IsNumeral(n)
    ensures Number(Spell(n)) == Some(NumeralValue(n))
  {
    hide Mantissa, PointIndex, ExponentIndex, SignificandValue;
    var m := Significand(n);
    var t := m + Power(n);
    MantissaReads(n);
    assert t[0] == n.whole[0];
    assert n.negative ==> Spell(n)[1..] == t;
    assert !n.negative ==> Spell(n) == t;
    ExponentAt(m, Power(n));
    UnsignedReads(n, m, t);
  }

  lemma UnsignedReads(n: Numeral, m: string, t: string)
    requires IsNumeral(n) && m == Significand(n) && t == m + Power(n)
    requires ExponentIndex(t) == |m| + ExponentIndex(Power(n))
    requires Mantissa(m) == Some(SignificandValue(n))
    ensures Unsigned(t) == Some(NumeralValue(n).size)
  {
    hide Mantissa, Significand, SignificandValue, NumeralValue, Scaled, Value, Pow10;
    NumeralSize(n);
    if n.letter == "" {
      assert Power(n) == "" && t == m;
    } else {
      var power := Power(n);
      assert power[0] == n.letter[0] && IsExponent(power[0]);
      assert power[1..] == n.sign + n.exponent;
      assert ExponentIndex(power) == 0;
      assert t[..|m|] == m && t[|m| + 1..] == power[1..];
      ScaledReads(n, SignificandValue(n));
    }
  }

  lemma NumeralSize(n: Numeral)
    requires IsNumeral(n)
    ensures var power := Pow10(Value(n.exponent));
            NumeralValue(n).size == if n.letter == "" then SignificandValue(n)
                                    else if n.sign == "-" then Over(SignificandValue(n), power)
                                    else Times(SignificandValue(n), power)
  {
    hide SignificandValue;
    assert Value("") == 0 && Pow10(0) == 1;
  }

  lemma ScaledReads(n: Numeral, x: Size)
    requires IsNumeral(n) && n.letter != ""
    ensures var power := Pow10(Value(n.exponent));
            Scaled(x, n.sign + n.exponent) == Some(if n.sign == "-" then Over(x, power) else Times(x, power))
  {
    hide Value, Pow10, Times, Over;
    var s := n.sign + n.exponent;
    if n.sign == "" {
      assert s == n.exponent && IsDigit(s[0]);
    } else {
      assert s[1..] == n.exponent && s[0] == n.sign[0];
    }
  }

  /** Only numerals are read as numbers. */
  lemma NumberSpells(s: string) returns (n: Numeral)
    requires Number(s).Some?
    ensures IsNumeral(n) && s == Spell(n)
  {
    hide Unsigned, IsNumeral, Significand;
    var negative := s != "" && s[0] == '-';
    var t := if negative then s[1..] else s;
    assert s == (if negative then "-" else "") + t;
    var m := UnsignedSpells(t);
    n := m.(negative := negative);
    assert IsNumeral(n) by { OnlySign(m, negative); }
    assert Significand(n) == Significand(m) by { OnlySign(m, negative); }
  }

  lemma OnlySign(n: Numeral, negative: bool)
    ensures IsNumeral(n.(negative := negative)) <==> IsNumeral(n)
    ensures Significand(n.(negative := negative)) == Significand(n)
    ensures Power(n.(negative := negative)) == Power(n)
  {
  }

  lemma UnsignedSpells(t: string) returns (n: Numeral)
    requires Unsigned(t).Some?
    ensures IsNumeral(n) && t == Significand(n) + Power(n)
  {
    hide Mantissa, Scaled;
    var i := ExponentIndex(t);
    assert i == |t| ==> t[..i] == t;
    var whole, fraction := MantissaSpells(t[..i]);
    if i == |t| {
      n := Numeral(false, whole, fraction, "", "", "");
      assert t == t[..i] + Power(n);
    } else {
      var tail := t[i + 1..];
      var sign, digits := ExponentSpells(Mantissa(t[..i]).value, tail);
      n := Numeral(false, whole, fraction, [t[i]], sign, digits);
      assert t == t[..i] + ([t[i]] + tail);
      assert Power(n) == [t[i]] + tail;
    }
  }

  lemma MantissaSpells(m: string) returns (whole: string, fraction: string)
    requires Mantissa(m).Some?
    ensures whole != "" && AllDigits(whole) && (whole[0] == '0' ==> whole == "0") && AllDigits(fraction)
    ensures m == whole + if fraction == "" then "" else "." + fraction
  {
    var j := PointIndex(m);
    whole, fraction := m[..j], if j == |m| then "" else m[j + 1..];
    assert m == whole + if j == |m| then "" else "." + fraction;
    assert whole[0] == '0' ==> whole == [whole[0]];
  }

  lemma ExponentSpells(x: Size, tail: string) returns (sign: string, digits: string)
    requires Scaled(x, tail).Some?
    ensures (sign == "" || sign == "+" || sign == "-") && digits != "" && AllDigits(digits) && tail == sign + digits
  {
    hide Value, Pow10;
    var signed := tail != "" && (tail[0] == '-' || tail[0] == '+');
    sign, digits := if signed then [tail[0]] else "", if signed then tail[1..] else tail;
  }

  // ---------- lists ----------

  /** A number, or null, with blanks around it. */
  datatype Token = Token(before: string, numeral: Option<Numeral>, after: string)

  predicate IsBlank(s: string) {
    forall i | 0 <= i < |s| :: s[i] in {' ', '\t', '\n', '\r'}
  }

  predicate IsToken(t: Token) {
    IsBlank(t.before) && IsBlank(t.after) && (t.numeral.Some? ==> IsNumeral(t.numeral.value))
  }

  function SpellToken(t: Token): string {
    t.before + ((if t.numeral == None then "null" else Spell(t.numeral.value)) + t.after)
  }

  function TokenValue(t: Token): Float
    requires IsToken(t)
  {
    if t.numeral == None then Float(false, 0.0) else NumeralValue(t.numeral.value)
  }

  function SpellTokens(tokens: seq<Token>): string
    requires tokens != []
  {
    if |tokens| == 1 then SpellToken(tokens[0]) else SpellToken(tokens[0]) + ("," + SpellTokens(tokens[1..]))
  }

  function Values(tokens: seq<Token>): seq<Float>
    requires forall i | 0 <= i < |tokens| :: IsToken(tokens[i])
  {
    seq(|tokens|, i requires 0 <= i < |tokens| => TokenValue(tokens[i]))
  }

  lemma {:induction false} Blanks(blank: string, s: string)
    requires IsBlank(blank) && (s != "" ==> !IsSpace(s[0]))
    ensures SkipSpace(blank + s) == s
  {
    if blank == "" {
      assert blank + s == s;
    } else {
      assert (blank + s)[1..] == blank[1..] + s;
      Blanks(blank[1..], s);
    }
  }

  lemma {:induction false} Skipped(s: string) returns (blank: string)
    ensures IsBlank(blank) && s == blank + SkipSpace(s)
  {
    hide IsBlank;
    if s != "" && IsSpace(s[0]) {
      var rest := Skipped(s[1..]);
      blank := [s[0]] + rest;
      OneMore(s, rest, SkipSpace(s));
    } else {
      blank := "";
      assert IsBlank("") by { NoBlanks(); }
      assert s == "" + s;
    }
  }

  lemma OneMore(s: string, blank: string, rest: string)
    requires s != "" && IsSpace(s[0]) && IsBlank(blank) && s[1..] == blank + rest
    ensures IsBlank([s[0]] + blank) && s == [s[0]] + blank + rest
  {
    assert s == [s[0]] + s[1..];
  }

  lemma NoBlanks()
    ensures IsBlank("")
  {
  }

  lemma SpellChars(n: Numeral)
    requires IsNumeral(n)
    ensures Spell(n) != "" && Spell(n)[0] != 'n' && !IsSpace(Spell(n)[0])
    ensures forall i | 0 <= i < |Spell(n)| :: InNumber(Spell(n)[i])
  {
    assert Significand(n)[0] == n.whole[0];
    forall i | 0 <= i < |n.letter| ensures InNumber(n.letter[i]) {
    }
  }

  lemma {:induction false} LengthOf(s: string, rest: string)
    requires forall i | 0 <= i < |s| :: InNumber(s[i])
    requires rest != "" ==> !InNumber(rest[0])
    ensures NumberLength(s + rest) == |s|
  {
    if s == "" {
      assert s + rest == rest;
    } else {
      assert (s + rest)[1..] == s[1..] + rest;
      LengthOf(s[1..], rest);
    }
  }

  lemma EndsNumber(blank: string, rest: string)
    requires IsBlank(blank) && rest != "" && rest[0] in {',', ']'}
    ensures !InNumber((blank + rest)[0]) && !IsSpace(rest[0])
  {
  }

  lemma NullTokenReads(tail: string)
    ensures ParseNumber("null" + tail) == Ok(Float(false, 0.0), tail)
  {
    var s := "null" + tail;
    assert s[0] == 'n' && s[..4] == "null" && s[4..] == tail;
  }

  lemma NumeralReads(n: Numeral, tail: string)
    requires IsNumeral(n) && tail != "" && !InNumber(tail[0])
    ensures ParseNumber(Spell(n) + tail) == Ok(NumeralValue(n), tail)
    ensures !IsSpace((Spell(n) + tail)[0])
  {
    hide Spell, NumeralValue, Number, NumberLength, InNumber, IsNumeral;
    var text := Spell(n);
    var s := text + tail;
    SpellChars(n);
    NumberReads(n);
    LengthOf(text, tail);
    assert s[0] == text[0] && s[..|text|] == text && s[|text|..] == tail;
  }

  lemma TokenParts(t: Token, rest: string)
    ensures var text := if t.numeral == None then "null" else Spell(t.numeral.value);
            SpellToken(t) + rest == t.before + (text + (t.after + rest))
  {
    hide Spell;
  }

  /** One token in front of a comma or a bracket. */
  lemma TokenReads(t: Token, rest: string)
    requires IsToken(t) && rest != "" && rest[0] in {',', ']'}
    ensures var r := ParseNumber(SkipSpace(SpellToken(t) + rest));
            r.Ok? && r.value == TokenValue(t) && SkipSpace(r.rest) == rest
  {
    hide Spell, SpellToken, NumeralValue, ParseNumber, SkipSpace, InNumber, IsBlank, IsNumeral;
    var tail := t.after + rest;
    Blanks(t.after, rest);
    EndsNumber(t.after, rest);
    TokenParts(t, rest);
    if t.numeral == None {
      NullTokenReads(tail);
      Blanks(t.before, "null" + tail);
    } else {
      NumeralReads(t.numeral.value, tail);
      Blanks(t.before, Spell(t.numeral.value) + tail);
    }
  }

  lemma {:induction false} TokensRead(tokens: seq<Token>, rest: string)
    requires tokens != [] && forall i | 0 <= i < |tokens| :: IsToken(tokens[i])
    ensures ParseNumbers(SpellTokens(tokens) + ("]" + rest)) == Ok(Values(tokens), rest)
    decreases |tokens|
  {
    hide SpellToken, TokenValue, ParseNumber, SkipSpace, IsToken;
    var t := tokens[0];
    if |tokens| == 1 {
      TokenReads(t, "]" + rest);
      assert ("]" + rest)[1..] == rest;
      assert Values(tokens) == [TokenValue(t)];
    } else {
      var more := SpellTokens(tokens[1..]) + ("]" + rest);
      TokensRead(tokens[1..], rest);
      TokenReads(t, "," + more);
      assert ("," + more)[1..] == more;
      assert SpellTokens(tokens) + ("]" + rest) == SpellToken(t) + ("," + more);
      assert Values(tokens) == [TokenValue(t)] + Values(tokens[1..]);
    }
  }

  lemma TokenSpells(s: string) returns (t: Token, rest: string)
    requires ParseNumber(SkipSpace(s)).Ok?
    ensures var r := ParseNumber(SkipSpace(s));
            IsToken(t) && rest == SkipSpace(r.rest) && s == SpellToken(t) + rest && TokenValue(t) == r.value
  {
    hide Spell, NumeralValue, Number, NumberLength, SkipSpace, IsBlank, IsNumeral;
    var before := Skipped(s);
    var text := SkipSpace(s);
    var r := ParseNumber(text);
    var after := Skipped(r.rest);
    rest := SkipSpace(r.rest);
    if StartsWithNull(text) {
      t := Token(before, None, after);
      assert text == "null" + r.rest;
    } else {
      var n := NumberSpells(text[..NumberLength(text)]);
      NumberReads(n);
      t := Token(before, Some(n), after);
      assert text == Spell(n) + r.rest;
    }
  }

  lemma {:induction false} TokensSpell(s: string) returns (tokens: seq<Token>)
    requires ParseNumbers(s).Ok?
    ensures tokens != [] && forall i | 0 <= i < |tokens| :: IsToken(tokens[i])
    ensures s == SpellTokens(tokens) + ("]" + ParseNumbers(s).rest) && Values(tokens) == ParseNumbers(s).value
    decreases |s|
  {
    hide SpellToken, TokenValue, ParseNumber, SkipSpace, IsToken;
    var t, rest := TokenSpells(s);
    assert rest == [rest[0]] + rest[1..];
    if rest[0] == ']' {
      tokens := [t];
    } else {
      Shorter(s, t, rest);
      var more := TokensSpell(rest[1..]);
      tokens := [t] + more;
      assert tokens[1..] == more;
    }
  }

  lemma Shorter(s: string, t: Token, rest: string)
    requires s == SpellToken(t) + rest && rest != ""
    ensures |rest[1..]| < |s|
  {
  }

  // ---------- lists of lists ----------

  /** A list of numbers, or null, with blanks around it; `gap` is inside an empty list. */
  datatype Row = Row(before: string, isNull: bool, gap: string, tokens: seq<Token>, after: string)

  predicate IsRow(r: Row) {
    && IsBlank(r.before) && IsBlank(r.gap) && IsBlank(r.after)
    && (forall i | 0 <= i < |r.tokens| :: IsToken(r.tokens[i])) && (r.isNull ==> r.tokens == [])
  }

  function SpellRow(r: Row): string {
    r.before + ((if r.isNull then "null" else if r.tokens == [] then "[" + r.gap + "]"
                 else "[" + SpellTokens(r.tokens) + "]") + r.after)
  }

  function SpellRows(rows: seq<Row>): string
    requires rows != []
  {
    if |rows| == 1 then SpellRow(rows[0]) else SpellRow(rows[0]) + ("," + SpellRows(rows[1..]))
  }

  function RowValues(rows: seq<Row>): seq<seq<Float>>
    requires forall i | 0 <= i < |rows| :: IsRow(rows[i])
  {
    seq(|rows|, i requires 0 <= i < |rows| && IsRow(rows[i]) => Values(rows[i].tokens))
  }

  lemma TokensStart(tokens: seq<Token>)
    requires tokens != [] && IsToken(tokens[0])
    ensures SkipSpace(SpellTokens(tokens)) != "" && SkipSpace(SpellTokens(tokens))[0] != ']'
  {
    var t := tokens[0];
    var rest := if |tokens| == 1 then "" else "," + SpellTokens(tokens[1..]);
    var body := (if t.numeral == None then "null" else Spell(t.numeral.value)) + t.after + rest;
    if t.numeral.Some? {
      SpellChars(t.numeral.value);
      assert body[0] == Spell(t.numeral.value)[0];
    }
    Blanks(t.before, body);
    assert SpellTokens(tokens) == t.before + body;
  }

  lemma {:induction false} SkipInFront(s: string, rest: string)
    requires SkipSpace(s) != ""
    ensures SkipSpace(s + rest) == SkipSpace(s) + rest
  {
    if s != "" && IsSpace(s[0]) {
      SkipInFront(s[1..], rest);
      assert (s + rest)[1..] == s[1..] + rest;
    }
  }

  lemma {:induction false} NumbersSkip(s: string)
    ensures SkipSpace(SkipSpace(s)) == SkipSpace(s)
    ensures ParseNumbers(SkipSpace(s)) == ParseNumbers(s)
  {
    var t := SkipSpace(s);
    assert SkipSpace(t) == t;
  }

  /** What stands between the blanks around a row. */
  function SpellCore(r: Row): string {
    if r.isNull then "null" else if r.tokens == [] then "[" + r.gap + "]" else "[" + SpellTokens(r.tokens) + "]"
  }

  lemma CoreStarts(r: Row)
    ensures SpellRow(r) == r.before + (SpellCore(r) + r.after)
    ensures SpellCore(r) != "" && SpellCore(r)[0] in {'n', '['}
  {
    hide SpellTokens;
  }

  lemma CoreReads(r: Row, tail: string)
    requires IsRow(r)
    ensures ParseCoordinates(SpellCore(r) + tail) == Ok(Values(r.tokens), tail)
  {
    hide ParseNumbers, ParseCoordinates, SpellTokens, IsToken, SkipSpace, IsBlank;
    if r.isNull {
      NullReads(tail);
      assert Values(r.tokens) == [];
    } else if r.tokens == [] {
      EmptyReads(r.gap, tail);
      assert Values(r.tokens) == [];
      assert SpellCore(r) + tail == "[" + (r.gap + ("]" + tail));
    } else {
      ListReads(r.tokens, tail);
      assert SpellCore(r) + tail == "[" + (SpellTokens(r.tokens) + ("]" + tail));
    }
  }

  lemma NullReads(tail: string)
    ensures ParseCoordinates("null" + tail) == Ok([], tail)
  {
    NullOrNot("null" + tail, tail);
  }

  lemma EmptyReads(gap: string, tail: string)
    requires IsBlank(gap)
    ensures ParseCoordinates("[" + (gap + ("]" + tail))) == Ok([], tail)
  {
    hide ParseNumbers, SkipSpace, IsBlank, StartsWithNull;
    var inner := "]" + tail;
    var s := "[" + (gap + inner);
    NullOrNot(s, tail);
    assert s[1..] == gap + inner && inner[1..] == tail;
    Blanks(gap, inner);
  }

  lemma ListReads(tokens: seq<Token>, tail: string)
    requires tokens != [] && forall i | 0 <= i < |tokens| :: IsToken(tokens[i])
    ensures ParseCoordinates("[" + (SpellTokens(tokens) + ("]" + tail))) == Ok(Values(tokens), tail)
  {
    hide ParseNumbers, SpellTokens, IsToken, SkipSpace, StartsWithNull, Values;
    var inner := SpellTokens(tokens) + ("]" + tail);
    var s := "[" + inner;
    NullOrNot(s, tail);
    assert s[1..] == inner;
    TokensRead(tokens, tail);
    TokensStart(tokens);
    SkipInFront(SpellTokens(tokens), "]" + tail);
    assert SkipSpace(inner)[0] == SkipSpace(SpellTokens(tokens))[0];
    NumbersSkip(inner);
  }

  lemma NullOrNot(s: string, tail: string)
    ensures s != "" && s[0] != 'n' ==> !StartsWithNull(s)
    ensures StartsWithNull("null" + tail) && ("null" + tail)[4..] == tail
    ensures StartsWithNull(s) ==> s[0] == 'n' && s == "null" + s[4..]
  {
    if StartsWithNull(s) {
      assert s == s[..4] + s[4..];
    }
  }

  lemma CoordinatesRead(r: Row, rest: string)
    requires IsRow(r) && rest != "" && !IsSpace(rest[0])
    ensures var p := ParseCoordinates(SkipSpace(SpellRow(r) + rest));
            p.Ok? && p.value == Values(r.tokens) && SkipSpace(p.rest) == rest
  {
    hide ParseCoordinates, SpellCore, SpellRow, SkipSpace, IsBlank, Values, IsToken;
    var tail := r.after + rest;
    Blanks(r.after, rest);
    CoreStarts(r);
    CoreReads(r, tail);
    var s := SpellCore(r) + tail;
    assert s[0] == SpellCore(r)[0];
    Blanks(r.before, s);
    assert SpellRow(r) + rest == r.before + s;
  }

  lemma FirstRow(rows: seq<Row>)
    requires rows != [] && forall i | 0 <= i < |rows| :: IsRow(rows[i])
    ensures RowValues(rows) == [Values(rows[0].tokens)] + RowValues(rows[1..])
    ensures |rows| == 1 ==> RowValues(rows) == [Values(rows[0].tokens)]
  {
    hide Values;
  }

  /** What a reader of rows does after the first one. */
  lemma RowsStep(r: Row, c: char, rest: string)
    requires IsRow(r) && c in {',', ']'}
    ensures var s := SpellRow(r) + ([c] + rest);
            if c == ']' then ParseRows(s) == Ok([Values(r.tokens)], rest)
            else match ParseRows(rest)
              case Ok(values, left) => ParseRows(s) == Ok([Values(r.tokens)] + values, left)
              case Bad => ParseRows(s) == Bad
  {
    hide SpellRow, ParseCoordinates, SkipSpace, Values, IsRow, IsToken, IsBlank;
    var tail := [c] + rest;
    assert tail[0] == c && tail[1..] == rest && !IsSpace(c);
    CoordinatesRead(r, tail);
  }

  lemma {:induction false} RowsRead(rows: seq<Row>, rest: string)
    requires rows != [] && forall i | 0 <= i < |rows| :: IsRow(rows[i])
    ensures ParseRows(SpellRows(rows) + ("]" + rest)) == Ok(RowValues(rows), rest)
    decreases |rows|
  {
    hide SpellRow, ParseRows, Values, RowValues, IsRow;
    var r := rows[0];
    FirstRow(rows);
    if |rows| == 1 {
      RowsStep(r, ']', rest);
    } else {
      var more := SpellRows(rows[1..]) + ("]" + rest);
      RowsRead(rows[1..], rest);
      RowsStep(r, ',', more);
      assert SpellRows(rows) + ("]" + rest) == SpellRow(r) + ("," + more);
    }
  }

  lemma CoreSpells(text: string) returns (isNull: bool, gap: string, tokens: seq<Token>)
    requires ParseCoordinates(text).Ok?
    ensures var r := Row("", isNull, gap, tokens, ""); IsRow(r) && text == SpellCore(r) + ParseCoordinates(text).rest
    ensures Values(tokens) == ParseCoordinates(text).value
  {
    hide ParseNumbers, SpellTokens, IsToken, SkipSpace, StartsWithNull;
    isNull, gap, tokens := StartsWithNull(text), "", [];
    NullOrNot(text, "");
    if !isNull {
      var blank := Skipped(text[1..]);
      var inner := SkipSpace(text[1..]);
      assert text == "[" + text[1..];
      if inner != "" && inner[0] == ']' {
        gap := blank;
        assert inner == "]" + inner[1..];
      } else {
        NumbersSkip(text[1..]);
        tokens := ListSpells(text);
      }
    }
  }

  lemma ListSpells(text: string) returns (tokens: seq<Token>)
    requires text != "" && text[0] == '[' && ParseNumbers(text[1..]).Ok?
    ensures tokens != [] && (forall i | 0 <= i < |tokens| :: IsToken(tokens[i]))
    ensures text == "[" + SpellTokens(tokens) + "]" + ParseNumbers(text[1..]).rest
    ensures Values(tokens) == ParseNumbers(text[1..]).value
  {
    hide ParseNumbers, SpellTokens, IsToken;
    tokens := TokensSpell(text[1..]);
    assert text == "[" + text[1..];
  }

  lemma CoordinatesSpell(s: string) returns (r: Row, rest: string)
    requires ParseCoordinates(SkipSpace(s)).Ok?
    ensures var p := ParseCoordinates(SkipSpace(s));
            IsRow(r) && rest == SkipSpace(p.rest) && s == SpellRow(r) + rest && Values(r.tokens) == p.value
  {
    hide ParseCoordinates, SkipSpace, IsBlank, Values, IsToken, SpellTokens;
    var before := Skipped(s);
    var p := ParseCoordinates(SkipSpace(s));
    var after := Skipped(p.rest);
    rest := SkipSpace(p.rest);
    var isNull, gap, tokens := CoreSpells(SkipSpace(s));
    r := Row(before, isNull, gap, tokens, after);
    CoreStarts(r);
  }

  lemma {:induction false} RowsSpell(s: string) returns (rows: seq<Row>)
    requires ParseRows(s).Ok?
    ensures rows != [] && forall i | 0 <= i < |rows| :: IsRow(rows[i])
    ensures s == SpellRows(rows) + ("]" + ParseRows(s).rest) && RowValues(rows) == ParseRows(s).value
    decreases |s|
  {
    hide SpellRow, ParseCoordinates, SkipSpace, Values, IsRow;
    var r, rest := CoordinatesSpell(s);
    assert rest == [rest[0]] + rest[1..];
    if rest[0] == ']' {
      rows := [r];
    } else {
      assert |s| == |SpellRow(r)| + |rest|;
      var more := RowsSpell(rest[1..]);
      rows := [r] + more;
      assert rows[1..] == more;
    }
  }

  // ---------- the whole text ----------

  /** A list of rows, or null, with blanks around it. */
  datatype Text = Text(before: string, isNull: bool, gap: string, rows: seq<Row>, after: string)

  predicate IsText(t: Text) {
    && IsBlank(t.before) && IsBlank(t.gap) && IsBlank(t.after)
    && (forall i | 0 <= i < |t.rows| :: IsRow(t.rows[i])) && (t.isNull ==> t.rows == [])
  }

  function SpellText(t: Text): string {
    t.before + ((if t.isNull then "null" else if t.rows == [] then "[" + t.gap + "]"
                 else "[" + SpellRows(t.rows) + "]") + t.after)
  }

  ghost predicate Reads(s: string, rows: seq<seq<Float>>) {
    exists t :: IsText(t) && s == SpellText(t) && rows == RowValues(t.rows)
  }

  /** Scan reads a text, and reads these numbers, exactly when it is such a list with these numbers. */
  lemma UnmarshalExactly(s: string, rows: seq<seq<Float>>)
    ensures Unmarshal(s) == Some(rows) <==> Reads(s, rows)
  {
    if Unmarshal(s) == Some(rows) {
      var t := TextSpells(s);
    }
    if t :| IsText(t) && s == SpellText(t) && rows == RowValues(t.rows) {
      TextReads(t);
    }
  }

  lemma RowsStart(rows: seq<Row>)
    requires rows != [] && IsRow(rows[0])
    ensures SkipSpace(SpellRows(rows)) != "" && SkipSpace(SpellRows(rows))[0] != ']'
  {
    hide SpellCore, SpellRow, SkipSpace, IsToken;
    var r := rows[0];
    var rest := if |rows| == 1 then "" else "," + SpellRows(rows[1..]);
    var body := SpellCore(r) + (r.after + rest);
    CoreStarts(r);
    assert body[0] == SpellCore(r)[0];
    Blanks(r.before, body);
    assert SpellRows(rows) == SpellRow(r) + rest == r.before + body;
  }

  lemma RowsSkip(s: string)
    ensures ParseRows(SkipSpace(s)) == ParseRows(s)
  {
    var t := SkipSpace(s);
    assert SkipSpace(t) == t;
  }

  function SpellBody(t: Text): string {
    if t.isNull then "null" else if t.rows == [] then "[" + t.gap + "]" else "[" + SpellRows(t.rows) + "]"
  }

  lemma BodyStarts(t: Text)
    ensures SpellText(t) == t.before + (SpellBody(t) + t.after)
    ensures SpellBody(t) != "" && SpellBody(t)[0] in {'n', '['}
  {
    hide SpellRows;
  }

  lemma ManyRead(rows: seq<Row>, after: string)
    requires rows != [] && forall i | 0 <= i < |rows| :: IsRow(rows[i])
    ensures var inner := SkipSpace(SpellRows(rows) + ("]" + after));
            inner != "" && inner[0] != ']' && ParseRows(inner) == Ok(RowValues(rows), after)
  {
    hide ParseRows, SpellRows, IsRow, SkipSpace, RowValues;
    RowsRead(rows, after);
    RowsStart(rows);
    SkipInFront(SpellRows(rows), "]" + after);
    RowsSkip(SpellRows(rows) + ("]" + after));
  }

  lemma Bracketed(inner: string, after: string)
    ensures var s := "[" + inner + "]" + after; s[0] == '[' && s[1..] == inner + ("]" + after)
  {
  }

  /** What follows the opening bracket of a list of rows. */
  lemma BodyReads(t: Text)
    requires IsText(t) && !t.isNull
    ensures var s := SpellBody(t) + t.after;
            var inner := SkipSpace(s[1..]);
            && s[0] == '['
            && if t.rows == [] then inner == "]" + t.after
               else inner != "" && inner[0] != ']' && ParseRows(inner) == Ok(RowValues(t.rows), t.after)
  {
    hide ParseRows, SpellRows, IsRow, SkipSpace, IsBlank, RowValues;
    if t.rows == [] {
      Bracketed(t.gap, t.after);
      Blanks(t.gap, "]" + t.after);
    } else {
      Bracketed(SpellRows(t.rows), t.after);
      ManyRead(t.rows, t.after);
    }
  }

  lemma TextReads(t: Text)
    requires IsText(t)
    ensures Unmarshal(SpellText(t)) == Some(RowValues(t.rows))
  {
    hide ParseRows, SpellBody, SpellText, SkipSpace, IsBlank, IsRow, StartsWithNull;
    BodyStarts(t);
    var s := SpellBody(t) + t.after;
    assert s[0] == SpellBody(t)[0];
    Blanks(t.before, s);
    Blanks(t.after, "");
    assert t.after + "" == t.after;
    NullOrNot(s, t.after);
    if t.isNull {
      assert s == "null" + t.after by { NullBody(t); }
      assert RowValues(t.rows) == [];
    } else {
      BodyReads(t);
      if t.rows == [] {
        assert ("]" + t.after)[1..] == t.after;
        assert RowValues(t.rows) == [];
      } else {
        RowsSkip(s[1..]);
      }
    }
  }

  lemma NullBody(t: Text)
    requires t.isNull
    ensures SpellBody(t) == "null"
  {
  }

  lemma BodySpells(text: string) returns (isNull: bool, gap: string, rows: seq<Row>, after: string)
    requires Unmarshal(text).Some? && SkipSpace(text) == text
    ensures var t := Text("", isNull, gap, rows, after);
            IsText(t) && text == SpellBody(t) + after && RowValues(rows) == Unmarshal(text).value
  {
    hide SkipSpace, SpellRows, IsRow, StartsWithNull, ParseRows;
    isNull, gap, rows := StartsWithNull(text), "", [];
    NullOrNot(text, "");
    if isNull {
      after := AllBlank(text[4..]);
      assert RowValues(rows) == [];
    } else {
      var blank := Skipped(text[1..]);
      var inner := SkipSpace(text[1..]);
      assert text == "[" + text[1..];
      if inner != "" && inner[0] == ']' {
        gap := blank;
        after := AllBlank(inner[1..]);
        assert inner == "]" + inner[1..];
        assert RowValues(rows) == [];
      } else {
        RowsSkip(text[1..]);
        rows := ListOfRowsSpells(text);
        after := AllBlank(ParseRows(text[1..]).rest);
      }
    }
  }

  lemma ListOfRowsSpells(text: string) returns (rows: seq<Row>)
    requires text != "" && text[0] == '[' && ParseRows(text[1..]).Ok?
    ensures rows != [] && (forall i | 0 <= i < |rows| :: IsRow(rows[i]))
    ensures text == "[" + SpellRows(rows) + "]" + ParseRows(text[1..]).rest
    ensures RowValues(rows) == ParseRows(text[1..]).value
  {
    hide ParseRows, SpellRows, IsRow;
    rows := RowsSpell(text[1..]);
    assert text == "[" + text[1..];
  }

  lemma AllBlank(s: string) returns (after: string)
    requires SkipSpace(s) == ""
    ensures after == s && IsBlank(s)
  {
    var blank := Skipped(s);
    assert blank + "" == blank;
    after := s;
  }

  lemma TextSpells(s: string) returns (t: Text)
    requires Unmarshal(s).Some?
    ensures IsText(t) && s == SpellText(t) && RowValues(t.rows) == Unmarshal(s).value
  {
    hide SkipSpace, IsBlank, SpellBody, SpellText, IsRow, ParseRows, StartsWithNull, RowValues;
    var before := Skipped(s);
    var text := SkipSpace(s);
    SkipTwice(s);
    var isNull, gap, rows, after := BodySpells(text);
    t := Text(before, isNull, gap, rows, after);
    BodyStarts(t);
    SameBody(t);
  }

  lemma SameBody(t: Text)
    ensures SpellBody(t.(before := "")) == SpellBody(t)
  {
    hide SpellRows;
  }

  lemma SkipTwice(s: string)
    ensures SkipSpace(SkipSpace(s)) == SkipSpace(s) && Unmarshal(SkipSpace(s)) == Unmarshal(s)
  {
    var t := SkipSpace(s);
    assert SkipSpace(t) == t;
  }
}
