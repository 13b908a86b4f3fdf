/** Names of copied scripts: `base[CPY]`, `base[CPY]1`, `base[CPY]2` and so on. */
module ScriptCopy {
  import opened Common
  import opened Decimal
  import opened Transactions

  const CPY := "[CPY]"

  // ---------- strings.Split and strconv.ParseInt ----------

  predicate At(s: string, i: nat) {
    i + 5 <= |s| && s[i..i + 5] == CPY
  }

  /** The first occurrence from position i on. */
  function FirstFrom(s: string, i: nat): (r: Option<nat>)
    requires i <= |s|
    ensures r.Some? ==> i <= r.value && At(s, r.value)
    ensures forall j | i <= j && (r.Some? ==> j < r.value) :: !At(s, j)
    decreases |s| - i
  {
    if At(s, i) then Some(i) else if i == |s| then None else FirstFrom(s, i + 1)
  }

  function Split(s: string): (parts: seq<string>)
    ensures parts != []
    decreases |s|
  {
    match FirstFrom(s, 0)
    case None => [s]
    case Some(i) => [s[..i]] + Split(s[i + 5..])
  }

  datatype Unsigned = Syntax | Range | Num(n: nat)

  /** One character of ParseUint with 32 bits; an error ends the scan. */
  function Step(state: Unsigned, c: char): Unsigned {
    if !state.Num? then state
    else if !IsDigit(c) then Syntax
    else if 10 * state.n + DigitValue(c) > 0xFFFF_FFFF then Range
    else Num(10 * state.n + DigitValue(c))
  }

  function Fold(s: string): Unsigned {
    if s == "" then Num(0) else Step(Fold(s[..|s| - 1]), s[|s| - 1])
  }

  function ParseUint(s: string): Unsigned {
    if s == "" then Syntax else Fold(s)
  }

  /** The number ParseInt(s, 10, 32) returns beside its ignored error. */
  function ParseInt32(s: string): int {
    var neg := s != "" && s[0] == '-';
    var digits := if s != "" && (s[0] == '-' || s[0] == '+') then s[1..] else s;
    match ParseUint(digits)
    case Syntax => 0
    case Range => if neg then -0x8000_0000 else 0x7FFF_FFFF
    case Num(n) =>
      if neg then (if n > 0x8000_0000 then -0x8000_0000 else 0 - n as int)
      else if n >= 0x8000_0000 then 0x7FFF_FFFF else n
  }

  function Itoa(n: int): string {
    if n < 0 then "-" + Dec(-n) else Dec(n)
  }

  function CopyName(name: string): string {
    var res := Split(name);
    if |res| > 1 then res[0] + CPY + Itoa(ParseInt32(res[1]) + 1) else name + CPY
  }

  // ---------- Copy ----------

  datatype ScriptRow = ScriptRow(id: int, name: string, body: string)

  function Ids(rows: seq<ScriptRow>): seq<int> {
    seq(|rows|, i requires 0 <= i < |rows| => rows[i].id)
  }

  predicate UniqueNames(rows: seq<ScriptRow>) {
    forall i, j | 0 <= i < j < |rows| :: rows[i].id != rows[j].id && rows[i].name != rows[j].name
  }

  method FindById(rows: seq<ScriptRow>, id: int) returns (row: Option<ScriptRow>)
    ensures row.Some? ==> row.value in rows && row.value.id == id
    ensures row == None ==> forall r | r in rows :: r.id != id
  {
    for i := 0 to |rows|
      invariant forall j | 0 <= j < i :: rows[j].id != id
    {
      if rows[i].id == id {
        return Some(rows[i]);
      }
    }
    row := None;
  }

  lemma AddRow(rows: seq<ScriptRow>, row: ScriptRow)
    requires UniqueNames(rows) && row.id !in Ids(rows) && forall r | r in rows :: r.name != row.name
    ensures UniqueNames(rows + [row])
  {
    forall j | 0 <= j < |rows| ensures rows[j].id != row.id && rows[j].name != row.name {
      assert Ids(rows)[j] == rows[j].id;
      assert rows[j] in rows;
    }
  }

  lemma OneRow(rows: seq<ScriptRow>, a: ScriptRow, b: ScriptRow)
    requires UniqueNames(rows) && a in rows && b in rows && a.id == b.id
    ensures a == b
  {
  }

  predicate IsFree(rows: seq<ScriptRow>, name: string) {
    forall r | r in rows :: r.name != name
  }

  /** The copy is a new row with the next name and the same body; a taken name is refused. `added` is
      what was inserted; `script`, read back afterwards, may be missing all the same. */
  method Copy(s: Session<seq<ScriptRow>>, scriptId: int) returns (script: Option<ScriptRow>, added: seq<ScriptRow>)
    requires UniqueNames(s.tables)
    modifies s
    ensures UniqueNames(s.tables) && s.tables == old(s.tables) + added && |added| <= 1
    ensures script.Some? ==> added == [script.value]
    ensures s.Reliable ==>
              && (added != [] <==>
                    exists r | r in old(s.tables) :: r.id == scriptId && IsFree(old(s.tables), CopyName(r.name)))
              && script == if added == [] then None else Some(added[0])
    ensures added != [] ==> scriptId in Ids(old(s.tables)) && added[0].id !in Ids(old(s.tables))
    ensures forall r | r in old(s.tables) && r.id == scriptId && added != [] ::
              added[0].name == CopyName(r.name) && added[0].body == r.body
  {
    hide CopyName, UniqueNames;
    var from := FindById(s.tables, scriptId);
    if from == None {
      return None, [];
    }
    var name := CopyName(from.value.name);
    forall r | r in s.tables && r.id == scriptId ensures r == from.value {
      OneRow(s.tables, r, from.value);
    }
    if !IsFree(s.tables, name) {
      return None, [];
    }
    assert from.value.id in Ids(s.tables) by { HasId(s.tables, from.value); }
    var insert := Statement(s.Reliable);
    if insert != Done {
      return None, [];
    }
    ghost var g := FreshId(Ids(s.tables));
    var id: int :| id > 0 && id !in Ids(s.tables);
    added := [ScriptRow(id, name, from.value.body)];
    AddRow(s.tables, added[0]);
    s.tables := s.tables + added;
    var lookup := Statement(s.Reliable);
    script := if lookup == Done then Some(added[0]) else None;
  }

  lemma HasId(rows: seq<ScriptRow>, row: ScriptRow)
    requires row in rows
    ensures row.id in Ids(rows)
  {
    var i :| 0 <= i < |rows| && rows[i] == row;
    assert Ids(rows)[i] == row.id;
  }

  // ---------- the chain of copies ----------

  /** The name after copying the newest copy n times. */
  function NthCopy(base: string, n: nat): string {
    if n == 0 then base else CopyName(NthCopy(base, n - 1))
  }

  const LAST := 0x8000_0000

  function Suffix(n: nat): string {
    if n == 0 then "" else Dec(if n <= LAST then n else LAST)
  }

  predicate IsPlain(base: string) {
    forall i | 0 <= i < |base| :: !At(base, i)
  }

  lemma NoEarlier(base: string, digits: string, j: nat)
    requires IsPlain(base) && j < |base|
    ensures !At(base + CPY + digits, j)
  {
    var s := base + CPY + digits;
    if j + 5 <= |base| {
      assert s[j..j + 5] == base[j..j + 5];
      assert !At(base, j);
    } else {
      var k := |base| - j;
      assert s[j..j + 5][k] == s[|base|] == '[';
      assert CPY[k] != '[' by { assert CPY[1] == 'C' && CPY[2] == 'P' && CPY[3] == 'Y' && CPY[4] == ']'; }
    }
  }

  /** The marker cannot overlap itself, so after a plain head the first one is the one put there. */
  lemma FirstMarker(head: string, rest: string)
    requires IsPlain(head)
    ensures FirstFrom(head + CPY + rest, 0) == Some(|head|)
  {
    var s := head + CPY + rest;
    assert s[|head|..|head| + 5] == CPY;
    forall j: nat | j < |head| ensures !At(s, j) {
      NoEarlier(head, rest, j);
    }
    assert At(s, |head|);
  }

  lemma PlainIsWhole(s: string)
    requires IsPlain(s)
    ensures FirstFrom(s, 0) == None && Split(s) == [s]
  {
  }

  /** The number is between the first marker and the second, or the end. */
  lemma SplitMarked(head: string, mid: string, tail: string)
    requires IsPlain(head) && IsPlain(mid) && (tail == "" || CPY <= tail)
    ensures |Split(head + CPY + (mid + tail))| > 1
    ensures Split(head + CPY + (mid + tail))[0] == head && Split(head + CPY + (mid + tail))[1] == mid
  {
    var s := head + CPY + (mid + tail);
    FirstMarker(head, mid + tail);
    assert s[..|head|] == head && s[|head| + 5..] == mid + tail;
    if tail == "" {
      assert mid + tail == mid;
      PlainIsWhole(mid);
    } else {
      var after := tail[5..];
      assert tail == CPY + after && mid + tail == mid + CPY + after;
      FirstMarker(mid, after);
      assert (mid + tail)[..|mid|] == mid;
    }
  }

  /** A name without a marker gets one; in any other name the number after the first marker, read as
      far as ParseInt goes, is replaced by the next one, and everything from the second marker on is
      dropped. */
  lemma CopyNameOf(head: string, mid: string, tail: string)
    requires IsPlain(head) && IsPlain(mid) && (tail == "" || CPY <= tail)
    ensures CopyName(head) == head + CPY
    ensures CopyName(head + CPY + (mid + tail)) == head + CPY + Itoa(ParseInt32(mid) + 1)
  {
    PlainIsWhole(head);
    SplitMarked(head, mid, tail);
  }

  /** Every name is of one of the two forms. */
  lemma CopyNameForms(name: string) returns (head: string, mid: string, tail: string)
    ensures IsPlain(name) || (IsPlain(head) && IsPlain(mid) && (tail == "" || CPY <= tail)
                              && name == head + CPY + (mid + tail))
  {
    head, mid, tail := "", "", "";
    if !IsPlain(name) {
      var rest;
      head, rest := Cut(name);
      if IsPlain(rest) {
        mid, tail := rest, "";
        assert mid + tail == rest;
      } else {
        var after;
        mid, after := Cut(rest);
        tail := CPY + after;
        assert tail[..5] == CPY;
        assert rest == mid + tail;
      }
    }
  }

  lemma Cut(s: string) returns (head: string, rest: string)
    requires !IsPlain(s)
    ensures IsPlain(head) && s == head + CPY + rest
  {
    var k :| 0 <= k < |s| && At(s, k);
    var i := FirstFrom(s, 0).value;
    head, rest := s[..i], s[i + 5..];
    forall j | 0 <= j < |head| ensures !At(head, j) {
      if At(head, j) {
        assert s[j..j + 5] == head[j..j + 5];
        assert At(s, j);
      }
    }
    assert s == s[..i] + s[i..i + 5] + s[i + 5..];
  }

  // ---------- ParseInt ----------

  const MAX_UINT32 := 0xFFFF_FFFF

  lemma {:induction false} FoldDigits(s: string)
    requires AllDigits(s)
    ensures Fold(s) == if Value(s) <= MAX_UINT32 then Num(Value(s)) else Range
  {
    if s != "" {
      FoldDigits(s[..|s| - 1]);
    }
  }

  /** A numeral with or without a sign reads as its value, or as the nearest 32-bit number. */
  lemma ParseNumeral(s: string)
    requires s != "" && AllDigits(s)
    ensures ParseInt32(s) == ParseInt32("+" + s) == if Value(s) > 0x7FFF_FFFF then 0x7FFF_FFFF else Value(s)
    ensures ParseInt32("-" + s) == if Value(s) > 0x8000_0000 then -0x8000_0000 else -(Value(s) as int)
  {
    hide Fold, Value;
    FoldDigits(s);
    assert IsDigit(s[0]);
    assert ("+" + s)[1..] == s && ("-" + s)[1..] == s;
  }

  lemma {:induction false} FoldStops(digits: string, rest: string)
    requires AllDigits(digits) && rest != "" && !IsDigit(rest[0])
    ensures Fold(digits + rest) == if Value(digits) <= MAX_UINT32 then Syntax else Range
  {
    var s := digits + rest;
    if |rest| == 1 {
      FoldDigits(digits);
      assert s[..|s| - 1] == digits;
    } else {
      FoldStops(digits, rest[..|rest| - 1]);
      assert s[..|s| - 1] == digits + rest[..|rest| - 1];
    }
  }

  /** Anything else reads as 0, unless the digits in front are too many for 32 bits already; the sign
      decides which end they are cut to. */
  lemma ParseOther(digits: string, rest: string)
    requires AllDigits(digits) && rest != "" && !IsDigit(rest[0])
    requires digits == "" ==> rest[0] != '-' && rest[0] != '+'
    ensures var big := Value(digits) > MAX_UINT32;
            && ParseInt32(digits + rest) == (if big then 0x7FFF_FFFF else 0)
            && ParseInt32("-" + (digits + rest)) == (if big then -0x8000_0000 else 0)
            && ParseInt32("+" + (digits + rest)) == (if big then 0x7FFF_FFFF else 0)
    ensures ParseInt32("") == ParseInt32("-") == ParseInt32("+") == 0
  {
    hide Fold, Value;
    var s := digits + rest;
    FoldStops(digits, rest);
    assert digits != "" ==> IsDigit(s[0]);
    assert ("+" + s)[1..] == s && ("-" + s)[1..] == s;
  }

  /** What Itoa prints is read back, for every 32-bit number. */
  lemma ItoaReads(n: int)
    requires -0x8000_0000 <= n < 0x8000_0000
    ensures ParseInt32(Itoa(n)) == n
  {
    hide ParseInt32, Dec, Value;
    var size := if n < 0 then -n else n;
    DecValue(size);
    ParseNumeral(Dec(size));
  }

  lemma ParseSuffix(n: nat)
    ensures ParseInt32(Suffix(n)) + 1 == if n < LAST then n + 1 else LAST
  {
    if n > 0 {
      ParseDec(if n <= LAST then n else LAST);
    }
  }

  /** 2147483648 is out of range and reads as 2147483647. */
  lemma ParseDec(m: nat)
    requires m <= LAST
    ensures ParseInt32(Dec(m)) == if m == LAST then LAST - 1 else m
  {
    hide Dec, Value, ParseInt32;
    DecValue(m);
    ParseNumeral(Dec(m));
  }

  lemma DigitsArePlain(digits: string)
    requires AllDigits(digits)
    ensures IsPlain(digits)
  {
    forall j | 0 <= j < |digits| ensures !At(digits, j) {
      if j + 5 <= |digits| {
        assert digits[j..j + 5][0] == digits[j];
      }
    }
  }

  /** Copying the newest copy gives `base[CPY]`, `base[CPY]1`, `base[CPY]2` and so on, until the
      suffix sticks at 2147483648. */
  lemma {:induction false} CopyChain(base: string, n: nat)
    requires IsPlain(base) && n > 0
    ensures NthCopy(base, n) == base + CPY + Suffix(n - 1)
  {
    if n == 1 {
      CopyNameOf(base, "", "");
      assert base + CPY + "" == base + CPY;
    } else {
      CopyChain(base, n - 1);
      var suffix := Suffix(n - 2);
      DigitsArePlain(suffix);
      assert suffix + "" == suffix;
      CopyNameOf(base, suffix, "");
      ParseSuffix(n - 2);
    }
  }

  /** Two copies in the chain share a name exactly when both are past the last suffix. */
  lemma CopiesDistinct(base: string, i: nat, j: nat)
    requires IsPlain(base) && i < j
    ensures NthCopy(base, i) == NthCopy(base, j) <==> i > LAST
  {
    CopyChain(base, j);
    if i == 0 {
      assert |NthCopy(base, j)| > |base|;
    } else {
      CopyChain(base, i);
      var head := base + CPY;
      assert (head + Suffix(i - 1))[|head|..] == Suffix(i - 1);
      assert (head + Suffix(j - 1))[|head|..] == Suffix(j - 1);
      SuffixInjective(i - 1, j - 1);
    }
  }

  lemma SuffixInjective(a: nat, b: nat)
    requires a < b
    ensures Suffix(a) == Suffix(b) <==> a >= LAST
  {
    DecValue(if a <= LAST then a else LAST);
    DecValue(if b <= LAST then b else LAST);
  }
}
