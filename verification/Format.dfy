/** util.format with a string first argument. Arguments are numbered from 1; argument 0 is the format. */
module Format {

  /** One later argument in each of its printed forms. */
  datatype Arg = Arg(asString: string, asNumber: string, asJson: string, appended: string)

  datatype Piece =
    | Plain(c: char)                // copied
    | Percent                       // from %%
    | Used(arg: nat, how: char)     // a directive that took argument `arg`
    | Kept(how: char)               // a directive left as it is
    | Appended(arg: nat)

  predicate IsDirective(c: char) { c == 's' || c == 'd' || c == 'j' }

  // ---------- the specification ----------

  /** A percent sign followed by `%`, `s`, `d` or `j` is matched, two characters at a time. */
  predicate Matches(f: string) {
    |f| > 1 && f[0] == '%' && (f[1] == '%' || IsDirective(f[1]))
  }

  function Width(f: string): nat {
    if Matches(f) then 2 else 1
  }

  /** The first piece of a non-empty format, when the next argument is i of len. */
  function First(f: string, i: nat, len: nat): Piece
    requires f != ""
  {
    if !Matches(f) then Plain(f[0])
    else if f[1] == '%' then Percent
    else if i >= len then Kept(f[1])
    else Used(i, f[1])
  }

  function Next(p: Piece, i: nat): nat {
    if p.Used? then i + 1 else i
  }

  function Scan(f: string, i: nat, len: nat): seq<Piece> {
    if f == "" then []
    else
      var first := First(f, i, len);
      [first] + Scan(f[Width(f)..], Next(first, i), len)
  }

  /** The arguments a piece list takes, in order. */
  function Taken(pieces: seq<Piece>): seq<nat> {
    if pieces == [] then []
    else
      (match pieces[0]
       case Used(a, _) => [a]
       case Appended(a) => [a]
       case _ => []) + Taken(pieces[1..])
  }

  function Tail(i: nat, len: nat): seq<Piece>
    decreases len - i
  {
    if i >= len then [] else [Appended(i)] + Tail(i + 1, len)
  }

  function Pieces(f: string, len: nat): seq<Piece> {
    var scanned := Scan(f, 1, len);
    scanned + Tail(1 + |Taken(scanned)|, len)
  }

  /** What a piece was in the format. */
  function Source(p: Piece): string {
    match p
    case Plain(c) => [c]
    case Percent => "%%"
    case Used(_, how) => ['%', how]
    case Kept(how) => ['%', how]
    case Appended(_) => ""
  }

  function Print(p: Piece, args: seq<Arg>): string {
    match p
    case Plain(c) => [c]
    case Percent => "%"
    case Used(a, how) =>
      if a >= |args| then ""
      else if how == 's' then args[a].asString
      else if how == 'd' then args[a].asNumber
      else args[a].asJson
    case Kept(how) => ['%', how]
    case Appended(a) => " " + if a < |args| then args[a].appended else ""
  }

  function SourceAll(pieces: seq<Piece>): string {
    if pieces == [] then "" else Source(pieces[0]) + SourceAll(pieces[1..])
  }

  function PrintAll(pieces: seq<Piece>, args: seq<Arg>): string {
    if pieces == [] then "" else Print(pieces[0], args) + PrintAll(pieces[1..], args)
  }

  lemma {:induction false} PrintAppend(a: seq<Piece>, b: seq<Piece>, args: seq<Arg>)
    ensures PrintAll(a + b, args) == PrintAll(a, args) + PrintAll(b, args)
  {
    if a == [] {
      assert a + b == b;
    } else {
      assert (a + b)[1..] == a[1..] + b;
      PrintAppend(a[1..], b, args);
    }
  }

  /** The text of the pieces is the text of each in turn: what was copied, a percent sign, the argument
      as a string, as a number or as JSON, the directive itself, or a blank and the argument. */
  lemma PrintsEach(p: Piece, rest: seq<Piece>, args: seq<Arg>)
    requires p.Used? || p.Appended? ==> p.arg < |args|
    requires p.Used? ==> p.how in {'s', 'd', 'j'}
    ensures PrintAll([p] + rest, args) == PrintAll([p], args) + PrintAll(rest, args)
    ensures var text := PrintAll([p], args);
            && (p.Plain? ==> text == [p.c]) && (p.Percent? ==> text == "%") && (p.Kept? ==> text == "%" + [p.how])
            && (p.Appended? ==> text == " " + args[p.arg].appended)
            && (p.Used? && p.how == 's' ==> text == args[p.arg].asString)
            && (p.Used? && p.how == 'd' ==> text == args[p.arg].asNumber)
            && (p.Used? && p.how == 'j' ==> text == args[p.arg].asJson)
  {
    PrintAppend([p], rest, args);
  }

  lemma {:induction false} TakenAppend(a: seq<Piece>, b: seq<Piece>)
    ensures Taken(a + b) == Taken(a) + Taken(b)
  {
    if a == [] {
      assert a + b == b;
    } else {
      assert (a + b)[1..] == a[1..] + b;
      TakenAppend(a[1..], b);
    }
  }

  /** The scan from position p on is one piece and the scan from there on. */
  lemma OneStep(f: string, p: nat, i: nat, len: nat, scanned: seq<Piece>)
    requires p < |f|
    ensures var first := First(f[p..], i, len);
            scanned + Scan(f[p..], i, len) == scanned + [first] + Scan(f[p + Width(f[p..])..], Next(first, i), len)
  {
    assert f[p..][Width(f[p..])..] == f[p + Width(f[p..])..];
  }

  /** What the piece at position p is, by the characters there. */
  lemma PieceAt(f: string, p: nat, i: nat, args: seq<Arg>)
    requires p < |f|
    ensures var piece := First(f[p..], i, |args|);
            var matched := f[p] == '%' && p + 1 < |f| && (f[p + 1] == '%' || IsDirective(f[p + 1]));
            && Width(f[p..]) == (if matched then 2 else 1)
            && !piece.Appended?
            && (piece.Used? <==> matched && f[p + 1] != '%' && i < |args|)
            && Print(piece, args) ==
                 if !matched then [f[p]]
                 else if f[p + 1] == '%' then "%"
                 else if i >= |args| then f[p..p + 2]
                 else if f[p + 1] == 's' then args[i].asString
                 else if f[p + 1] == 'd' then args[i].asNumber
                 else args[i].asJson
  {
    assert p + 1 < |f| ==> f[p..p + 2] == [f[p], f[p + 1]];
  }

  lemma OneMore(pieces: seq<Piece>, p: Piece, args: seq<Arg>)
    ensures PrintAll(pieces + [p], args) == PrintAll(pieces, args) + Print(p, args)
    ensures |Taken(pieces + [p])| == |Taken(pieces)| + if p.Used? || p.Appended? then 1 else 0
  {
    PrintAppend(pieces, [p], args);
    TakenAppend(pieces, [p]);
  }

  lemma Nothing(len: nat, args: seq<Arg>)
    ensures forall i: nat :: Scan("", i, len) == []
    ensures PrintAll([], args) == "" && Taken([]) == []
    ensures forall i: nat | i >= len :: Tail(i, len) == []
  {
  }

  lemma TailStep(i: nat, args: seq<Arg>)
    requires i < |args|
    ensures PrintAll(Tail(i, |args|), args) == " " + args[i].appended + PrintAll(Tail(i + 1, |args|), args)
  {
  }

  // ---------- the implementation ----------

  method Format(f: string, args: seq<Arg>) returns (str: string)
    requires |args| > 0
    ensures str == PrintAll(Pieces(f, |args|), args)
  {
    hide Scan, PrintAll, Taken, First, Width, Print, Tail;
    var i, len := 1, |args|;
    str := "";
    var p := 0;
    ghost var scanned: seq<Piece> := [];
    Nothing(len, args);
    while p < |f|
      invariant p <= |f| && 1 <= i
      invariant Scan(f, 1, len) == scanned + Scan(f[p..], i, len)
      invariant str == PrintAll(scanned, args)
      invariant i == 1 + |Taken(scanned)|
    {
      ghost var piece := First(f[p..], i, len);
      OneStep(f, p, i, len, scanned);
      PieceAt(f, p, i, args);
      OneMore(scanned, piece, args);
      if f[p] == '%' && p + 1 < |f| && (f[p + 1] == '%' || IsDirective(f[p + 1])) {
        if f[p + 1] == '%' {
          str := str + "%";
        } else if i >= len {
          str := str + f[p..p + 2];
        } else {
          str := str + match f[p + 1]
                       case 's' => args[i].asString
                       case 'd' => args[i].asNumber
                       case _ => args[i].asJson;
          i := i + 1;
        }
        p := p + 2;
      } else {
        str := str + [f[p]];
        p := p + 1;
      }
      scanned := scanned + [piece];
    }
    assert f[|f|..] == "" && Scan(f, 1, len) == scanned;
    PrintAppend(scanned, Tail(i, len), args);
    while i < len
      invariant PrintAll(Pieces(f, len), args) == str + PrintAll(Tail(i, len), args)
    {
      TailStep(i, args);
      str := str + " " + args[i].appended;
      i := i + 1;
    }
  }

  // ---------- conservation ----------

  function Range(i: nat, n: nat): seq<nat>
    decreases n - i
  {
    if i >= n then [] else [i] + Range(i + 1, n)
  }

  lemma {:induction false} RangeSplit(i: nat, m: nat, n: nat)
    requires i <= m <= n
    ensures Range(i, n) == Range(i, m) + Range(m, n) && |Range(i, m)| == m - i
    decreases m - i
  {
    if i < m { RangeSplit(i + 1, m, n); }
  }

  lemma {:induction false} TailTakes(i: nat, len: nat)
    ensures Taken(Tail(i, len)) == Range(i, len) && SourceAll(Tail(i, len)) == ""
    ensures forall p | p in Tail(i, len) :: p.Appended?
    decreases len - i
  {
    if i < len { TailTakes(i + 1, len); }
  }

  /** A percent sign is copied only when nothing after it makes it a directive. */
  predicate NothingMissed(pieces: seq<Piece>) {
    forall j | 0 <= j < |pieces| - 1 && pieces[j] == Plain('%') :: NotMissed(pieces[j + 1])
  }

  predicate NotMissed(next: Piece) {
    Source(next) != "" && Source(next)[0] !in {'%', 's', 'd', 'j'}
  }

  lemma {:induction false} ScanTakes(f: string, i: nat, len: nat)
    requires i <= len
    ensures var s := Scan(f, i, len);
            && i + |Taken(s)| <= len && Taken(s) == Range(i, i + |Taken(s)|)
            && SourceAll(s) == f && NothingMissed(s)
            && (forall j | 0 <= j < |s| :: !s[j].Appended?)
            && (forall j | 0 <= j < |s| && (s[j].Used? || s[j].Kept?) :: s[j].how in {'s', 'd', 'j'})
            && KeptWhenGone(s, i, len)
  {
    hide NothingMissed, KeptWhenGone, First, Width, Matches;
    if f == "" {
      NoPieces(i, len);
    } else {
      var first := First(f, i, len);
      FirstPiece(f, i, len);
      var rest := Scan(f[Width(f)..], Next(first, i), len);
      ScanTakes(f[Width(f)..], Next(first, i), len);
      assert Scan(f, i, len) == [first] + rest;
      assert ([first] + rest)[1..] == rest;
      KeptLater(first, rest, i, len);
      MissedLater(first, rest, f);
    }
  }

  lemma FirstPiece(f: string, i: nat, len: nat)
    requires f != "" && i <= len
    ensures var first := First(f, i, len);
            && Width(f) <= |f| && f == Source(first) + f[Width(f)..]
            && !first.Appended? && (first.Kept? ==> i == len) && (first.Used? ==> first.arg == i < len)
            && (first.Used? || first.Kept? ==> first.how in {'s', 'd', 'j'})
            && !(first == Plain('%') && Matches(f))
  {
  }

  lemma NoPieces(i: nat, len: nat)
    ensures NothingMissed([]) && KeptWhenGone([], i, len) && Range(i, i) == []
  {
  }

  predicate KeptWhenGone(s: seq<Piece>, i: nat, len: nat) {
    forall j | 0 <= j < |s| && s[j].Kept? :: i + |Taken(s[..j])| == len
  }

  lemma KeptLater(first: Piece, rest: seq<Piece>, i: nat, len: nat)
    requires KeptWhenGone(rest, Next(first, i), len) && !first.Appended? && (first.Kept? ==> i == len)
    ensures KeptWhenGone([first] + rest, i, len)
  {
    var s := [first] + rest;
    forall j | 0 <= j < |s| && s[j].Kept? ensures i + |Taken(s[..j])| == len {
      if j > 0 {
        assert rest[j - 1] == s[j] && s[..j][1..] == rest[..j - 1];
      }
    }
  }

  lemma MissedLater(first: Piece, rest: seq<Piece>, f: string)
    requires f != "" && !(first == Plain('%') && Matches(f)) && f == Source(first) + SourceAll(rest)
    requires NothingMissed(rest) && forall j | 0 <= j < |rest| :: !rest[j].Appended?
    ensures NothingMissed([first] + rest)
  {
    var s := [first] + rest;
    forall j | 0 <= j < |s| - 1 && s[j] == Plain('%') ensures NotMissed(s[j + 1]) {
      if j > 0 {
        assert rest[j - 1] == s[j] && rest[j] == s[j + 1];
      } else {
        assert f[1..] == SourceAll(rest) == Source(rest[0]) + SourceAll(rest[1..]);
      }
    }
  }

  /** Every later argument is used exactly once and in order, first by the directives from left to
      right and then appended; the format is accounted for piece by piece; a directive stays only
      once all arguments are gone; `%%` takes none. */
  lemma Conservation(f: string, len: nat)
    requires len > 0
    ensures var pieces := Pieces(f, len);
            && Taken(pieces) == Range(1, len)
            && SourceAll(pieces) == f && NothingMissed(Scan(f, 1, len))
            && (forall j | 0 <= j < |pieces| && (pieces[j].Used? || pieces[j].Kept?) ::
                  pieces[j].how in {'s', 'd', 'j'})
            && (forall j | 0 <= j < |pieces| && pieces[j].Kept? :: Taken(pieces[..j]) == Range(1, len))
            && (forall j, k | 0 <= j < k < |pieces| && pieces[j].Appended? :: pieces[k].Appended?)
  {
    hide Scan, Tail, Taken, SourceAll, Range, NothingMissed;
    var scanned := Scan(f, 1, len);
    var n := 1 + |Taken(scanned)|;
    ScanTakes(f, 1, len);
    TailTakes(n, len);
    TakenAppend(scanned, Tail(n, len));
    RangeSplit(1, n, len);
    SourceAppend(scanned, Tail(n, len));
    var pieces := Pieces(f, len);
    forall j | |scanned| <= j < |pieces| ensures pieces[j].Appended? {
      assert pieces[j] in Tail(n, len);
    }
    forall j | 0 <= j < |pieces| && pieces[j].Kept? ensures Taken(pieces[..j]) == Range(1, len) {
      assert pieces[..j] == scanned[..j];
      AllGone(scanned, j, len);
    }
  }

  lemma AllGone(s: seq<Piece>, j: nat, len: nat)
    requires j < |s| && s[j].Kept? && KeptWhenGone(s, 1, len)
    requires 1 + |Taken(s)| <= len && Taken(s) == Range(1, 1 + |Taken(s)|)
    ensures Taken(s[..j]) == Range(1, len)
  {
    hide Taken, Range;
    assert s == s[..j] + s[j..];
    TakenAppend(s[..j], s[j..]);
  }

  lemma {:induction false} SourceAppend(a: seq<Piece>, b: seq<Piece>)
    ensures SourceAll(a + b) == SourceAll(a) + SourceAll(b)
  {
    if a == [] {
      assert a + b == b;
    } else {
      assert (a + b)[1..] == a[1..] + b;
      SourceAppend(a[1..], b);
    }
  }
}
