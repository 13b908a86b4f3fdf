/** The documents that the inspector prints, and their text. */
module InspectorLayout {

  datatype Doc =
    | Text(text: string)
    | Accessor(text: string)
    | Circular
    | Branch(isArray: bool, base: string, entries: seq<Entry>)

  datatype Entry = Hole | Entry(prefix: string, doc: Doc)

  function Braces(isArray: bool): (string, string) {
    if isArray then ("[", "]") else ("{", "}")
  }

  // ---------- text ----------

  function AfterNewlines(s: string, pad: string): string {
    if s == "" then ""
    else [s[0]] + (if s[0] == '\n' then pad else "") + AfterNewlines(s[1..], pad)
  }

  /** Nested text over several lines is indented, and starts on a new line except in an array. */
  function Indent(s: string, isArray: bool): string {
    if '\n' !in s then s
    else if isArray then AfterNewlines(s, "  ")
    else "\n   " + AfterNewlines(s, "   ")
  }

  function Join(parts: seq<string>, sep: string): string {
    if parts == [] then ""
    else if |parts| == 1 then parts[0]
    else Join(parts[..|parts| - 1], sep) + sep + parts[|parts| - 1]
  }

  function TotalLength(output: seq<string>): nat {
    if output == [] then 0 else TotalLength(output[..|output| - 1]) + |output[|output| - 1]| + 1
  }

  function ReduceToSingleString(output: seq<string>, base: string, isArray: bool): string {
    var (open, close) := Braces(isArray);
    if TotalLength(output) > 60 then
      open + (if base == "" then "" else base + "\n ") + " " + Join(output, ",\n  ") + " " + close
    else open + base + " " + Join(output, ", ") + " " + close
  }

  function Layout(doc: Doc): string
    decreases doc
  {
    match doc
    case Text(t) => t
    case Accessor(t) => t
    case Circular => "[Circular]"
    case Branch(isArray, base, entries) =>
      var output := seq(|entries|, i requires 0 <= i < |entries| => LayoutEntry(entries[i], isArray));
      ReduceToSingleString(output, base, isArray)
  }

  function LayoutEntry(e: Entry, isArray: bool): string
    decreases e
  {
    match e
    case Hole => ""
    case Entry(prefix, doc) =>
      prefix + if doc.Accessor? || doc.Circular? then Layout(doc) else Indent(Layout(doc), isArray)
  }

  // ---------- the text by positions ----------

  /** The lines of a text. */
  function Lines(s: string): (lines: seq<string>)
    ensures lines != []
  {
    if s == "" then [""]
    else if s[0] == '\n' then [""] + Lines(s[1..])
    else [[s[0]] + Lines(s[1..])[0]] + Lines(s[1..])[1..]
  }

  /** The lines of `text` are those of `inner` with this in front, all but the first line. */
  predicate Indented(inner: string, text: string, pad: string) {
    && |Lines(text)| == |Lines(inner)| && Lines(text)[0] == Lines(inner)[0]
    && forall i | 0 < i < |Lines(inner)| :: Lines(text)[i] == pad + Lines(inner)[i]
  }

  /** A nested text of one line is kept. One of several lines is indented by two blanks in an array;
      elsewhere it is indented by three and starts on a line of its own. */
  predicate Nests(inner: string, text: string, isArray: bool) {
    if |Lines(inner)| == 1 then text == inner
    else if isArray then Indented(inner, text, "  ")
    else |text| >= 4 && text[..4] == "\n   " && Indented(inner, text[4..], "   ")
  }

  function Separator(broken: bool): string {
    if broken then ",\n  " else ", "
  }

  predicate IsAt(text: string, i: nat, part: string) {
    i + |part| <= |text| && text[i..i + |part|] == part
  }

  /** The parts lie at `starts` in `text`, one after the other with a separator between two of them. */
  predicate LieAt(parts: seq<string>, starts: seq<nat>, sep: string, text: string) {
    && |starts| == |parts|
    && (forall i | 0 <= i < |parts| :: IsAt(text, starts[i], parts[i]))
    && forall i | 0 < i < |parts| :: Follows(parts, starts, sep, text, i)
  }

  predicate Follows(parts: seq<string>, starts: seq<nat>, sep: string, text: string, i: nat)
    requires 0 < i < |parts| == |starts|
  {
    var end := starts[i - 1] + |parts[i - 1]|; starts[i] == end + |sep| && IsAt(text, end, sep)
  }

  function End(parts: seq<string>, starts: seq<nat>, from: nat): nat
    requires |starts| == |parts|
  {
    if parts == [] then from else starts[|parts| - 1] + |parts[|parts| - 1]|
  }

  /** The text of an object: an opening brace, the base, the parts, and a closing brace. It is broken
      over lines exactly when the lengths of the parts, plus one for each, are more than 60. */
  predicate LaidOut(isArray: bool, base: string, parts: seq<string>, starts: seq<nat>, broken: bool, text: string) {
    var head := (if isArray then "[" else "{") + if broken && base != "" then base + "\n  " else base + " ";
    var tail := if isArray then " ]" else " }";
    && LieAt(parts, starts, Separator(broken), text) && (parts != [] ==> starts[0] == |head|)
    && var end := End(parts, starts, |head|);
       var gaps := if parts == [] then 0 else (|parts| - 1) * |Separator(broken)|;
       && IsAt(text, 0, head) && IsAt(text, end, tail) && end + 2 == |text|
       && (broken <==> end - |head| - gaps + |parts| > 60)
  }

  /** `text` is a text of the document. */
  ghost predicate IsTextOf(doc: Doc, text: string)
    decreases doc
  {
    match doc
    case Text(t) => text == t
    case Accessor(t) => text == t
    case Circular => text == "[Circular]"
    case Branch(isArray, base, entries) =>
      exists parts, starts, broken ::
        && |parts| == |entries| && LaidOut(isArray, base, parts, starts, broken, text)
        && forall i | 0 <= i < |entries| :: IsTextOfEntry(entries[i], parts[i], isArray)
  }

  /** A hole has no text. Elsewhere the name is in front; accessors and circular marks stand as they are. */
  ghost predicate IsTextOfEntry(e: Entry, text: string, isArray: bool)
    decreases e
  {
    match e
    case Hole => text == ""
    case Entry(prefix, doc) =>
      exists inner, nested ::
        && text == prefix + nested && IsTextOf(doc, inner)
        && if doc.Accessor? || doc.Circular? then nested == inner else Nests(inner, nested, isArray)
  }

  // ---------- the layout has these positions ----------

  lemma AtInside(text: string, i: nat, part: string, head: string, tail: string)
    requires IsAt(text, i, part)
    ensures IsAt(head + text + tail, |head| + i, part)
  {
    var all := head + text + tail;
    assert all[|head| + i..|head| + i + |part|] == text[i..i + |part|];
  }

  lemma AtBetween(head: string, part: string, tail: string)
    ensures IsAt(head + part + tail, |head|, part)
  {
  }

  lemma {:induction false} JoinLies(parts: seq<string>, sep: string) returns (starts: seq<nat>)
    ensures |starts| == |parts| && LieAt(parts, starts, sep, Join(parts, sep)) && (parts != [] ==> starts[0] == 0)
    ensures End(parts, starts, 0) == |Join(parts, sep)|
    ensures |Join(parts, sep)| + |parts| == TotalLength(parts) + if parts == [] then 0 else (|parts| - 1) * |sep|
  {
    hide IsAt, LieAt;
    if parts == [] {
      starts := [];
      assert LieAt(parts, starts, sep, "") by { NothingLies(parts, starts, sep); }
    } else if |parts| == 1 {
      starts := [0];
      OneLies(parts[0], sep);
      assert parts == [parts[0]];
      assert parts[..0] == [];
    } else {
      var n := |parts| - 1;
      var init := parts[..n];
      assert parts == init + [parts[n]];
      var before := JoinLies(init, sep);
      var joined := Join(init, sep);
      starts := before + [|joined| + |sep|];
      JoinGrows(init, before, sep, joined, parts[n]);
      assert Join(parts, sep) == joined + sep + parts[n];
      Times(n, |sep|);
    }
  }

  lemma Times(n: nat, m: nat)
    requires n > 0
    ensures (n - 1) * m + m == n * m
  {
  }

  lemma NothingLies(parts: seq<string>, starts: seq<nat>, sep: string)
    requires parts == [] && starts == []
    ensures LieAt(parts, starts, sep, "")
  {
  }

  lemma OneLies(part: string, sep: string)
    ensures LieAt([part], [0], sep, part)
  {
  }

  lemma JoinGrows(init: seq<string>, before: seq<nat>, sep: string, joined: string, part: string)
    requires init != [] && LieAt(init, before, sep, joined) && End(init, before, 0) == |joined|
    ensures LieAt(init + [part], before + [|joined| + |sep|], sep, joined + sep + part)
    ensures (before + [|joined| + |sep|])[0] == before[0]
  {
    hide IsAt;
    var parts, starts, text := init + [part], before + [|joined| + |sep|], joined + sep + part;
    AtBetween(joined, sep, part);
    AtBetween(joined + sep, part, "");
    assert text == joined + sep + part + "" == "" + joined + (sep + part);
    forall i | 0 <= i < |init| ensures IsAt(text, starts[i], parts[i]) {
      AtInside(joined, before[i], init[i], "", sep + part);
    }
    forall i | 0 < i < |parts| ensures Follows(parts, starts, sep, text, i) {
      if i < |init| {
        assert Follows(init, before, sep, joined, i);
        AtInside(joined, before[i - 1] + |init[i - 1]|, sep, "", sep + part);
      }
    }
  }

  function Shifted(starts: seq<nat>, n: nat): seq<nat> {
    seq(|starts|, i requires 0 <= i < |starts| => starts[i] + n)
  }

  lemma LieLater(parts: seq<string>, starts: seq<nat>, sep: string, text: string, head: string, tail: string)
    requires LieAt(parts, starts, sep, text)
    ensures LieAt(parts, Shifted(starts, |head|), sep, head + text + tail)
  {
    hide IsAt;
    var later, all := Shifted(starts, |head|), head + text + tail;
    forall i | 0 <= i < |parts| ensures IsAt(all, later[i], parts[i]) {
      AtInside(text, starts[i], parts[i], head, tail);
    }
    forall i | 0 < i < |parts| ensures Follows(parts, later, sep, all, i) {
      assert Follows(parts, starts, sep, text, i);
      AtInside(text, starts[i - 1] + |parts[i - 1]|, sep, head, tail);
    }
  }

  lemma ReducedIsLaidOut(parts: seq<string>, base: string, isArray: bool) returns (starts: seq<nat>, broken: bool)
    ensures LaidOut(isArray, base, parts, starts, broken, ReduceToSingleString(parts, base, isArray))
  {
    hide IsAt, LieAt, Join, TotalLength, ReduceToSingleString;
    broken := TotalLength(parts) > 60;
    var sep := Separator(broken);
    var before := JoinLies(parts, sep);
    var joined := Join(parts, sep);
    var head := (if isArray then "[" else "{") + if broken && base != "" then base + "\n  " else base + " ";
    var tail := if isArray then " ]" else " }";
    var text := ReduceToSingleString(parts, base, isArray);
    TextParts(parts, base, isArray, head, joined, tail);
    starts := Shifted(before, |head|);
    LieLater(parts, before, sep, joined, head, tail);
    assert End(parts, starts, |head|) == |head| + |joined|;
    AtBetween("", head, joined + tail);
    AtBetween(head + joined, tail, "");
    assert "" + head + (joined + tail) == text == head + joined + tail + "";
  }

  lemma TextParts(parts: seq<string>, base: string, isArray: bool, head: string, joined: string, tail: string)
    requires var broken := TotalLength(parts) > 60;
             && joined == Join(parts, Separator(broken))
             && head == (if isArray then "[" else "{") + (if broken && base != "" then base + "\n  " else base + " ")
             && tail == if isArray then " ]" else " }"
    ensures ReduceToSingleString(parts, base, isArray) == head + joined + tail
  {
    hide Join, TotalLength;
    var (open, close) := Braces(isArray);
    assert " " + close == tail;
    if TotalLength(parts) > 60 {
      assert open + (if base == "" then "" else base + "\n ") + " " == head;
    } else {
      assert open + base + " " == head;
    }
  }

  lemma {:induction false} LinesAfterNewlines(s: string, pad: string)
    requires '\n' !in pad
    ensures Indented(s, AfterNewlines(s, pad), pad)
  {
    if s != "" {
      LinesAfterNewlines(s[1..], pad);
      var t := AfterNewlines(s[1..], pad);
      if s[0] == '\n' {
        assert AfterNewlines(s, pad) == ['\n'] + (pad + t);
        assert AfterNewlines(s, pad)[1..] == pad + t;
        LinesPrefix(pad, t);
      } else {
        assert AfterNewlines(s, pad) == [s[0]] + t;
        assert AfterNewlines(s, pad)[1..] == t;
      }
    }
  }

  lemma {:induction false} LinesPrefix(pad: string, t: string)
    requires '\n' !in pad
    ensures Lines(pad + t) == [pad + Lines(t)[0]] + Lines(t)[1..]
  {
    if pad == "" {
      assert pad + t == t && pad + Lines(t)[0] == Lines(t)[0];
    } else {
      assert (pad + t)[1..] == pad[1..] + t;
      LinesPrefix(pad[1..], t);
      assert [pad[0]] + (pad[1..] + Lines(t)[0]) == pad + Lines(t)[0];
    }
  }

  lemma {:induction false} OneLine(s: string)
    ensures |Lines(s)| == 1 <==> '\n' !in s
  {
    if s != "" { OneLine(s[1..]); }
  }

  lemma IndentNests(s: string, isArray: bool)
    ensures Nests(s, Indent(s, isArray), isArray)
  {
    OneLine(s);
    if '\n' in s {
      LinesAfterNewlines(s, "  ");
      LinesAfterNewlines(s, "   ");
      assert ("\n   " + AfterNewlines(s, "   "))[4..] == AfterNewlines(s, "   ");
    }
  }

  /** What is printed for a document is a text of it. */
  lemma {:induction false} LayoutIsText(doc: Doc)
    ensures IsTextOf(doc, Layout(doc))
    decreases doc
  {
    if doc.Branch? {
      var parts := seq(|doc.entries|, i requires 0 <= i < |doc.entries| => LayoutEntry(doc.entries[i], doc.isArray));
      forall i | 0 <= i < |parts| ensures IsTextOfEntry(doc.entries[i], parts[i], doc.isArray) {
        LayoutEntryIsText(doc.entries[i], doc.isArray);
      }
      var starts, broken := ReducedIsLaidOut(parts, doc.base, doc.isArray);
      assert LaidOut(doc.isArray, doc.base, parts, starts, broken, Layout(doc));
    }
  }

  lemma {:induction false} LayoutEntryIsText(e: Entry, isArray: bool)
    ensures IsTextOfEntry(e, LayoutEntry(e, isArray), isArray)
    decreases e
  {
    if e.Entry? {
      LayoutIsText(e.doc);
      var inner := Layout(e.doc);
      IndentNests(inner, isArray);
      var nested := if e.doc.Accessor? || e.doc.Circular? then inner else Indent(inner, isArray);
      assert LayoutEntry(e, isArray) == e.prefix + nested;
    }
  }
}
