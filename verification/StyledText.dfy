/** The inline style markers: how they are printed, and the one-pass machine that reads them back. */
module StyledText {

  type StyleMap = map<string, string>

  /** One name/value pair as a marker spells it. */
  type Entry = (string, string)

  const OPEN_STYLE := "{@@"
  const HALF_CLOSE := "@}"
  const CLOSE_STYLE := "{/@}"

  // ---------------------------------------------------------------------------------------
  // Splitting on a doubled character

  /** strings.Split(acc + s, [c, c]) where acc holds no separator that the scan could still complete. */
  function SplitFrom(s: string, c: char, acc: string): seq<string> {
    if |s| < 2 then [acc + s]
    else if s[0] == c && s[1] == c then [acc] + SplitFrom(s[2..], c, "")
    else SplitFrom(s[1..], c, acc + [s[0]])
  }

  function Split(s: string, c: char): seq<string> {
    SplitFrom(s, c, "")
  }

  /** s holds no doubled c. */
  predicate NoDouble(s: string, c: char) {
    |s| < 2 || (!(s[0] == c && s[1] == c) && NoDouble(s[1..], c))
  }

  /** Nor a trailing c that a following separator could pair with. */
  predicate Unsplit(s: string, c: char) {
    NoDouble(s, c) && (s != "" ==> s[|s| - 1] != c)
  }

  lemma {:induction false} SplitLast(s: string, c: char, acc: string)
    requires NoDouble(s, c)
    ensures SplitFrom(s, c, acc) == [acc + s]
  {
    if |s| >= 2 {
      SplitLast(s[1..], c, acc + [s[0]]);
      assert acc + [s[0]] + s[1..] == acc + s;
    }
  }

  lemma {:induction false} SplitFirst(s: string, c: char, acc: string, rest: string)
    requires Unsplit(s, c)
    ensures SplitFrom(s + [c, c] + rest, c, acc) == [acc + s] + SplitFrom(rest, c, "")
  {
    var all := s + [c, c] + rest;
    if s == "" {
      assert all[2..] == rest;
      assert acc + s == acc;
    } else {
      assert all[1..] == s[1..] + [c, c] + rest;
      assert acc + [s[0]] + s[1..] == acc + s;
      SplitFirst(s[1..], c, acc + [s[0]], rest);
    }
  }

  lemma {:induction false} NoDoubleConcat(a: string, b: string, c: char)
    requires NoDouble(a, c) && NoDouble(b, c)
    requires a != "" && b != "" ==> !(a[|a| - 1] == c && b[0] == c)
    ensures NoDouble(a + b, c)
  {
    if a == "" {
      assert a + b == b;
    } else {
      assert (a + b)[1..] == a[1..] + b;
      NoDoubleConcat(a[1..], b, c);
    }
  }

  function Joined(parts: seq<string>, c: char): string {
    if parts == [] then "" else if |parts| == 1 then parts[0] else parts[0] + [c, c] + Joined(parts[1..], c)
  }

  /** Parts that hold no separator; all but the last do not even end in half of one. */
  ghost predicate Parts(parts: seq<string>, c: char) {
    parts != [] && NoDouble(parts[|parts| - 1], c) && forall i | 0 <= i < |parts| - 1 :: Unsplit(parts[i], c)
  }

  /** Splitting any text takes out every separator, from the left, and nothing else. */
  lemma SplitIs(s: string, c: char)
    ensures Parts(Split(s, c), c) && Joined(Split(s, c), c) == s
  {
    SplitFromIs(s, c, "");
    assert "" + s == s;
  }

  lemma {:induction false} SplitFromIs(s: string, c: char, acc: string)
    requires Apart(acc, s, c)
    ensures Parts(SplitFrom(s, c, acc), c) && Joined(SplitFrom(s, c, acc), c) == acc + s
    decreases |s|
  {
    if |s| < 2 {
      LastPart(acc, s, c);
    } else if s[0] == c && s[1] == c {
      SplitFromIs(s[2..], c, "");
      assert "" + s[2..] == s[2..];
      SplitBehind(s, c, acc, SplitFrom(s[2..], c, ""));
    } else {
      OneMoreChar(acc, s, c);
      SplitFromIs(s[1..], c, acc + [s[0]]);
    }
  }

  lemma SplitBehind(s: string, c: char, acc: string, rest: seq<string>)
    requires |s| >= 2 && s[0] == s[1] == c && Unsplit(acc, c) && Parts(rest, c) && Joined(rest, c) == s[2..]
    ensures Parts([acc] + rest, c) && Joined([acc] + rest, c) == acc + s
  {
    PartInFront(acc, rest, c);
    assert s == [c, c] + s[2..];
    assert acc + [c, c] + s[2..] == acc + ([c, c] + s[2..]);
  }

  lemma LastPart(acc: string, s: string, c: char)
    requires Apart(acc, s, c) && |s| < 2
    ensures Parts([acc + s], c) && Joined([acc + s], c) == acc + s
  {
    NoDoubleConcat(acc, s, c);
  }

  /** acc holds no separator, and s does not complete one. */
  predicate Apart(acc: string, s: string, c: char) {
    NoDouble(acc, c) && (acc != "" && acc[|acc| - 1] == c ==> s == "" || s[0] != c)
  }

  lemma OneMoreChar(acc: string, s: string, c: char)
    requires Apart(acc, s, c) && |s| >= 2 && !(s[0] == c && s[1] == c)
    ensures Apart(acc + [s[0]], s[1..], c) && acc + [s[0]] + s[1..] == acc + s
  {
    assert NoDouble([s[0]], c);
    NoDoubleConcat(acc, [s[0]], c);
  }

  lemma PartInFront(part: string, rest: seq<string>, c: char)
    requires Unsplit(part, c) && Parts(rest, c)
    ensures Parts([part] + rest, c) && Joined([part] + rest, c) == part + [c, c] + Joined(rest, c)
  {
    var parts := [part] + rest;
    assert parts[1..] == rest && parts[|parts| - 1] == rest[|rest| - 1];
    forall i | 0 <= i < |parts| - 1 ensures Unsplit(parts[i], c) {
      assert i > 0 ==> parts[i] == rest[i - 1];
    }
  }

  // ---------------------------------------------------------------------------------------
  // Style strings

  function StyleString(es: seq<Entry>): string {
    if es == [] then "" else "##" + es[0].0 + "--" + es[0].1 + StyleString(es[1..])
  }

  /** One part of a style string, added to the map if it is a name/value pair. */
  function AddPart(m: StyleMap, part: string): StyleMap {
    if part == " " || part == "{" then m
    else
      var pair := Split(part, '-');
      if |pair| == 2 then m[pair[0] := pair[1]] else m
  }

  function AddParts(m: StyleMap, parts: seq<string>): StyleMap
    decreases |parts|
  {
    if parts == [] then m else AddParts(AddPart(m, parts[0]), parts[1..])
  }

  /** The style map that a marker's text spells. */
  function ParseStyle(str: string): StyleMap {
    AddParts(map[], Split(str, '#'))
  }

  /** Names and values a marker can carry: nothing that reads as a separator or a marker. */
  predicate CleanEntry(e: Entry) {
    && Unsplit(e.0, '-') && NoDouble(e.0, '#')
    && NoDouble(e.1, '-') && Unsplit(e.1, '#')
    && '@' !in e.0 && '{' !in e.0 && '@' !in e.1 && '{' !in e.1
  }

  predicate CleanEntries(es: seq<Entry>) {
    forall e | e in es :: CleanEntry(e)
  }

  /** The map that a list of entries denotes, later ones winning. */
  function AddEntries(m: StyleMap, es: seq<Entry>): StyleMap
    decreases |es|
  {
    if es == [] then m else AddEntries(m[es[0].0 := es[0].1], es[1..])
  }

  /** The part of a style string that spells one entry. */
  function PartOf(e: Entry): string {
    e.0 + "--" + e.1
  }

  lemma PartReads(m: StyleMap, e: Entry)
    requires CleanEntry(e)
    ensures AddPart(m, PartOf(e)) == m[e.0 := e.1]
    ensures Unsplit(PartOf(e), '#')
  {
    SplitFirst(e.0, '-', "", e.1);
    SplitLast(e.1, '-', "");
    assert PartOf(e) == e.0 + ['-', '-'] + e.1;
    assert Split(PartOf(e), '-') == ["" + e.0, "" + e.1];
    assert "" + e.0 == e.0 && "" + e.1 == e.1;
    assert NoDouble("--", '#');
    NoDoubleConcat(e.0, "--", '#');
    NoDoubleConcat(e.0 + "--", e.1, '#');
  }

  /** What a part of any style string adds: nothing without the inner separator, a pair if it holds
      it once, and nothing again if it holds it more often. */
  lemma PartWithoutPair(m: StyleMap, a: string)
    requires NoDouble(a, '-')
    ensures AddPart(m, a) == m
  {
    SplitLast(a, '-', "");
  }

  lemma PartIsPair(m: StyleMap, a: string, b: string)
    requires Unsplit(a, '-') && NoDouble(b, '-')
    ensures AddPart(m, a + "--" + b) == m[a := b]
  {
    var part := a + ['-', '-'] + b;
    assert part == a + "--" + b && |part| >= 2;
    SplitFirst(a, '-', "", b);
    SplitLast(b, '-', "");
    assert "" + a == a && "" + b == b;
  }

  lemma PartWithMore(m: StyleMap, a: string, b: string, rest: string)
    requires Unsplit(a, '-') && Unsplit(b, '-')
    ensures AddPart(m, a + "--" + b + "--" + rest) == m
  {
    var tail := b + ['-', '-'] + rest;
    assert a + "--" + b + "--" + rest == a + ['-', '-'] + tail;
    SplitFirst(a, '-', "", tail);
    SplitFirst(b, '-', "", rest);
    SplitIs(rest, '-');
  }

  /** Of two parts with the same name the later one wins. */
  lemma {:induction false} LaterPartsWin(m: StyleMap, parts: seq<string>, last: string)
    ensures AddParts(m, parts + [last]) == AddPart(AddParts(m, parts), last)
    decreases |parts|
  {
    if parts == [] {
      assert [] + [last] == [last] && [last][1..] == [];
      assert AddParts(AddPart(m, last), []) == AddPart(m, last);
    } else {
      assert (parts + [last])[1..] == parts[1..] + [last];
      LaterPartsWin(AddPart(m, parts[0]), parts[1..], last);
    }
  }

  lemma StyleHead(es: seq<Entry>)
    requires es != []
    ensures |StyleString(es)| >= 2 && StyleString(es)[0] == StyleString(es)[1] == '#'
    ensures StyleString(es)[2..] == PartOf(es[0]) + StyleString(es[1..])
  {
    assert StyleString(es) == "##" + (PartOf(es[0]) + StyleString(es[1..]));
  }

  /** A style string without its leading separator splits into one part per entry. */
  lemma {:induction false} StyleReads(m: StyleMap, es: seq<Entry>)
    requires CleanEntries(es) && es != []
    ensures AddParts(m, Split(StyleString(es)[2..], '#')) == AddEntries(m, es)
    decreases |es|
  {
    var part := PartOf(es[0]);
    StyleHead(es);
    PartReads(m, es[0]);
    if |es| == 1 {
      assert part + StyleString(es[1..]) == part;
      SplitLast(part, '#', "");
      AddOnePart(m, part, []);
    } else {
      StyleHead(es[1..]);
      SplitHead(part, StyleString(es[1..]));
      AddOnePart(m, part, Split(StyleString(es[1..])[2..], '#'));
      StyleReads(AddPart(m, part), es[1..]);
    }
  }

  lemma AddOnePart(m: StyleMap, part: string, parts: seq<string>)
    ensures AddParts(m, ["" + part] + parts) == AddParts(AddPart(m, part), parts)
  {
    assert "" + part == part;
    assert ([part] + parts)[1..] == parts;
  }

  lemma SplitHead(part: string, rest: string)
    requires Unsplit(part, '#') && |rest| >= 2 && rest[0] == rest[1] == '#'
    ensures Split(part + rest, '#') == ["" + part] + Split(rest[2..], '#')
  {
    SplitFirst(part, '#', "", rest[2..]);
    assert part + rest == part + ['#', '#'] + rest[2..];
  }

  /** A printed marker reads back as the entries it was printed from. */
  lemma MarkerReads(es: seq<Entry>)
    requires CleanEntries(es)
    ensures ParseStyle(OPEN_STYLE + StyleString(es)) == AddEntries(map[], es)
  {
    OpenIsNoPart();
    if es == [] {
      assert OPEN_STYLE + StyleString(es) == OPEN_STYLE;
      SplitLast(OPEN_STYLE, '#', "");
      AddOnePart(map[], OPEN_STYLE, []);
    } else {
      SplitHead(OPEN_STYLE, StyleString(es));
      AddOnePart(map[], OPEN_STYLE, Split(StyleString(es)[2..], '#'));
      StyleReads(map[], es);
    }
  }

  lemma OpenIsNoPart()
    ensures AddPart(map[], OPEN_STYLE) == map[]
    ensures Unsplit(OPEN_STYLE, '#')
    ensures ParseStyle("") == map[]
  {
    assert NoDouble(OPEN_STYLE[1..][1..], '-') && NoDouble(OPEN_STYLE[1..][1..], '#');
    assert NoDouble(OPEN_STYLE[1..], '-') && NoDouble(OPEN_STYLE[1..], '#');
    SplitLast(OPEN_STYLE, '-', "");
    SplitLast("", '#', "");
    SplitLast("", '-', "");
    AddOnePart(map[], "", []);
  }
}
