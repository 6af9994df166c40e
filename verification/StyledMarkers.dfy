/** Reading back a printed sequence of markers and text. */
module StyledMarkers {
  import opened Wrappers
  import opened Scanning
  import opened StyledText
  import opened StyledRender

  datatype Token = Open(entries: seq<Entry>) | Close | Chars(text: string)

  function Spell(t: Token): string {
    match t
    case Open(entries) => OPEN_STYLE + StyleString(entries) + HALF_CLOSE
    case Close => CLOSE_STYLE
    case Chars(text) => text
  }

  function Print(ts: seq<Token>): string {
    if ts == [] then "" else Spell(ts[0]) + Print(ts[1..])
  }

  /** How markers are spelled. */
  lemma Spelling(name: string, value: string, more: seq<Entry>)
    ensures Spell(Close) == "{/@}" && Spell(Open([])) == "{@@@}"
    ensures Spell(Open([(name, value)])) == "{@@##" + name + "--" + value + "@}"
    ensures StyleString([(name, value)] + more) == "##" + name + "--" + value + StyleString(more)
  {
    assert ([(name, value)] + more)[1..] == more && [(name, value)][1..] == [];
    assert StyleString([(name, value)]) == "##" + name + "--" + value + StyleString([]);
    assert "{@@" + ("##" + name + "--" + value) + "@}" == "{@@##" + name + "--" + value + "@}";
    assert "{@@" + "" + "@}" == "{@@@}";
  }

  /** A character with the style it is shown in. */
  type Styled = (char, Option<StyleMap>)

  function Paint(s: string, style: Option<StyleMap>): seq<Styled> {
    seq(|s|, i requires 0 <= i < |s| => (s[i], style))
  }

  /** What labels show, character by character. */
  function Shown(labels: seq<Label>): seq<Styled> {
    if labels == [] then []
    else Shown(labels[..|labels| - 1]) + Paint(labels[|labels| - 1].text, labels[|labels| - 1].style)
  }

  /** What a token sequence means: text in the style on top, markers moving the stack. */
  function Meaning(ts: seq<Token>, groups: seq<StyleMap>): seq<Styled> {
    if ts == [] then [] else
      (if ts[0].Chars? then Paint(ts[0].text, Top(groups)) else []) + Meaning(ts[1..], After(ts[0], groups))
  }

  function After(t: Token, groups: seq<StyleMap>): seq<StyleMap> {
    match t
    case Open(entries) => Push(groups, AddEntries(map[], entries))
    case Close => Pop(groups)
    case Chars(_) => groups
  }

  function AfterAll(ts: seq<Token>, groups: seq<StyleMap>): seq<StyleMap>
    decreases |ts|
  {
    if ts == [] then groups else AfterAll(ts[1..], After(ts[0], groups))
  }

  /** Text that does not run into looking like a marker: no brace is followed by '@' or '/'. */
  predicate SafeText(s: string, rest: string) {
    s == ""
    || ((s[0] == '{' ==> NextChar(s + rest, 0) != '@' && NextChar(s + rest, 0) != '/') && SafeText(s[1..], rest))
  }

  predicate SafeToken(t: Token, rest: string) {
    match t
    case Open(entries) => CleanEntries(entries)
    case Close => true
    case Chars(text) => SafeText(text, rest)
  }

  predicate Safe(ts: seq<Token>) {
    ts == [] || (Safe(ts[1..]) && SafeToken(ts[0], Print(ts[1..])))
  }

  /** The machine is outside markers; a pending half-close is completed by the next character. */
  predicate Idle(m: Machine, rest: string) {
    !m.inStyle && !m.closingBlock && m.currStyle == "" && (m.closingStyle ==> rest != "" && rest[0] == '}')
  }

  function AllShown(m: Machine): seq<Styled> {
    Shown(m.labels) + Paint(m.currText, Top(m.groups))
  }

  lemma FlushShows(m: Machine)
    ensures AllShown(m.Flush()) == AllShown(m)
  {
    assert m.Flush().labels[..|m.labels|] == m.labels;
    assert Paint("", Top(m.groups)) == [];
  }

  lemma EmptyStylePushesNothing(groups: seq<StyleMap>)
    ensures Push(groups, ParseStyle("")) == groups
  {
    OpenIsNoPart();
  }

  /** Outside markers a character is collected, and flushed at a space or at the end. */
  lemma CharStepIs(m: Machine, c: char, next: char, last: bool)
    requires !m.inStyle && !m.closingBlock && m.currStyle == "" && (m.closingStyle ==> c == '}')
    requires c == '{' ==> next != '@' && next != '/'
    ensures var t := m.(currText := m.currText + [c]);
      m.Step(c, next, last) == (if last || c == ' ' then t.Flush() else t).(closingStyle := c == '@' && next == '}')
  {
    EmptyStylePushesNothing(m.groups);
  }

  /** One character of text. */
  lemma CharStep(m: Machine, c: char, rest: string)
    requires Idle(m, [c] + rest)
    requires c == '{' ==> NextChar([c] + rest, 0) != '@' && NextChar([c] + rest, 0) != '/'
    ensures var m' := m.Step(c, NextChar([c] + rest, 0), rest == "");
      && Idle(m', rest) && m'.groups == m.groups
      && AllShown(m') == AllShown(m) + [(c, Top(m.groups))]
      && (rest == "" ==> m'.currText == "")
  {
    CharStepIs(m, c, NextChar([c] + rest, 0), rest == "");
    var t := m.(currText := m.currText + [c]);
    FlushShows(t);
    PaintLast(m.currText, c, Top(m.groups), Shown(m.labels));
  }

  lemma PaintLast(s: string, c: char, style: Option<StyleMap>, before: seq<Styled>)
    ensures before + Paint(s + [c], style) == before + Paint(s, style) + [(c, style)]
  {
    assert Paint(s + [c], style) == Paint(s, style) + [(c, style)];
  }

  /** A run of text. */
  lemma {:induction false} TextRun(m: Machine, s: string, rest: string) returns (m': Machine)
    requires Idle(m, s + rest) && SafeText(s, rest)
    ensures m.Run(s + rest) == m'.Run(rest)
    ensures Idle(m', rest) && m'.groups == m.groups
    ensures AllShown(m') == AllShown(m) + Paint(s, Top(m.groups))
    ensures s != "" && rest == "" ==> m'.currText == ""
    ensures s == "" ==> m' == m
    decreases |s|
  {
    if s == "" {
      assert s + rest == rest;
      m' := m;
    } else {
      var tail := s[1..] + rest;
      assert s + rest == [s[0]] + tail && (s + rest)[1..] == tail;
      CharStep(m, s[0], tail);
      var m1 := m.Step(s[0], NextChar(s + rest, 0), tail == "");
      RunTo(m, s[0], tail, m1);
      m' := TextRun(m1, s[1..], rest);
      PaintHead(s, Top(m.groups), AllShown(m));
    }
  }

  lemma PaintHead(s: string, style: Option<StyleMap>, before: seq<Styled>)
    requires s != ""
    ensures before + [(s[0], style)] + Paint(s[1..], style) == before + Paint(s, style)
  {
    assert Paint(s, style) == [(s[0], style)] + Paint(s[1..], style);
  }

  lemma InStyleStep(m: Machine, c: char, next: char, last: bool)
    requires m.inStyle && !m.closingStyle && !m.closingBlock && c != '{' && !(c == '@' && next == '}')
    ensures m.Step(c, next, last) == m.(currStyle := m.currStyle + [c])
  {
  }

  /** Inside a marker the machine collects the style string up to the half-close. */
  lemma {:induction false} StyleRun(m: Machine, s: string, rest: string)
    requires m.inStyle && !m.closingStyle && !m.closingBlock
    requires '@' !in s && '{' !in s
    ensures m.Run(s + HALF_CLOSE + rest) == m.(currStyle := m.currStyle + s).Run(HALF_CLOSE + rest)
    decreases |s|
  {
    if s == "" {
      assert s + HALF_CLOSE + rest == HALF_CLOSE + rest;
      assert m.currStyle + s == m.currStyle;
    } else {
      var all := s + HALF_CLOSE + rest;
      assert all[0] == s[0] && all[1..] == s[1..] + HALF_CLOSE + rest;
      assert s[0] in s;
      InStyleStep(m, s[0], NextChar(all, 0), false);
      StyleRun(m.(currStyle := m.currStyle + [s[0]]), s[1..], rest);
      assert m.currStyle + [s[0]] + s[1..] == m.currStyle + s;
    }
  }

  lemma {:induction false} StyleStringChars(es: seq<Entry>)
    requires CleanEntries(es)
    ensures '@' !in StyleString(es) && '{' !in StyleString(es)
    ensures es != [] ==> StyleString(es)[0] == '#'
  {
    if es != [] {
      assert CleanEntry(es[0]);
      StyleStringChars(es[1..]);
      var head := "##" + es[0].0 + "--" + es[0].1;
      assert StyleString(es) == head + StyleString(es[1..]);
    }
  }

  /** The half-close ends the marker and pushes the style. */
  lemma HalfCloseRun(m: Machine, rest: string)
    requires m.inStyle && !m.closingStyle && !m.closingBlock
    ensures m.Run(HALF_CLOSE + rest)
      == m.(inStyle := false, groups := Push(m.groups, ParseStyle(m.currStyle)), currStyle := "").Run(rest)
  {
    var all := HALF_CLOSE + rest;
    var m1 := m.Step('@', '}', false);
    assert all[0] == '@' && NextChar(all, 0) == '}' && all[1..] == "}" + rest;
    assert m1 == m.(closingStyle := true);
    assert (all[1..])[0] == '}' && (all[1..])[1..] == rest;
    var m2 := m1.Step('}', NextChar(all[1..], 0), rest == "");
    assert m2 == m.(inStyle := false, groups := Push(m.groups, ParseStyle(m.currStyle)), currStyle := "");
  }

  lemma RunStep(m: Machine, c: char, rest: string)
    ensures m.Run([c] + rest) == m.Step(c, NextChar([c] + rest, 0), rest == "").Run(rest)
  {
    assert ([c] + rest)[1..] == rest;
  }

  /** A character after which the machine is m1. */
  lemma RunTo(m: Machine, c: char, rest: string, m1: Machine)
    requires m1 == m.Step(c, NextChar([c] + rest, 0), rest == "")
    ensures m.Run([c] + rest) == m1.Run(rest)
  {
    RunStep(m, c, rest);
  }

  lemma OpenFirst(m: Machine, tail: string)
    requires !m.inStyle && !m.closingBlock && !m.closingStyle && m.currStyle == "" && tail != "" && tail[0] == '@'
    ensures m.Run(['{'] + tail) == m.Flush().(inStyle := true, currStyle := "{").Run(tail)
  {
    RunTo(m, '{', tail, m.Flush().(inStyle := true, currStyle := "{"));
  }

  lemma InStyleRun(m: Machine, c: char, tail: string)
    requires m.inStyle && !m.closingStyle && !m.closingBlock && c != '{' && tail != "" && tail[0] != '}'
    ensures m.Run([c] + tail) == m.(currStyle := m.currStyle + [c]).Run(tail)
  {
    InStyleStep(m, c, NextChar([c] + tail, 0), false);
    RunTo(m, c, tail, m.(currStyle := m.currStyle + [c]));
  }

  /** The first three characters of an opening marker. */
  lemma OpenHead(m: Machine, tail: string)
    requires !m.inStyle && !m.closingBlock && !m.closingStyle && m.currStyle == "" && tail != "" && tail[0] != '}'
    ensures m.Run(OPEN_STYLE + tail) == m.Flush().(inStyle := true, currStyle := OPEN_STYLE).Run(tail)
  {
    var t1, t2 := ['@'] + (['@'] + tail), ['@'] + tail;
    var m1 := m.Flush().(inStyle := true, currStyle := "{");
    OpenFirst(m, t1);
    InStyleRun(m1, '@', t2);
    InStyleRun(m1.(currStyle := "{@"), '@', tail);
    assert OPEN_STYLE + tail == ['{'] + t1;
    assert "{" + ['@'] == "{@" && "{@" + ['@'] == OPEN_STYLE;
  }

  lemma OpenRun(m: Machine, es: seq<Entry>, rest: string)
    requires Idle(m, Spell(Open(es)) + rest) && CleanEntries(es)
    ensures m.Run(Spell(Open(es)) + rest)
      == m.Flush().(groups := Push(m.groups, AddEntries(map[], es))).Run(rest)
  {
    var body := StyleString(es);
    var tail := body + HALF_CLOSE + rest;
    StyleStringChars(es);
    assert Spell(Open(es)) + rest == OPEN_STYLE + tail;
    assert tail[0] == if es == [] then '@' else body[0];
    OpenHead(m, tail);
    var m1 := m.Flush().(inStyle := true, currStyle := OPEN_STYLE);
    StyleRun(m1, body, rest);
    HalfCloseRun(m1.(currStyle := OPEN_STYLE + body), rest);
    MarkerReads(es);
  }

  lemma CloseRun(m: Machine, rest: string)
    requires Idle(m, CLOSE_STYLE + rest)
    ensures m.Run(CLOSE_STYLE + rest) == m.Flush().(groups := Pop(m.groups)).Run(rest)
  {
    var t3 := ['}'] + rest;
    var t2 := ['@'] + t3;
    var t1 := ['/'] + t2;
    var m1 := m.(closingBlock := true);
    var m2 := m1.(closingStyle := true);
    assert CLOSE_STYLE + rest == ['{'] + t1;
    RunTo(m, '{', t1, m1);
    RunTo(m1, '/', t2, m1);
    RunTo(m1, '@', t3, m2);
    CloseEnd(m2, NextChar(t3, 0), rest == "");
    RunTo(m2, '}', rest, m.Flush().(groups := Pop(m.groups)));
  }

  lemma CloseEnd(m: Machine, next: char, last: bool)
    requires !m.inStyle && m.closingBlock && m.closingStyle && m.currStyle == ""
    ensures m.Step('}', next, last) == m.Flush().(groups := Pop(m.groups), closingBlock := false, closingStyle := false)
  {
    EmptyStylePushesNothing(Pop(m.groups));
  }

  /** From m, the machine m' has shown what ts means and moved the stack accordingly. */
  ghost predicate HasShown(m: Machine, m': Machine, ts: seq<Token>) {
    && m'.groups == AfterAll(ts, m.groups)
    && AllShown(m') == AllShown(m) + Meaning(ts, m.groups)
    && Idle(m', "")
  }

  lemma MarkerFlush(m: Machine, t: Token)
    requires !t.Chars?
    ensures AllShown(m.Flush().(groups := After(t, m.groups))) == AllShown(m)
  {
    FlushShows(m);
    assert Paint("", Top(After(t, m.groups))) == Paint("", Top(m.groups)) == [];
  }

  /** Rendering what was printed shows what it means, and leaves the stack as it says. */
  lemma {:induction false} RunMeans(m: Machine, ts: seq<Token>)
    requires Safe(ts) && Idle(m, Print(ts))
    ensures HasShown(m, m.Run(Print(ts)), ts)
    ensures Print(ts) != "" || m.currText == "" ==> m.Run(Print(ts)).currText == ""
    decreases |ts|
  {
    if ts != [] {
      var m1 := TokenRun(m, ts);
      RunMeans(m1, ts[1..]);
      ShownOnward(m, m1, m1.Run(Print(ts[1..])), ts);
    }
  }

  lemma ShownOnward(m: Machine, m1: Machine, m': Machine, ts: seq<Token>)
    requires ts != [] && m1.groups == After(ts[0], m.groups) && HasShown(m1, m', ts[1..])
    requires AllShown(m1) == AllShown(m) + if ts[0].Chars? then Paint(ts[0].text, Top(m.groups)) else []
    ensures HasShown(m, m', ts)
  {
    Associate(AllShown(m), if ts[0].Chars? then Paint(ts[0].text, Top(m.groups)) else [], Meaning(ts[1..], m1.groups));
  }

  lemma Associate(a: seq<Styled>, b: seq<Styled>, c: seq<Styled>)
    ensures a + b + c == a + (b + c)
  {
  }

  /** One token. */
  lemma TokenRun(m: Machine, ts: seq<Token>) returns (m1: Machine)
    requires ts != [] && Safe(ts) && Idle(m, Print(ts))
    ensures m.Run(Print(ts)) == m1.Run(Print(ts[1..]))
    ensures Idle(m1, Print(ts[1..])) && m1.groups == After(ts[0], m.groups)
    ensures AllShown(m1) == AllShown(m) + if ts[0].Chars? then Paint(ts[0].text, Top(m.groups)) else []
    ensures Print(ts[1..]) == "" && (Print(ts) != "" || m.currText == "") ==> m1.currText == ""
  {
    var rest := Print(ts[1..]);
    match ts[0] {
      case Open(entries) =>
        OpenRun(m, entries, rest);
        MarkerFlush(m, ts[0]);
        m1 := m.Flush().(groups := After(ts[0], m.groups));
      case Close =>
        CloseRun(m, rest);
        MarkerFlush(m, ts[0]);
        m1 := m.Flush().(groups := After(ts[0], m.groups));
      case Chars(text) =>
        m1 := TextRun(m, text, rest);
    }
  }

  /** What a call of the renderer shows for a printed sequence. */
  lemma RenderMeans(ts: seq<Token>, groups: seq<StyleMap>)
    requires Safe(ts)
    ensures var m := Start(groups).Run(Print(ts));
      Shown(m.labels) == Meaning(ts, groups) && m.groups == AfterAll(ts, groups)
  {
    var m, m' := Start(groups), Start(groups).Run(Print(ts));
    RunMeans(m, ts);
    assert AllShown(m) == [];
    assert AllShown(m') == Shown(m'.labels);
  }
}
