/** Style inheritance: flattening a tree of styled elements into markers, and what comes back. */
module StyledTree {
  import opened Wrappers
  import opened Scanning
  import opened StyledText
  import opened StyledRender
  import opened StyledMarkers

  /** Sibling nodes. An element carries its own styles and, for its opening marker, the order in
      which the (unordered) merged style map happens to be enumerated. */
  datatype Nodes =
    | End
    | Text(text: string, next: Nodes)
    | Elem(block: bool, own: StyleMap, order: seq<string>, children: Nodes, next: Nodes)

  /** An element's own styles override what it inherits. */
  function Merge(own: StyleMap, inherited: StyleMap): StyleMap {
    inherited + own
  }

  function Entries(order: seq<string>, m: StyleMap): seq<Entry> {
    if order == [] then []
    else (if order[0] in m then [(order[0], m[order[0]])] else []) + Entries(order[1..], m)
  }

  const LINE_END := " \n "

  /** The markers and text that the nodes are turned into; a block element also ends its line. */
  function Tokens(n: Nodes, inherited: StyleMap): seq<Token> {
    match n
    case End => []
    case Text(text, next) => [Chars(text)] + Tokens(next, inherited)
    case Elem(block, own, order, children, next) =>
      var style := Merge(own, inherited);
      [Open(Entries(order, style))] + Tokens(children, style) + [Close]
      + (if block then [Chars(LINE_END)] else []) + Tokens(next, inherited)
  }

  /** Every opening marker enumerates the element's merged styles completely. */
  ghost predicate Ordered(n: Nodes, inherited: StyleMap) {
    match n
    case End => true
    case Text(_, next) => Ordered(next, inherited)
    case Elem(_, own, order, children, next) =>
      var style := Merge(own, inherited);
      && (forall k | k in style :: k in order)
      && Ordered(children, style) && Ordered(next, inherited)
  }

  // ---------------------------------------------------------------------------------------
  // The reference: the nearest definition on the way up

  /** The own styles of the elements around a character, innermost first. */
  type Chain = seq<StyleMap>

  /** The value of a name in the nearest element that defines it. */
  function Nearest(chain: Chain, name: string): Option<string> {
    if chain == [] then None
    else if name in chain[0] then Some(chain[0][name])
    else Nearest(chain[1..], name)
  }

  /** The document's characters, each with the elements around it. */
  function Characters(n: Nodes, chain: Chain): seq<(char, Chain)> {
    match n
    case End => []
    case Text(text, next) => Inside(text, chain) + Characters(next, chain)
    case Elem(block, own, _, children, next) =>
      Characters(children, [own] + chain) + (if block then Inside(LINE_END, chain) else []) + Characters(next, chain)
  }

  function Inside(s: string, chain: Chain): seq<(char, Chain)> {
    seq(|s|, i requires 0 <= i < |s| => (s[i], chain))
  }

  /** The value of a name in the style a character is shown in. */
  function ValueOf(style: Option<StyleMap>, name: string): Option<string> {
    if style.Some? && name in style.value then Some(style.value[name]) else None
  }

  /** Each character is shown with, for every style name, its nearest definition. */
  ghost predicate Faithful(shown: seq<Styled>, chars: seq<(char, Chain)>) {
    && |shown| == |chars|
    && forall i | 0 <= i < |shown| ::
         shown[i].0 == chars[i].0 && forall name :: ValueOf(shown[i].1, name) == Nearest(chars[i].1, name)
  }

  /** The map an element ends up with agrees with its chain. */
  ghost predicate Effective(style: StyleMap, chain: Chain) {
    forall name :: Nearest(chain, name) == ValueOf(Some(style), name)
  }

  /** What the stack holds while nodes inheriting these styles are rendered: empty maps are never
      pushed, so the stack is empty exactly where nothing is inherited. */
  ghost predicate Agrees(groups: seq<StyleMap>, inherited: StyleMap) {
    if groups == [] then inherited == map[] else Top(groups) == Some(inherited) && inherited != map[]
  }

  lemma {:induction false} EntriesDenote(order: seq<string>, m: StyleMap, acc: StyleMap)
    requires acc.Keys <= m.Keys && forall k | k in acc :: acc[k] == m[k]
    requires forall k | k in m :: k in order || k in acc
    ensures AddEntries(acc, Entries(order, m)) == m
    decreases |order|
  {
    if order == [] {
      assert acc == m;
    } else {
      var k, es := order[0], Entries(order[1..], m);
      assert order == [k] + order[1..];
      if k in m {
        assert ([(k, m[k])] + es)[1..] == es;
        EntriesDenote(order[1..], m, acc[k := m[k]]);
      } else {
        assert [] + es == es;
        EntriesDenote(order[1..], m, acc);
      }
    }
  }

  lemma {:induction false} MeaningConcat(a: seq<Token>, b: seq<Token>, groups: seq<StyleMap>)
    ensures Meaning(a + b, groups) == Meaning(a, groups) + Meaning(b, AfterAll(a, groups))
    ensures AfterAll(a + b, groups) == AfterAll(b, AfterAll(a, groups))
    decreases |a|
  {
    if a == [] {
      assert a + b == b;
    } else {
      assert (a + b)[1..] == a[1..] + b;
      MeaningConcat(a[1..], b, After(a[0], groups));
    }
  }

  lemma OneToken(t: Token, groups: seq<StyleMap>)
    ensures AfterAll([t], groups) == After(t, groups)
    ensures Meaning([t], groups) == if t.Chars? then Paint(t.text, Top(groups)) else []
  {
    assert [t][1..] == [];
  }

  lemma MergeEffective(own: StyleMap, inherited: StyleMap, chain: Chain)
    requires Effective(inherited, chain)
    ensures Effective(Merge(own, inherited), [own] + chain)
  {
    assert ([own] + chain)[1..] == chain;
  }

  /** Text shown under an agreeing stack shows the nearest definitions. */
  lemma PaintFaithful(s: string, groups: seq<StyleMap>, inherited: StyleMap, chain: Chain)
    requires Agrees(groups, inherited) && Effective(inherited, chain)
    ensures Faithful(Paint(s, Top(groups)), Inside(s, chain))
  {
    forall name ensures ValueOf(Top(groups), name) == Nearest(chain, name) {
      assert ValueOf(Some(inherited), name) == Nearest(chain, name);
    }
  }

  lemma FaithfulConcat(a: seq<Styled>, x: seq<(char, Chain)>, b: seq<Styled>, y: seq<(char, Chain)>)
    requires Faithful(a, x) && Faithful(b, y)
    ensures Faithful(a + b, x + y)
  {
  }

  /** An opening marker makes the stack agree with the element's styles, and its closing marker
      restores it exactly, because an element without styles only occurs on an empty stack. */
  lemma OpenAndClose(own: StyleMap, order: seq<string>, inherited: StyleMap, groups: seq<StyleMap>)
    requires Agrees(groups, inherited) && forall k | k in Merge(own, inherited) :: k in order
    ensures var inner := After(Open(Entries(order, Merge(own, inherited))), groups);
      Agrees(inner, Merge(own, inherited)) && After(Close, inner) == groups
  {
    var style := Merge(own, inherited);
    EntriesDenote(order, style, map[]);
    if style == map[] {
      assert inherited == map[] by {
        assert inherited.Keys <= style.Keys;
      }
    } else {
      assert (groups + [style])[..|groups|] == groups;
    }
  }

  /** The tree is shown faithfully and the stack is balanced. */
  lemma {:induction false} TreeMeans(n: Nodes, inherited: StyleMap, chain: Chain, groups: seq<StyleMap>)
    requires Ordered(n, inherited) && Agrees(groups, inherited) && Effective(inherited, chain)
    ensures Faithful(Meaning(Tokens(n, inherited), groups), Characters(n, chain))
    ensures AfterAll(Tokens(n, inherited), groups) == groups
    decreases n, 0
  {
    match n
    case End =>
    case Text(text, next) =>
      TreeMeans(next, inherited, chain, groups);
      PaintFaithful(text, groups, inherited, chain);
      OneToken(Chars(text), groups);
      MeaningConcat([Chars(text)], Tokens(next, inherited), groups);
      FaithfulConcat(Paint(text, Top(groups)), Inside(text, chain),
                     Meaning(Tokens(next, inherited), groups), Characters(next, chain));
    case Elem(block, own, order, children, next) =>
      ElemMeans(block, own, order, children, inherited, chain, groups);
      TreeMeans(next, inherited, chain, groups);
      var first := ElemTokens(block, own, order, children, inherited);
      MeaningConcat(first, Tokens(next, inherited), groups);
      assert Tokens(n, inherited) == first + Tokens(next, inherited);
      var chars := Characters(children, [own] + chain) + (if block then Inside(LINE_END, chain) else []);
      FaithfulConcat(Meaning(first, groups), chars, Meaning(Tokens(next, inherited), groups), Characters(next, chain));
      assert Characters(n, chain) == chars + Characters(next, chain);
  }

  function ElemTokens(block: bool, own: StyleMap, order: seq<string>, children: Nodes, inherited: StyleMap)
    : seq<Token>
  {
    var style := Merge(own, inherited);
    [Open(Entries(order, style))] + Tokens(children, style) + [Close] + (if block then [Chars(LINE_END)] else [])
  }

  /** A marked-up body, when its closing marker gives the stack back. */
  lemma BracketMeans(t: Token, body: seq<Token>, tail: seq<Token>, groups: seq<StyleMap>)
    requires !t.Chars? && AfterAll(body, After(t, groups)) == After(t, groups)
    requires After(Close, After(t, groups)) == groups
    ensures Meaning([t] + body + [Close] + tail, groups) == Meaning(body, After(t, groups)) + Meaning(tail, groups)
    ensures AfterAll([t] + body + [Close] + tail, groups) == AfterAll(tail, groups)
  {
    var inner := After(t, groups);
    var marked := [t] + body;
    MarkerMeans(t, body, groups);
    MeaningConcat(marked, [Close], groups);
    OneToken(Close, inner);
    assert Meaning(marked + [Close], groups) == Meaning(body, inner);
    MeaningConcat(marked + [Close], tail, groups);
  }

  lemma MarkerMeans(t: Token, body: seq<Token>, groups: seq<StyleMap>)
    requires !t.Chars?
    ensures Meaning([t] + body, groups) == Meaning(body, After(t, groups))
    ensures AfterAll([t] + body, groups) == AfterAll(body, After(t, groups))
  {
    assert ([t] + body)[1..] == body;
  }

  lemma TailMeans(block: bool, inherited: StyleMap, chain: Chain, groups: seq<StyleMap>)
    requires Agrees(groups, inherited) && Effective(inherited, chain)
    ensures var tail := if block then [Chars(LINE_END)] else [];
      Faithful(Meaning(tail, groups), if block then Inside(LINE_END, chain) else []) && AfterAll(tail, groups) == groups
  {
    PaintFaithful(LINE_END, groups, inherited, chain);
    OneToken(Chars(LINE_END), groups);
  }

  lemma {:induction false} ElemMeans(block: bool, own: StyleMap, order: seq<string>, children: Nodes,
                                     inherited: StyleMap, chain: Chain, groups: seq<StyleMap>)
    requires (forall k | k in Merge(own, inherited) :: k in order) && Ordered(children, Merge(own, inherited))
    requires Agrees(groups, inherited) && Effective(inherited, chain)
    ensures Faithful(Meaning(ElemTokens(block, own, order, children, inherited), groups),
                     Characters(children, [own] + chain) + if block then Inside(LINE_END, chain) else [])
    ensures AfterAll(ElemTokens(block, own, order, children, inherited), groups) == groups
    decreases children, 1
  {
    var style := Merge(own, inherited);
    var open := Open(Entries(order, style));
    var body, tail := Tokens(children, style), if block then [Chars(LINE_END)] else [];
    OpenAndClose(own, order, inherited, groups);
    MergeEffective(own, inherited, chain);
    TreeMeans(children, style, [own] + chain, After(open, groups));
    TailMeans(block, inherited, chain, groups);
    BracketMeans(open, body, tail, groups);
    FaithfulConcat(Meaning(body, After(open, groups)), Characters(children, [own] + chain),
                   Meaning(tail, groups), if block then Inside(LINE_END, chain) else []);
  }

  // ---------------------------------------------------------------------------------------
  // Which documents are safe to print

  ghost predicate CleanStyles(m: StyleMap) {
    forall k | k in m :: CleanEntry((k, m[k]))
  }

  /** The text does not contain what would read as the start of a marker. */
  predicate FreeOfMarkers(s: string) {
    s == "" || ((s[0] == '{' ==> NextChar(s, 0) != '@' && NextChar(s, 0) != '/') && FreeOfMarkers(s[1..]))
  }

  /** Text free of marker starts, not completed into one by a directly following text node; style
      names and values free of separators. */
  ghost predicate CleanNodes(n: Nodes) {
    match n
    case End => true
    case Text(text, next) =>
      FreeOfMarkers(text) && (text != "" && text[|text| - 1] == '{' ==> !next.Text?) && CleanNodes(next)
    case Elem(_, own, _, children, next) => CleanStyles(own) && CleanNodes(children) && CleanNodes(next)
  }

  predicate HarmlessStart(s: string) {
    s == "" || (s[0] != '@' && s[0] != '/')
  }

  lemma {:induction false} FreeIsSafe(s: string, rest: string)
    requires FreeOfMarkers(s) && (s != "" && s[|s| - 1] == '{' ==> HarmlessStart(rest))
    ensures SafeText(s, rest)
    decreases |s|
  {
    if s != "" {
      FreeIsSafe(s[1..], rest);
    }
  }

  lemma {:induction false} EntriesClean(order: seq<string>, m: StyleMap)
    requires CleanStyles(m)
    ensures CleanEntries(Entries(order, m))
    decreases |order|
  {
    if order != [] {
      EntriesClean(order[1..], m);
    }
  }

  /** Followed by anything safe, a clean document prints safely. */
  lemma {:induction false} CleanIsSafe(n: Nodes, inherited: StyleMap, rest: seq<Token>)
    requires CleanNodes(n) && CleanStyles(inherited) && Safe(rest) && HarmlessStart(Print(rest))
    ensures Safe(Tokens(n, inherited) + rest)
    ensures !n.Text? ==> HarmlessStart(Print(Tokens(n, inherited) + rest))
    decreases n, 0
  {
    match n
    case End =>
      assert Tokens(n, inherited) + rest == rest;
    case Text(text, next) =>
      var more := Tokens(next, inherited) + rest;
      CleanIsSafe(next, inherited, rest);
      FreeIsSafe(text, Print(more));
      SafeCons(Chars(text), more);
      Associate([Chars(text)], Tokens(next, inherited), rest);
    case Elem(block, own, order, children, next) =>
      var more := Tokens(next, inherited) + rest;
      CleanIsSafe(next, inherited, rest);
      CleanElem(block, own, order, children, inherited, more);
      Associate(ElemTokens(block, own, order, children, inherited), Tokens(next, inherited), rest);
  }

  lemma Associate<T>(a: seq<T>, b: seq<T>, c: seq<T>)
    ensures a + b + c == a + (b + c)
  {
  }

  lemma {:induction false} CleanElem(block: bool, own: StyleMap, order: seq<string>, children: Nodes,
                                     inherited: StyleMap, rest: seq<Token>)
    requires CleanStyles(own) && CleanNodes(children) && CleanStyles(inherited) && Safe(rest)
    ensures Safe(ElemTokens(block, own, order, children, inherited) + rest)
    ensures HarmlessStart(Print(ElemTokens(block, own, order, children, inherited) + rest))
    decreases children, 1
  {
    var style := Merge(own, inherited);
    var open := Open(Entries(order, style));
    var tail := (if block then [Chars(LINE_END)] else []) + rest;
    assert !block ==> tail == rest;
    FreeIsSafe(LINE_END, Print(rest));
    SafeCons(Chars(LINE_END), rest);
    SafeCons(Close, tail);
    CleanIsSafe(children, style, [Close] + tail);
    EntriesClean(order, style);
    SafeCons(open, Tokens(children, style) + ([Close] + tail));
    FiveParts(open, Tokens(children, style), if block then [Chars(LINE_END)] else [], rest);
  }

  lemma FiveParts(open: Token, body: seq<Token>, tail: seq<Token>, rest: seq<Token>)
    ensures [open] + body + [Close] + tail + rest == [open] + (body + ([Close] + (tail + rest)))
  {
  }

  lemma SafeCons(t: Token, ts: seq<Token>)
    requires Safe(ts) && SafeToken(t, Print(ts))
    ensures Safe([t] + ts) && Print([t] + ts) == Spell(t) + Print(ts)
    ensures !t.Chars? ==> HarmlessStart(Print([t] + ts))
  {
    assert ([t] + ts)[1..] == ts;
  }

  // ---------------------------------------------------------------------------------------
  // Main results

  /** Style inheritance is preserved: printing a document and rendering it from an empty stack shows
      the original text, every character with its nearest definition of every style name, and
      leaves the stack empty again. */
  lemma InheritancePreserved(doc: Nodes)
    requires Ordered(doc, map[]) && CleanNodes(doc)
    ensures var m := Start([]).Run(Print(Tokens(doc, map[])));
      Faithful(Shown(m.labels), Characters(doc, [])) && m.groups == []
  {
    CleanIsSafe(doc, map[], []);
    assert Tokens(doc, map[]) + [] == Tokens(doc, map[]);
    TreeMeans(doc, map[], [], []);
    RenderMeans(Tokens(doc, map[]), []);
  }

  /** A block element ends its line with a blank, a line break and a blank, outside its own style; any
      other element adds nothing to its text. */
  lemma BlockEndsLine(block: bool, own: StyleMap, order: seq<string>, text: string, chain: Chain)
    ensures Characters(Elem(block, own, order, Text(text, End), End), chain)
      == Inside(text, [own] + chain) + (if block then Inside(" \n ", chain) else [])
    ensures Tokens(Elem(block, own, order, Text(text, End), End), map[])
      == [Open(Entries(order, own)), Chars(text), Close] + (if block then [Chars(" \n ")] else [])
  {
    assert Merge(own, map[]) == own;
    assert Characters(Text(text, End), [own] + chain) == Inside(text, [own] + chain);
    assert Tokens(Text(text, End), own) == [Chars(text)];
  }

  /** A list prefix that cannot be read as a marker is shown in front, in the style on top of the stack,
      and changes nothing behind it. */
  lemma PrefixShownFirst(prefix: string, ts: seq<Token>, groups: seq<StyleMap>)
    requires Safe(ts) && FreeOfMarkers(prefix + " ")
    ensures var m := Start(groups).Run(Prefixed(prefix, Print(ts)));
      && Shown(m.labels) ==
           (if prefix == "" then [] else Paint(prefix + " ", Top(groups))) + Meaning(ts, groups)
      && m.groups == AfterAll(ts, groups)
  {
    if prefix == "" {
      RenderMeans(ts, groups);
    } else {
      var all := [Chars(prefix + " ")] + ts;
      assert all[1..] == ts;
      FreeIsSafe(prefix + " ", Print(ts));
      assert Print(all) == Prefixed(prefix, Print(ts));
      RenderMeans(all, groups);
    }
  }

  /** Rendering in pieces: cut between any two tokens (text may be cut into several), the pieces
      rendered one after the other show the same and leave the same stack. */
  lemma CutsDoNotMatter(a: seq<Token>, b: seq<Token>, groups: seq<StyleMap>)
    requires Safe(a + b)
    ensures var whole := Start(groups).Run(Print(a) + Print(b));
      var first := Start(groups).Run(Print(a));
      var second := Start(first.groups).Run(Print(b));
      Shown(whole.labels) == Shown(first.labels) + Shown(second.labels) && whole.groups == second.groups
  {
    SafePieces(a, b);
    RenderMeans(a + b, groups);
    RenderMeans(a, groups);
    RenderMeans(b, AfterAll(a, groups));
    MeaningConcat(a, b, groups);
  }

  lemma {:induction false} PrintConcat(a: seq<Token>, b: seq<Token>)
    ensures Print(a + b) == Print(a) + Print(b)
    decreases |a|
  {
    if a == [] {
      assert a + b == b;
    } else {
      assert (a + b)[1..] == a[1..] + b;
      PrintConcat(a[1..], b);
    }
  }

  lemma {:induction false} SafePieces(a: seq<Token>, b: seq<Token>)
    requires Safe(a + b)
    ensures Safe(a) && Safe(b) && Print(a + b) == Print(a) + Print(b)
    decreases |a|
  {
    PrintConcat(a, b);
    if a == [] {
      assert a + b == b;
    } else {
      var rest := a[1..] + b;
      assert (a + b)[1..] == rest && (a + b)[0] == a[0];
      assert Safe(rest);
      SafePieces(a[1..], b);
      if a[0].Chars? {
        SafeTextShorter(a[0].text, Print(a[1..]), Print(b));
      }
    }
  }

  lemma {:induction false} SafeTextShorter(s: string, rest: string, more: string)
    requires SafeText(s, rest + more)
    ensures SafeText(s, rest)
    decreases |s|
  {
    if s != "" {
      assert s + (rest + more) == (s + rest) + more;
      SafeTextShorter(s[1..], rest, more);
    }
  }

  /** A text token may be cut anywhere. */
  lemma {:induction false} TextMayBeCut(x: string, y: string, ts: seq<Token>)
    requires Safe([Chars(x + y)] + ts)
    ensures Safe([Chars(x), Chars(y)] + ts)
    ensures Print([Chars(x), Chars(y)] + ts) == Print([Chars(x + y)] + ts)
  {
    assert ([Chars(x + y)] + ts)[1..] == ts;
    assert ([Chars(x), Chars(y)] + ts)[1..] == [Chars(y)] + ts;
    assert ([Chars(y)] + ts)[1..] == ts;
    SafeTextCut(x, y, Print(ts));
    assert Print([Chars(y)] + ts) == y + Print(ts);
    assert Safe([Chars(y)] + ts);
    assert x + y + Print(ts) == x + (y + Print(ts));
  }

  lemma {:induction false} SafeTextCut(x: string, y: string, rest: string)
    requires SafeText(x + y, rest)
    ensures SafeText(x, y + rest) && SafeText(y, rest)
    decreases |x|
  {
    if x == "" {
      assert x + y == y;
    } else {
      assert (x + y)[1..] == x[1..] + y;
      assert x + y + rest == x + (y + rest);
      SafeTextCut(x[1..], y, rest);
    }
  }

  /** Balance needs the agreement: an element without any style, rendered on some stack, gives the
      stack back exactly if the stack is empty. */
  lemma UnstyledBalanced(text: string, groups: seq<StyleMap>)
    ensures AfterAll(Tokens(Elem(false, map[], [], Text(text, End), End), map[]), groups) == groups <==> groups == []
  {
    var ts := [Open([]), Chars(text), Close];
    assert Tokens(Elem(false, map[], [], Text(text, End), End), map[]) == ts;
    assert ts[1..] == [Chars(text), Close] && ts[1..][1..] == [Close];
    OneToken(Close, groups);
  }
}
