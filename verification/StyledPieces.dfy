/** Content that reaches the renderer in pieces: cut anywhere outside its markers, and rendered piece by
    piece with the style stack carried over, it shows the same. */
module StyledPieces {
  import opened StyledText
  import opened StyledRender
  import opened StyledMarkers
  import opened StyledTree

  function Join(pieces: seq<string>): string {
    if pieces == [] then "" else pieces[0] + Join(pieces[1..])
  }

  /** What the renderer shows for one piece after the other, and the stack it ends with. */
  function RenderPieces(pieces: seq<string>, groups: seq<StyleMap>): (seq<Styled>, seq<StyleMap>)
    decreases |pieces|
  {
    if pieces == [] then ([], groups)
    else
      var m := Start(groups).Run(pieces[0]);
      var (shown, left) := RenderPieces(pieces[1..], m.groups);
      (Shown(m.labels) + shown, left)
  }

  /** Position c of the printed content is not strictly inside a marker. */
  predicate OutsideMarkers(ts: seq<Token>, c: nat)
    decreases |ts|
  {
    if ts == [] then c == 0
    else
      var l := |Spell(ts[0])|;
      if c >= l then OutsideMarkers(ts[1..], c - l) else c == 0 || ts[0].Chars?
  }

  /** The pieces, laid end to end from position c on, all end outside markers. */
  predicate CutOutside(ts: seq<Token>, c: nat, pieces: seq<string>)
    decreases |pieces|
  {
    pieces == []
    || (OutsideMarkers(ts, c + |pieces[0]|) && CutOutside(ts, c + |pieces[0]|, pieces[1..]))
  }

  /** A text may be cut wherever it stands. */
  lemma {:induction false} AnyTextMayBeCut(pre: seq<Token>, x: string, y: string, ts: seq<Token>)
    requires Safe(pre + [Chars(x + y)] + ts)
    ensures Safe((pre + [Chars(x)]) + ([Chars(y)] + ts))
    ensures Print((pre + [Chars(x)]) + ([Chars(y)] + ts)) == Print(pre + [Chars(x + y)] + ts)
    decreases |pre|
  {
    var whole, cut := pre + [Chars(x + y)] + ts, (pre + [Chars(x)]) + ([Chars(y)] + ts);
    if pre == [] {
      assert whole == [Chars(x + y)] + ts && cut == [Chars(x), Chars(y)] + ts;
      TextMayBeCut(x, y, ts);
    } else {
      assert whole[1..] == pre[1..] + [Chars(x + y)] + ts;
      assert cut[1..] == (pre[1..] + [Chars(x)]) + ([Chars(y)] + ts);
      AnyTextMayBeCut(pre[1..], x, y, ts);
      assert whole[0] == cut[0] == pre[0];
    }
  }

  /** Tokens on either side of a position outside markers, where a text may have to be cut in two. */
  lemma {:induction false} SplitAt(ts: seq<Token>, c: nat) returns (a: seq<Token>, b: seq<Token>)
    requires Safe(ts) && OutsideMarkers(ts, c)
    ensures Safe(a + b) && Print(a + b) == Print(ts) && |Print(a)| == c
    ensures forall d: nat :: OutsideMarkers(ts, c + d) ==> OutsideMarkers(b, d)
    decreases |ts|
  {
    if ts == [] || c == 0 {
      a, b := [], ts;
      assert a + b == ts;
    } else if c >= |Spell(ts[0])| {
      var a1, b1 := SplitAt(ts[1..], c - |Spell(ts[0])|);
      a, b := [ts[0]] + a1, b1;
      TokenInFront(ts, a1, b1);
    } else {
      a, b := CutFirstText(ts, c);
    }
  }

  lemma TokenInFront(ts: seq<Token>, a: seq<Token>, b: seq<Token>)
    requires Safe(ts) && ts != [] && Safe(a + b) && Print(a + b) == Print(ts[1..])
    ensures Safe(([ts[0]] + a) + b) && Print(([ts[0]] + a) + b) == Print(ts)
    ensures |Print([ts[0]] + a)| == |Spell(ts[0])| + |Print(a)|
  {
    var all := ([ts[0]] + a) + b;
    assert all[0] == ts[0] && all[1..] == a + b && ([ts[0]] + a)[1..] == a;
  }

  lemma CutFirstText(ts: seq<Token>, c: nat) returns (a: seq<Token>, b: seq<Token>)
    requires Safe(ts) && ts != [] && ts[0].Chars? && 0 < c < |ts[0].text|
    ensures Safe(a + b) && Print(a + b) == Print(ts) && |Print(a)| == c
    ensures forall d: nat :: OutsideMarkers(ts, c + d) ==> OutsideMarkers(b, d)
  {
    var x, y := ts[0].text[..c], ts[0].text[c..];
    a, b := [Chars(x)], [Chars(y)] + ts[1..];
    assert ts[0] == Chars(x + y);
    assert ts == [Chars(x + y)] + ts[1..] && a + b == [Chars(x), Chars(y)] + ts[1..];
    TextMayBeCut(x, y, ts[1..]);
    assert b[1..] == ts[1..];
    assert a[1..] == [];
    assert Print(a) == x + Print([]) == x;
  }

  lemma {:induction false} CutOutsideRest(ts: seq<Token>, b: seq<Token>, c: nat, d: nat, pieces: seq<string>)
    requires forall e: nat :: OutsideMarkers(ts, c + e) ==> OutsideMarkers(b, e)
    requires CutOutside(ts, c + d, pieces)
    ensures CutOutside(b, d, pieces)
    decreases |pieces|
  {
    if pieces != [] {
      assert OutsideMarkers(ts, c + (d + |pieces[0]|));
      CutOutsideRest(ts, b, c, d + |pieces[0]|, pieces[1..]);
    }
  }

  /** However printed tokens are cut outside their markers, rendering the pieces in order shows what
      the tokens mean and moves the stack as they say. */
  lemma {:induction false} PiecesMean(ts: seq<Token>, pieces: seq<string>, groups: seq<StyleMap>)
    requires Safe(ts) && Join(pieces) == Print(ts) && CutOutside(ts, 0, pieces)
    ensures RenderPieces(pieces, groups) == (Meaning(ts, groups), AfterAll(ts, groups))
    decreases |pieces|
  {
    if pieces == [] {
      RenderMeans(ts, groups);
    } else {
      var c := |pieces[0]|;
      var a, b := SplitAt(ts, c);
      SafePieces(a, b);
      assert Print(a) == Print(ts)[..c] == pieces[0] && Print(b) == Print(ts)[c..] == Join(pieces[1..]);
      CutOutsideRest(ts, b, c, 0, pieces[1..]);
      RenderMeans(a, groups);
      PiecesMean(b, pieces[1..], AfterAll(a, groups));
      MeaningConcat(a, b, groups);
      SameMeaning(a + b, ts, groups);
    }
  }

  /** Safe sequences that print alike mean the same. */
  lemma SameMeaning(a: seq<Token>, b: seq<Token>, groups: seq<StyleMap>)
    requires Safe(a) && Safe(b) && Print(a) == Print(b)
    ensures Meaning(a, groups) == Meaning(b, groups) && AfterAll(a, groups) == AfterAll(b, groups)
  {
    RenderMeans(a, groups);
    RenderMeans(b, groups);
  }

  /** For any document and any way of cutting its printed content outside markers, rendering the pieces
      in order shows the same as rendering it whole, ends with the same empty stack, and shows every
      character with its nearest definition of every style name. */
  lemma CutAnywhere(doc: Nodes, pieces: seq<string>)
    requires Ordered(doc, map[]) && CleanNodes(doc)
    requires Join(pieces) == Print(Tokens(doc, map[])) && CutOutside(Tokens(doc, map[]), 0, pieces)
    ensures var whole := Start([]).Run(Print(Tokens(doc, map[])));
      && RenderPieces(pieces, []) == (Shown(whole.labels), whole.groups)
      && RenderPieces(pieces, []).1 == []
      && Faithful(RenderPieces(pieces, []).0, Characters(doc, []))
  {
    var ts := Tokens(doc, map[]);
    CleanIsSafe(doc, map[], []);
    assert ts + [] == ts;
    RenderMeans(ts, []);
    PiecesMean(ts, pieces, []);
    InheritancePreserved(doc);
  }
}
