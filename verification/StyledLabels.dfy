/** Where labels end: at each blank, at each marker, and at the end of the content, and nowhere else. */
module StyledLabels {
  import opened Wrappers
  import opened Scanning
  import opened StyledText
  import opened StyledRender
  import opened StyledMarkers
  import opened StyledTree

  /** Labels made earlier change nothing but stand in front. */
  function Behind(m: Machine, before: seq<Label>): Machine {
    m.(labels := before + m.labels)
  }

  lemma FlushBehind(m: Machine, before: seq<Label>)
    ensures Behind(m, before).Flush() == Behind(m.Flush(), before)
  {
    assert before + m.labels + [Label(m.currText, Top(m.groups))]
      == before + (m.labels + [Label(m.currText, Top(m.groups))]);
  }

  lemma StepBehind(m: Machine, before: seq<Label>, curr: char, next: char, last: bool)
    ensures Behind(m, before).Step(curr, next, last) == Behind(m.Step(curr, next, last), before)
  {
    FlushBehind(m, before);
    var m1 := if curr == '{' && next == '@' then m.Flush().(inStyle := true) else m;
    var m2 := if curr == '@' && next == '}' then m1.(closingStyle := true) else m1;
    var m3 := if curr == '{' && next == '/' then m2.(closingBlock := true) else m2;
    var t := m3.(currText := m3.currText + [curr]);
    FlushBehind(t, before);
    FlushBehind(m3, before);
  }

  lemma {:induction false} RunBehind(m: Machine, before: seq<Label>, rest: string)
    ensures Behind(m, before).Run(rest) == Behind(m.Run(rest), before)
    decreases |rest|
  {
    if rest != "" {
      var next, last := NextChar(rest, 0), |rest| == 1;
      StepBehind(m, before, rest[0], next, last);
      RunBehind(m.Step(rest[0], next, last), before, rest[1..]);
    }
  }

  /** Text without blanks is only collected while something other than a '}' follows. */
  lemma {:induction false} WordRun(m: Machine, w: string, rest: string)
    requires Idle(m, w + rest) && SafeText(w, rest) && ' ' !in w && rest != "" && rest[0] != '}'
    ensures m.Run(w + rest) == m.(currText := m.currText + w, closingStyle := false).Run(rest)
    decreases |w|
  {
    if w == "" {
      assert w + rest == rest && m.currText + w == m.currText;
    } else {
      var tail := w[1..] + rest;
      assert w + rest == [w[0]] + tail && (w + rest)[1..] == tail;
      CharStepIs(m, w[0], NextChar(w + rest, 0), false);
      var m1 := m.(currText := m.currText + [w[0]], closingStyle := w[0] == '@' && NextChar(w + rest, 0) == '}');
      RunTo(m, w[0], tail, m1);
      WordRun(m1, w[1..], rest);
      assert m.currText + [w[0]] + w[1..] == m.currText + w;
    }
  }

  /** Text without blanks at the end of the content makes one label. */
  lemma {:induction false} LastWordRun(m: Machine, w: string)
    requires Idle(m, w) && SafeText(w, "") && ' ' !in w && w != ""
    ensures m.Run(w) == m.(currText := m.currText + w, closingStyle := false).Flush()
    decreases |w|
  {
    var tail := w[1..];
    assert w == [w[0]] + tail && w + "" == w;
    CharStepIs(m, w[0], NextChar(w, 0), tail == "");
    var m1 := m.(currText := m.currText + [w[0]], closingStyle := w[0] == '@' && NextChar(w, 0) == '}');
    if tail == "" {
      assert w == [w[0]];
      RunTo(m, w[0], tail, m1.Flush());
    } else {
      RunTo(m, w[0], tail, m1);
      LastWordRun(m1, tail);
      assert m.currText + [w[0]] + tail == m.currText + w;
    }
  }

  /** A marker-free text without blanks gives one label, and that is all of it. */
  lemma WordIsOneLabel(w: string, groups: seq<StyleMap>)
    requires w != "" && ' ' !in w && FreeOfMarkers(w)
    ensures var m := Start(groups).Run(w);
      m.labels == [Label(w, if groups == [] then None else Some(groups[|groups| - 1]))] && m.groups == groups
  {
    FreeIsSafe(w, "");
    LastWordRun(Start(groups), w);
    assert "" + w == w;
  }

  /** A blank ends a label and belongs to it; what follows is labelled on its own. */
  lemma BlankEndsLabel(w: string, t: string, groups: seq<StyleMap>)
    requires ' ' !in w && FreeOfMarkers(w + " ")
    ensures var m, rest := Start(groups).Run(w + " " + t), Start(groups).Run(t);
      && m.labels == [Label(w + " ", if groups == [] then None else Some(groups[|groups| - 1]))] + rest.labels
      && m.groups == rest.groups
  {
    var m := Start(groups);
    FreeIsSafe(w + " ", t);
    SafeTextCut(w, " ", t);
    assert w + " " + t == w + ([' '] + t);
    WordRun(m, w, [' '] + t);
    var m1 := m.(currText := w);
    assert "" + w == w;
    CharStepIs(m1, ' ', NextChar([' '] + t, 0), t == "");
    var made := Label(w + " ", Top(groups));
    assert [] + [made] == [made] + [];
    RunTo(m1, ' ', t, Behind(m, [made]));
    RunBehind(m, [made], t);
  }

  /** A marker ends a label: exactly the text collected so far, empty or not, in the style in force
      before the marker. What follows is labelled on its own, from the stack the marker leaves. */
  lemma MarkerEndsLabel(w: string, token: Token, t: string, groups: seq<StyleMap>)
    requires ' ' !in w && FreeOfMarkers(w) && !token.Chars?
    requires token.Open? ==> CleanEntries(token.entries)
    ensures var m, rest := Start(groups).Run(w + Spell(token) + t), Start(After(token, groups)).Run(t);
      && m.labels == [Label(w, if groups == [] then None else Some(groups[|groups| - 1]))] + rest.labels
      && m.groups == rest.groups
  {
    var m := Start(groups);
    var tail := Spell(token) + t;
    FreeIsSafe(w, tail);
    assert w + Spell(token) + t == w + tail;
    WordRun(m, w, tail);
    var m1 := m.(currText := w);
    assert "" + w == w;
    if token.Open? {
      OpenRun(m1, token.entries, t);
    } else {
      CloseRun(m1, t);
    }
    var made, next := Label(w, Top(groups)), Start(After(token, groups));
    assert [] + [made] == [made] + [];
    assert m1.Flush().(groups := After(token, groups)) == Behind(next, [made]);
    RunBehind(next, [made], t);
  }
}
