/** Markdown's inline tags: printed around a node's text, and read back word by word. */
module MarkdownTags {
  import opened Scanning

  const OPEN_PREFIX := "[@"
  const OPEN_SUFFIX := "@]"
  const CLOSE_TAG := "[/]"

  predicate IsSpace(c: char) {
    c == ' ' || c == '\t' || c == '\n' || c == '\r' || c == 11 as char || c == 12 as char
  }

  /** strings.Fields of acc + s, where acc is the word under way. */
  function FieldsFrom(s: string, acc: string): seq<string> {
    if s == "" then if acc == "" then [] else [acc]
    else if IsSpace(s[0]) then (if acc == "" then [] else [acc]) + FieldsFrom(s[1..], "")
    else FieldsFrom(s[1..], acc + [s[0]])
  }

  function Fields(s: string): seq<string> {
    FieldsFrom(s, "")
  }

  function Concat(ws: seq<string>): string {
    if ws == [] then "" else ws[0] + Concat(ws[1..])
  }

  function WithoutSpaces(s: string): string {
    if s == "" then "" else (if IsSpace(s[0]) then "" else [s[0]]) + WithoutSpaces(s[1..])
  }

  /** The words are the text without its white space, and none is empty or contains any. */
  lemma {:induction false} FieldsKeepText(s: string, acc: string)
    requires forall c | c in acc :: !IsSpace(c)
    ensures Concat(FieldsFrom(s, acc)) == acc + WithoutSpaces(s)
    ensures forall w | w in FieldsFrom(s, acc) :: w != "" && forall c | c in w :: !IsSpace(c)
    decreases |s|
  {
    if s != "" {
      if IsSpace(s[0]) {
        FieldsKeepText(s[1..], "");
        var rest := FieldsFrom(s[1..], "");
        assert FieldsFrom(s, acc) == if acc == "" then rest else [acc] + rest;
        assert acc != "" ==> ([acc] + rest)[1..] == rest;
        assert "" + WithoutSpaces(s[1..]) == WithoutSpaces(s[1..]);
      } else {
        FieldsKeepText(s[1..], acc + [s[0]]);
        assert acc + [s[0]] + WithoutSpaces(s[1..]) == acc + WithoutSpaces(s);
      }
    } else {
      assert acc + WithoutSpaces(s) == acc;
    }
  }

  /** A text without white space is one word. The codes are those of tab, line feed, vertical tab, form
      feed, carriage return and blank. */
  lemma OneWord(w: string)
    requires w != "" && forall c | c in w :: c as int !in {9, 10, 11, 12, 13, 32}
    ensures Fields(w) == [w]
  {
    WordFrom(w, "");
    assert "" + w == w;
  }

  lemma {:induction false} WordFrom(w: string, acc: string)
    requires acc + w != "" && forall c | c in w :: !IsSpace(c)
    ensures FieldsFrom(w, acc) == [acc + w]
    decreases |w|
  {
    if w == "" {
      assert acc + w == acc;
    } else {
      assert acc + w == acc + [w[0]] + w[1..];
      WordFrom(w[1..], acc + [w[0]]);
    }
  }

  /** White space ends a word wherever it stands. */
  lemma SpaceEndsWord(a: string, c: char, b: string)
    requires c as int in {9, 10, 11, 12, 13, 32}
    ensures Fields(a + [c] + b) == Fields(a) + Fields(b)
  {
    SpaceEndsWordFrom(a, c, b, "");
  }

  lemma {:induction false} SpaceEndsWordFrom(a: string, c: char, b: string, acc: string)
    requires IsSpace(c)
    ensures FieldsFrom(a + [c] + b, acc) == FieldsFrom(a, acc) + Fields(b)
    decreases |a|
  {
    var s := a + [c] + b;
    if a == "" {
      assert s[1..] == b;
    } else {
      assert s[0] == a[0] && s[1..] == a[1..] + [c] + b;
      SpaceEndsWordFrom(a[1..], c, b, if IsSpace(a[0]) then "" else acc + [a[0]]);
    }
  }

  /** strings.Replace(s, [a, b], "", -1). */
  function Strip(s: string, a: char, b: char): string {
    if |s| < 2 then s
    else if s[0] == a && s[1] == b then Strip(s[2..], a, b)
    else [s[0]] + Strip(s[1..], a, b)
  }

  function TagName(spelled: string): string {
    Strip(Strip(spelled, '[', '@'), '@', ']')
  }

  /** A word as it is laid out: its text and the tags it stands under. */
  type Word = (string, seq<string>)

  function Words(text: string, tags: seq<string>): seq<Word> {
    var ws := Fields(text);
    seq(|ws|, i requires 0 <= i < |ws| => (ws[i] + " ", tags))
  }

  datatype Machine = Machine(
    words: seq<Word>, tags: seq<string>,
    inBlock: bool, inName: bool, closing: bool, currTag: string, currText: string)
  {
    function Flush(): Machine {
      this.(words := words + Words(currText, tags), currText := "")
    }

    function Step(curr: char, next: char, last: bool): Machine {
      if curr == '[' && next == '@' then Flush().(inName := true, inBlock := true, currTag := [curr])
      else if !inBlock then
        var t := this.(currText := currText + [curr]);
        if last || curr == '[' then t.Flush() else t
      else if inName then
        var t := this.(currTag := currTag + [curr]);
        if curr == ']' then t.(inName := false, tags := tags + [TagName(t.currTag)], currTag := "") else t
      else if curr == '[' && next == '/' then this.(closing := true)
      else if closing then
        if curr == ']' then Flush().(tags := Pop(tags), closing := false, inBlock := false) else this
      else this.(currText := currText + [curr])
    }

    function Run(rest: string): Machine
      decreases |rest|
    {
      if rest == "" then this else Step(rest[0], NextChar(rest, 0), |rest| == 1).Run(rest[1..])
    }
  }

  function Start(tags: seq<string>): Machine {
    Machine([], tags, false, false, false, "", "")
  }

  /** Words join the last row; a first row is created when there is none. */
  function Append(rows: seq<seq<Word>>, ws: seq<Word>): seq<seq<Word>> {
    if ws == [] then rows
    else if rows == [] then [ws]
    else rows[..|rows| - 1] + [rows[|rows| - 1] + ws]
  }

  lemma AppendTwice(rows: seq<seq<Word>>, a: seq<Word>, b: seq<Word>)
    ensures Append(Append(rows, a), b) == Append(rows, a + b)
  {
    if a == [] {
      assert a + b == b;
    } else if b == [] {
      assert a + b == a;
    } else if rows != [] {
      var last := rows[|rows| - 1];
      assert Append(rows, a)[..|rows| - 1] == rows[..|rows| - 1];
      assert last + a + b == last + (a + b);
    }
  }

  /** A flat document: plain text, a tagged text, and so on, ending in plain text. */
  datatype Doc = Plain(text: string) | Tagged(before: string, tag: string, inside: string, rest: Doc)

  function Print(d: Doc): string {
    match d
    case Plain(text) => text
    case Tagged(before, tag, inside, rest) =>
      before + (OPEN_PREFIX + tag + OPEN_SUFFIX + (inside + (CLOSE_TAG + Print(rest))))
  }

  /** Each segment's words, under its own tag only. */
  function Meaning(d: Doc, tags: seq<string>): seq<Word> {
    match d
    case Plain(text) => Words(text, tags)
    case Tagged(before, tag, inside, rest) => Words(before, tags) + Words(inside, tags + [tag]) + Meaning(rest, tags)
  }

  /** The rows are the old ones, with these words at the end of the last: each with a trailing blank and
      exactly these tags. */
  ghost predicate LaidOut(was: seq<seq<Word>>, now: seq<seq<Word>>, ws: seq<string>, tags: seq<string>) {
    if ws == [] then now == was
    else
      var last := if was == [] then [] else was[|was| - 1];
      && now != [] && now[..|now| - 1] == (if was == [] then [] else was[..|was| - 1])
      && |now[|now| - 1]| == |last| + |ws|
      && (forall i | 0 <= i < |last| :: now[|now| - 1][i] == last[i])
      && (forall i | 0 <= i < |ws| :: now[|now| - 1][|last| + i] == (ws[i] + " ", tags))
  }

  lemma AppendLaysOut(rows: seq<seq<Word>>, text: string, tags: seq<string>)
    ensures LaidOut(rows, Append(rows, Words(text, tags)), Fields(text), tags)
  {
  }

  class MarkdownProvider {
    var stringBuilder: string
    var tagStack: seq<string>
    var containers: seq<seq<Word>>

    constructor ()
      ensures stringBuilder == "" && tagStack == [] && containers == []
    {
      stringBuilder, tagStack, containers := "", [], [];
    }

    method OpenTag(tagName: string)
      modifies this`stringBuilder
      ensures stringBuilder == old(stringBuilder) + OPEN_PREFIX + tagName + OPEN_SUFFIX
    {
      var tag := OPEN_PREFIX + tagName + OPEN_SUFFIX;
      stringBuilder := stringBuilder + tag;
    }

    method CloseTag()
      modifies this`stringBuilder
      ensures stringBuilder == old(stringBuilder) + CLOSE_TAG
    {
      stringBuilder := stringBuilder + CLOSE_TAG;
    }

    /** Walks a document as the parser does: texts are collected, a tag is opened on entering its node and
        closed on leaving it. */
    method WriteDoc(d: Doc)
      modifies this`stringBuilder
      ensures stringBuilder == old(stringBuilder) + Print(d)
      decreases d
    {
      match d
      case Plain(text) =>
        stringBuilder := stringBuilder + text;
      case Tagged(before, tag, inside, rest) =>
        stringBuilder := stringBuilder + before;
        OpenTag(tag);
        stringBuilder := stringBuilder + inside;
        CloseTag();
        WriteDoc(rest);
    }

    /** A block is collected and rendered: each segment's words join the last row under the segment's own
        tag, and the tags are as before. */
    method WriteBlock(d: Doc)
      requires Clean(d) && stringBuilder == ""
      modifies this
      ensures containers == Append(old(containers), Meaning(d, old(tagStack)))
      ensures tagStack == old(tagStack) && stringBuilder == ""
    {
      WriteDoc(d);
      RenderRoundTrip(d, tagStack);
      assert stringBuilder == Print(d);
      RenderBlock();
    }

    /** Appends the words of a text to the last row. */
    method Render(content: string)
      modifies this`containers
      ensures containers == Append(old(containers), Words(content, tagStack))
      ensures LaidOut(old(containers), containers, Fields(content), tagStack)
    {
      var words := Fields(content);
      ghost var all := Words(content, tagStack);
      for index := 0 to |words|
        invariant containers == Append(old(containers), all[..index])
      {
        AppendTwice(old(containers), all[..index], [all[index]]);
        assert all[..index + 1] == all[..index] + [all[index]];
        containers := Append(containers, [(words[index] + " ", tagStack)]);
      }
      assert all[..|words|] == all;
      AppendLaysOut(old(containers), content, tagStack);
    }

    method PushTag(tagName: string)
      modifies this`tagStack
      ensures tagStack == old(tagStack) + [tagName]
    {
      tagStack := tagStack + [tagName];
    }

    method PopTag()
      modifies this`tagStack
      ensures tagStack == Pop(old(tagStack))
    {
      if |tagStack| > 0 {
        tagStack := tagStack[..|tagStack| - 1];
      }
    }

    method RenderBlock()
      modifies this
      ensures stringBuilder == ""
      ensures var m := Start(old(tagStack)).Run(old(stringBuilder));
        containers == Append(old(containers), m.words) && tagStack == m.tags
    {
      var content := stringBuilder;
      stringBuilder := "";
      var inBlock, isGettingTagName, isClosingBlock := false, false, false;
      var currentTag, currText := "", "";
      ghost var m := Start(tagStack);
      var i := 0;
      while i < |content|
        invariant i <= |content| && stringBuilder == ""
        invariant m == Machine(m.words, tagStack, inBlock, isGettingTagName, isClosingBlock, currentTag, currText)
        invariant containers == Append(old(containers), m.words)
        invariant m.Run(content[i..]) == Start(old(tagStack)).Run(content)
      {
        var curr, next := content[i], NextChar(content, i);
        AppendTwice(old(containers), m.words, Words(currText, tagStack));
        AppendTwice(old(containers), m.words, Words(currText + [curr], tagStack));
        assert content[i..][1..] == content[i + 1..];
        m := m.Step(curr, next, i + 1 == |content|);
        if curr == OPEN_PREFIX[0] && next == OPEN_PREFIX[1] {
          Render(currText);
          currText := "";
          isGettingTagName := true;
          inBlock := true;
          currentTag := [curr];
        } else if !inBlock {
          currText := currText + [curr];
          if i + 1 == |content| || curr == OPEN_PREFIX[0] || curr == CLOSE_TAG[0] {
            Render(currText);
            currText := "";
          }
        } else if isGettingTagName {
          currentTag := currentTag + [curr];
          if curr == OPEN_SUFFIX[1] {
            isGettingTagName := false;
            PushTag(TagName(currentTag));
            currentTag := "";
          }
        } else if curr == CLOSE_TAG[0] && next == CLOSE_TAG[1] {
          isClosingBlock := true;
        } else if isClosingBlock {
          if curr == CLOSE_TAG[2] {
            Render(currText);
            currText := "";
            PopTag();
            isClosingBlock := false;
            inBlock := false;
          }
        } else {
          currText := currText + [curr];
        }
        i := i + 1;
      }
    }
  }

  // ---------------------------------------------------------------------------------------
  // The round trip

  predicate Clean(d: Doc) {
    match d
    case Plain(text) => '[' !in text
    case Tagged(before, tag, inside, rest) =>
      '[' !in before && '[' !in inside && '[' !in tag && '@' !in tag && ']' !in tag && Clean(rest)
  }

  lemma {:induction false} StripNone(s: string, a: char, b: char)
    requires a !in s
    ensures Strip(s, a, b) == s
  {
    if |s| >= 2 {
      StripNone(s[1..], a, b);
    }
  }

  lemma {:induction false} StripEnd(s: string)
    requires '@' !in s
    ensures Strip(s + "@]", '@', ']') == s
  {
    if s == "" {
      assert s + "@]" == "@]";
      assert "@]"[2..] == "";
    } else {
      assert (s + "@]")[1..] == s[1..] + "@]";
      StripEnd(s[1..]);
    }
  }

  lemma TagNameReads(tag: string)
    requires '[' !in tag && '@' !in tag && ']' !in tag
    ensures TagName(OPEN_PREFIX + tag + OPEN_SUFFIX) == tag
  {
    assert (OPEN_PREFIX + tag + OPEN_SUFFIX)[2..] == tag + "@]";
    StripNone(tag + "@]", '[', '@');
    StripEnd(tag);
  }

  lemma RunStep(m: Machine, c: char, rest: string)
    ensures m.Run([c] + rest) == m.Step(c, NextChar([c] + rest, 0), rest == "").Run(rest)
  {
    assert ([c] + rest)[1..] == rest;
  }

  /** Text without brackets that is followed by more content is only collected. */
  lemma {:induction false} TextRun(m: Machine, s: string, rest: string)
    requires '[' !in s && rest != "" && !m.inName && !m.closing
    ensures m.Run(s + rest) == m.(currText := m.currText + s).Run(rest)
    decreases |s|
  {
    if s == "" {
      assert s + rest == rest && m.currText + s == m.currText;
    } else {
      var tail := s[1..] + rest;
      assert s + rest == [s[0]] + tail;
      assert s[0] in s;
      RunStep(m, s[0], tail);
      TextRun(m.(currText := m.currText + [s[0]]), s[1..], rest);
      assert m.currText + [s[0]] + s[1..] == m.currText + s;
    }
  }

  /** Text that ends the content is flushed. */
  lemma LastTextRun(m: Machine, s: string)
    requires '[' !in s && !m.inBlock && !m.inName && !m.closing && m.currText == ""
    ensures m.Run(s) == m.Flush().(words := m.words + Words(s, m.tags))
  {
    if s == "" {
      assert Fields("") == [];
      assert m.words + Words(s, m.tags) == m.words;
    } else {
      var most, last := s[..|s| - 1], s[|s| - 1];
      assert s == most + [last];
      TextRun(m, most, [last]);
      var t := m.(currText := m.currText + most);
      RunStep(t, last, "");
      assert [last] + "" == [last];
      assert t.currText + [last] == s;
    }
  }

  lemma {:induction false} NameRun(m: Machine, s: string, rest: string)
    requires m.inBlock && m.inName && '[' !in s && ']' !in s && rest != ""
    ensures m.Run(s + rest) == m.(currTag := m.currTag + s).Run(rest)
    decreases |s|
  {
    if s == "" {
      assert s + rest == rest && m.currTag + s == m.currTag;
    } else {
      var tail := s[1..] + rest;
      assert s + rest == [s[0]] + tail;
      assert s[0] in s;
      RunStep(m, s[0], tail);
      NameRun(m.(currTag := m.currTag + [s[0]]), s[1..], rest);
      assert m.currTag + [s[0]] + s[1..] == m.currTag + s;
    }
  }

  lemma OpenRun(m: Machine, tag: string, rest: string)
    requires '[' !in tag && '@' !in tag && ']' !in tag
    requires !m.inName && !m.closing && m.currTag == ""
    ensures m.Run(OPEN_PREFIX + tag + OPEN_SUFFIX + rest)
      == m.Flush().(inBlock := true, tags := m.tags + [tag]).Run(rest)
  {
    var end := [']'] + rest;
    var name := "@" + tag + "@";
    var m1 := m.Flush().(inBlock := true, inName := true, currTag := "[");
    assert OPEN_PREFIX + tag + OPEN_SUFFIX + rest == ['['] + (name + end);
    RunStep(m, '[', name + end);
    NameRun(m1, name, end);
    var m2 := m1.(currTag := "[" + name);
    RunStep(m2, ']', rest);
    assert m2.currTag + [']'] == OPEN_PREFIX + tag + OPEN_SUFFIX;
    TagNameReads(tag);
  }

  lemma CloseRun(m: Machine, rest: string)
    requires m.inBlock && !m.inName && !m.closing
    ensures m.Run(CLOSE_TAG + rest) == m.Flush().(tags := Pop(m.tags), inBlock := false).Run(rest)
  {
    var t2 := [']'] + rest;
    var t1 := ['/'] + t2;
    var m1 := m.(closing := true);
    assert CLOSE_TAG + rest == ['['] + t1;
    RunStep(m, '[', t1);
    RunStep(m1, '/', t2);
    RunStep(m1, ']', rest);
  }

  /** Rendering what was printed emits exactly each segment's words under its own tag, in order, and
      restores the tag stack. */
  lemma {:induction false} RoundTrip(m: Machine, d: Doc)
    requires Clean(d)
    requires !m.inBlock && !m.inName && !m.closing && m.currTag == "" && m.currText == ""
    ensures m.Run(Print(d)) == m.(words := m.words + Meaning(d, m.tags))
    decreases d
  {
    match d
    case Plain(text) =>
      LastTextRun(m, text);
      assert Words("", m.tags) == [];
    case Tagged(before, tag, inside, rest) =>
      var m' := SegmentRun(m, before, tag, inside, Print(rest));
      RoundTrip(m', rest);
      assert m.words + Words(before, m.tags) + Words(inside, m.tags + [tag]) + Meaning(rest, m.tags)
        == m.words + (Words(before, m.tags) + Words(inside, m.tags + [tag]) + Meaning(rest, m.tags));
  }

  lemma SegmentRun(m: Machine, before: string, tag: string, inside: string, rest: string) returns (m': Machine)
    requires '[' !in before && '[' !in inside && '[' !in tag && '@' !in tag && ']' !in tag
    requires !m.inBlock && !m.inName && !m.closing && m.currTag == "" && m.currText == ""
    ensures m.Run(before + (OPEN_PREFIX + tag + OPEN_SUFFIX + (inside + (CLOSE_TAG + rest)))) == m'.Run(rest)
    ensures m' == m.(words := m.words + Words(before, m.tags) + Words(inside, m.tags + [tag]))
  {
    var body := inside + (CLOSE_TAG + rest);
    TextRun(m, before, OPEN_PREFIX + tag + OPEN_SUFFIX + body);
    var m1 := m.(currText := m.currText + before);
    assert m1.currText == before;
    OpenRun(m1, tag, body);
    var m2 := m1.Flush().(inBlock := true, tags := m.tags + [tag]);
    TextRun(m2, inside, CLOSE_TAG + rest);
    var m3 := m2.(currText := m2.currText + inside);
    assert m3.currText == inside;
    CloseRun(m3, rest);
    m' := m3.Flush().(tags := Pop(m3.tags), inBlock := false);
    assert (m.tags + [tag])[..|m.tags|] == m.tags;
  }

  /** The same for a call of the renderer. */
  lemma RenderRoundTrip(d: Doc, tags: seq<string>)
    requires Clean(d)
    ensures var m := Start(tags).Run(Print(d)); m.words == Meaning(d, tags) && m.tags == tags
  {
    RoundTrip(Start(tags), d);
    assert [] + Meaning(d, tags) == Meaning(d, tags);
  }

  // ---------------------------------------------------------------------------------------
  // Beyond flat documents

  /** Outside tags a bracket that opens no tag is text, but it ends its word. */
  lemma BracketEndsText(tags: seq<string>, x: string, y: string)
    requires '[' !in x && '[' !in y && (y != "" ==> y[0] != '@')
    ensures var m := Start(tags).Run(x + "[" + y);
      m.words == Words(x + "[", tags) + Words(y, tags) && m.tags == tags
  {
    var m := Start(tags);
    assert x + "[" + y == x + (['['] + y);
    TextRun(m, x, ['['] + y);
    var m1 := m.(currText := x);
    assert m.currText + x == x && [] + Words(x + "[", tags) == Words(x + "[", tags);
    RunStep(m1, '[', y);
    LastTextRun(m1.(currText := x + "[").Flush(), y);
  }

  /** How a tag inside a tag is read: the inner one is fine, but its end closes the block, so that the
      outer end is read as text and the outer tag stays in force. */
  lemma NestedTagStays(tags: seq<string>, a: string, x: string, b: string, y: string, z: string)
    requires '[' !in x && '[' !in y && '[' !in z
    requires '[' !in a && '@' !in a && ']' !in a && '[' !in b && '@' !in b && ']' !in b
    ensures var m := Start(tags).Run("[@" + a + "@]" + (x + ("[@" + b + "@]" + (y + ("[/]" + (z + "[/]"))))));
      && m.words == Words(x, tags + [a]) + Words(y, tags + [a] + [b])
                    + (Words(z + "[", tags + [a]) + Words("/]", tags + [a]))
      && m.tags == tags + [a]
  {
    var m := Start(tags);
    var tail := z + "[/]";
    var inner := y + ("[/]" + tail);
    var body := x + ("[@" + b + "@]" + inner);
    OpenRun(m, a, body);
    var m1 := m.(inBlock := true, tags := tags + [a]);
    assert m.Flush() == m by { assert Words("", tags) == [] && m.words + [] == m.words; }
    TextRun(m1, x, "[@" + b + "@]" + inner);
    var m2 := m1.(currText := x);
    assert "" + x == x;
    OpenRun(m2, b, inner);
    var m3 := m1.(words := Words(x, tags + [a]), tags := tags + [a] + [b]);
    assert m2.Flush().(inBlock := true, tags := m2.tags + [b]) == m3 by {
      assert [] + Words(x, tags + [a]) == Words(x, tags + [a]);
    }
    TextRun(m3, y, "[/]" + tail);
    assert "" + y == y;
    CloseRun(m3.(currText := y), tail);
    var m4 := Start(tags + [a]).(words := Words(x, tags + [a]) + Words(y, tags + [a] + [b]));
    assert Pop(tags + [a] + [b]) == tags + [a];
    assert m.Run("[@" + a + "@]" + body) == m4.Run(tail);
    PlainTail(m4, z);
  }

  lemma PlainTail(m: Machine, z: string)
    requires '[' !in z && !m.inBlock && !m.inName && !m.closing && m.currText == ""
    ensures m.Run(z + "[/]") == m.(words := m.words + (Words(z + "[", m.tags) + Words("/]", m.tags)))
  {
    assert z + "[/]" == z + (['['] + "/]");
    TextRun(m, z, ['['] + "/]");
    var m1 := m.(currText := z);
    assert "" + z == z;
    RunStep(m1, '[', "/]");
    var m2 := m1.(currText := z + "[").Flush();
    LastTextRun(m2, "/]");
    assert m2.Flush() == m2 by { assert Words("", m.tags) == [] && m2.words + [] == m2.words; }
  }
}
